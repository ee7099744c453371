/**
 * The path and string helpers the catalog relies on (getFileName, getStem,
 * getExtension, getParent, getEscapedPath, String::replace). Their own
 * sources are not part of this model; they are given the simplest
 * definitions consistent with how the catalog uses them on '/'-separated
 * paths.
 */
module Paths {

  // Each helper reads the path from its end, one character at a time.

  /** The last component of a path: everything after its last '/'. */
  function FileName(path: string): (r: string)
    ensures '/' !in r
  {
    if path == [] || path[|path| - 1] == '/' then []
    else FileName(path[..|path| - 1]) + [path[|path| - 1]]
  }

  /** Everything before the last '/' of a path ("" when there is none). */
  function Parent(path: string): string
  {
    if path == [] then []
    else if path[|path| - 1] == '/' then path[..|path| - 1]
    else Parent(path[..|path| - 1])
  }

  /** The file name's suffix from its last '.', dot included ("" when there is none). */
  function Extension(path: string): (r: string)
    ensures r == [] || r[0] == '.'
  {
    if path == [] || path[|path| - 1] == '/' then []
    else if path[|path| - 1] == '.' then "."
    else
      var e := Extension(path[..|path| - 1]);
      if e == [] then [] else e + [path[|path| - 1]]
  }

  /** The file name without its extension. */
  function Stem(path: string): string
  {
    if path == [] || path[|path| - 1] == '/' then []
    else if path[|path| - 1] == '.' then FileName(path[..|path| - 1])
    else if Extension(path[..|path| - 1]) == [] then FileName(path)
    else Stem(path[..|path| - 1])
  }

  /** A file name is its stem followed by its extension. */
  lemma {:induction false} NameSplits(path: string)
    ensures Stem(path) + Extension(path) == FileName(path)
  {
    if path != [] && path[|path| - 1] != '/' && path[|path| - 1] != '.' {
      var p := path[..|path| - 1];
      if Extension(p) != [] {
        NameSplits(p);
      }
    }
  }

  /** A path with a '/' is its parent, a '/' and its file name. */
  lemma {:induction false} ParentSplits(path: string)
    requires '/' in path
    ensures Parent(path) + "/" + FileName(path) == path
  {
    var p := path[..|path| - 1];
    assert path == p + [path[|path| - 1]];
    if path[|path| - 1] != '/' {
      ParentSplits(p);
    }
  }

  /** A path is rebuilt from its parent, a '/', its stem and its extension. */
  lemma PathSplits(path: string)
    requires '/' in path
    ensures Parent(path) + "/" + Stem(path) + Extension(path) == path
  {
    ParentSplits(path);
    NameSplits(path);
  }

  /** ASCII lower-casing, as `::tolower` in the "C" locale. */
  function ToLowerChar(c: char): char
  {
    if 'A' <= c <= 'Z' then (c as int + 32) as char else c
  }

  function ToLower(s: string): (r: string)
    ensures |r| == |s|
    ensures forall i :: 0 <= i < |s| ==> r[i] == ToLowerChar(s[i])
  {
    if s == [] then [] else [ToLowerChar(s[0])] + ToLower(s[1..])
  }

  function ToUpperChar(c: char): char
  {
    if 'a' <= c <= 'z' then (c as int - 32) as char else c
  }

  /** ASCII upper-casing. */
  function ToUpper(s: string): (r: string)
    ensures |r| == |s|
    ensures forall i :: 0 <= i < |s| ==> r[i] == ToUpperChar(s[i])
  {
    if s == [] then [] else [ToUpperChar(s[0])] + ToUpper(s[1..])
  }

  /** The extension as the catalog compares it: lower-cased. */
  function LowerExtension(path: string): string
  {
    ToLower(Extension(path))
  }

  predicate IsPrefix(p: string, s: string)
  {
    |p| <= |s| && s[..|p|] == p
  }

  /** `pat` occurs somewhere in `s`. */
  predicate Contains(s: string, pat: string)
    decreases |s|
  {
    |pat| <= |s| && (s[..|pat|] == pat || Contains(s[1..], pat))
  }

  /**
   * Every occurrence of `pat`, scanning left to right, replaced by `rep`;
   * text that a replacement inserts is not scanned again.
   */
  function ReplaceAll(s: string, pat: string, rep: string): string
    requires pat != []
    decreases |s|
  {
    if |s| < |pat| then s
    else if s[..|pat|] == pat then rep + ReplaceAll(s[|pat|..], pat, rep)
    else [s[0]] + ReplaceAll(s[1..], pat, rep)
  }

  /** A placeholder that does not occur is left alone: nothing else is rewritten. */
  lemma {:induction false} ReplaceAbsent(s: string, pat: string, rep: string)
    requires pat != [] && !Contains(s, pat)
    ensures ReplaceAll(s, pat, rep) == s
    decreases |s|
  {
    if |s| >= |pat| {
      ReplaceAbsent(s[1..], pat, rep);
    }
  }

  /** Characters a POSIX shell treats specially; each is escaped with a backslash. */
  const ShellSpecials: set<char> := {' ', '\'', '"', '\\', '!', '$', '^', '&', '*', '(', ')', '{', '}', '[', ']', '?', ';', '<', '>'}

  function EscapedPath(path: string): (r: string)
    ensures |r| >= |path|
  {
    if path == [] then []
    else (if path[0] in ShellSpecials then ['\\', path[0]] else [path[0]]) + EscapedPath(path[1..])
  }

  /** A path without special characters is passed to the shell as it is. */
  lemma {:induction false} EscapedUnchanged(path: string)
    requires forall i :: 0 <= i < |path| ==> path[i] !in ShellSpecials
    ensures EscapedPath(path) == path
  {
    if path != [] {
      EscapedUnchanged(path[1..]);
    }
  }

  /** Escaping only inserts backslashes: every other character comes from the path. */
  lemma {:induction false} EscapedChars(path: string)
    ensures forall c :: c in EscapedPath(path) ==> c in path || c == '\\'
  {
    if path != [] {
      EscapedChars(path[1..]);
    }
  }

  /** The file name and the stem are made of characters of the path. */
  lemma {:induction false} NameChars(path: string)
    ensures forall c :: c in FileName(path) ==> c in path
    ensures forall c :: c in Stem(path) ==> c in path
  {
    if path != [] && path[|path| - 1] != '/' {
      NameChars(path[..|path| - 1]);
    }
  }

  /**
   * Bracketed groups "(...)" and "[...]" removed, scanning left to right;
   * `inGroup` says whether the scan is inside a group.
   */
  function DropGroups(s: string, inGroup: bool): (r: string)
    ensures '(' !in r && '[' !in r
    ensures |r| <= |s|
  {
    if s == [] then []
    else if inGroup then DropGroups(s[1..], s[0] != ')' && s[0] != ']')
    else if s[0] == '(' || s[0] == '[' then DropGroups(s[1..], true)
    else [s[0]] + DropGroups(s[1..], false)
  }

  /** Spaces removed from both ends. */
  function Trim(s: string): (r: string)
    ensures r == [] || (r[0] != ' ' && r[|r| - 1] != ' ')
    ensures |r| <= |s| && forall c :: c in r ==> c in s
    decreases |s|
  {
    if s == [] then []
    else if s[0] == ' ' then Trim(s[1..])
    else if s[|s| - 1] == ' ' then Trim(s[..|s| - 1])
    else s
  }

  /** A display name without its bracketed annotations (region, revision, ...). */
  function RemoveParenthesis(s: string): (r: string)
    ensures '(' !in r && '[' !in r
  {
    Trim(DropGroups(s, false))
  }
}
