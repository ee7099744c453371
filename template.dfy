/**
 * Command templates as text and placeholders. A template such as
 * "retroarch -L %CORE% --config %CONFIG% %ROM%" is a sequence of pieces:
 * literal text, and placeholders "%NAME%". This module states what the
 * left-to-right replace of one placeholder does to such a template: it
 * turns exactly the pieces with that name into the replacement text.
 */
module Template {
  import opened Paths

  /** The characters a placeholder name is made of: upper-case letters and '_'. */
  predicate NameChar(c: char)
  {
    'A' <= c <= 'Z' || c == '_'
  }

  predicate ValidName(n: string)
  {
    n != [] && forall i :: 0 <= i < |n| ==> NameChar(n[i])
  }

  function Placeholder(n: string): string
  {
    "%" + n + "%"
  }

  datatype Piece = Text(s: string) | Hole(name: string)

  function PieceText(p: Piece): string
  {
    match p
    case Text(s) => s
    case Hole(n) => Placeholder(n)
  }

  /** The template text the pieces spell. */
  function Render(ps: seq<Piece>): string
  {
    if ps == [] then [] else PieceText(ps[0]) + Render(ps[1..])
  }

  /**
   * A template whose '%' signs all delimit placeholders: text holds no '%',
   * every name is valid, and a placeholder is followed by the end or by
   * text whose first character cannot continue a name.
   */
  predicate WellFormed(ps: seq<Piece>)
  {
    ps == [] ||
    ((match ps[0]
      case Text(s) => '%' !in s
      case Hole(n) => ValidName(n) && (|ps| > 1 ==> ps[1].Text? && ps[1].s != [] && !NameChar(ps[1].s[0])))
     && WellFormed(ps[1..]))
  }

  /** Whether some piece is the placeholder `n`. */
  predicate HasHole(ps: seq<Piece>, n: string)
  {
    exists i :: 0 <= i < |ps| && ps[i] == Hole(n)
  }

  /** Every placeholder whose name `m` maps becomes the text it maps to; everything else stays. */
  function Fill(ps: seq<Piece>, m: map<string, string>): (r: seq<Piece>)
    ensures |r| == |ps|
    ensures forall i :: 0 <= i < |ps| ==>
              r[i] == if ps[i].Hole? && ps[i].name in m then Text(m[ps[i].name]) else ps[i]
  {
    if ps == [] then []
    else
      var p := if ps[0].Hole? && ps[0].name in m then Text(m[ps[0].name]) else ps[0];
      [p] + Fill(ps[1..], m)
  }

  // ---------------------------------------------------------------------
  // The replace scan over text

  /** Where the pattern does not start, the scan copies one character and moves on. */
  lemma ReplaceStep(s: string, pat: string, rep: string)
    requires pat != [] && s != []
    requires |s| >= |pat| ==> s[..|pat|] != pat
    ensures ReplaceAll(s, pat, rep) == [s[0]] + ReplaceAll(s[1..], pat, rep)
  {
    if |s| < |pat| {
      assert [s[0]] + s[1..] == s;
    }
  }

  /** Text without '%' is copied as it is before a '%'-delimited pattern. */
  lemma {:induction false} SkipText(t: string, rest: string, pat: string, rep: string)
    requires pat != [] && pat[0] == '%' && '%' !in t
    ensures ReplaceAll(t + rest, pat, rep) == t + ReplaceAll(rest, pat, rep)
    decreases |t|
  {
    if t == [] {
      assert t + rest == rest;
    } else {
      var s := t + rest;
      assert s[0] == t[0] && s[1..] == t[1..] + rest;
      ReplaceStep(s, pat, rep);
      SkipText(t[1..], rest, pat, rep);
      var r := ReplaceAll(rest, pat, rep);
      assert t + r == [t[0]] + (t[1..] + r);
    }
  }

  /** A different placeholder never matches at its opening '%'. */
  lemma HoleMismatch(h: string, n: string, rest: string)
    requires ValidName(h) && ValidName(n) && h != n
    ensures var s := Placeholder(h) + rest;
      |s| >= |Placeholder(n)| ==> s[..|Placeholder(n)|] != Placeholder(n)
  {
    var s := Placeholder(h) + rest;
    var pat := Placeholder(n);
    if |s| >= |pat| {
      assert forall k :: 0 <= k < |h| ==> s[k + 1] == h[k];
      assert forall k :: 0 <= k < |n| ==> pat[k + 1] == n[k];
      assert s[|h| + 1] == '%' && pat[|n| + 1] == '%';
      if |h| == |n| {
        var k :| 0 <= k < |h| && h[k] != n[k];
        assert s[k + 1] != pat[k + 1];
      } else if |h| < |n| {
        assert pat[|h| + 1] == n[|h|];
        assert s[|h| + 1] != pat[|h| + 1];
      } else {
        assert s[|n| + 1] == h[|n|];
        assert s[|n| + 1] != pat[|n| + 1];
      }
    }
  }

  /** The closing '%' of a placeholder, followed by the end or by a non-name character, never starts a match. */
  lemma CloseMismatch(rest: string, n: string)
    requires ValidName(n)
    requires rest != [] ==> !NameChar(rest[0])
    ensures var s := "%" + rest;
      |s| >= |Placeholder(n)| ==> s[..|Placeholder(n)|] != Placeholder(n)
  {
    var s := "%" + rest;
    var pat := Placeholder(n);
    if |s| >= |pat| {
      assert s[1] == rest[0] && pat[1] == n[0];
    }
  }

  /**
   * A placeholder other than `n`, followed by the end or by a non-name
   * character, is copied as it is.
   */
  lemma OtherHole(h: string, n: string, v: string, rest: string)
    requires ValidName(h) && ValidName(n) && h != n
    requires rest != [] ==> !NameChar(rest[0])
    ensures ReplaceAll(Placeholder(h) + rest, Placeholder(n), v) == Placeholder(h) + ReplaceAll(rest, Placeholder(n), v)
  {
    var pat := Placeholder(n);
    OpenStep(h, n, v, rest);
    SkipText(h, "%" + rest, pat, v);
    CloseStep(rest, n, v);
    var r := ReplaceAll(rest, pat, v);
    assert Placeholder(h) + r == "%" + (h + ("%" + r));
  }

  /** The opening '%' of a placeholder other than `n` is copied as it is. */
  lemma OpenStep(h: string, n: string, v: string, rest: string)
    requires ValidName(h) && ValidName(n) && h != n
    ensures ReplaceAll(Placeholder(h) + rest, Placeholder(n), v) == "%" + ReplaceAll(h + ("%" + rest), Placeholder(n), v)
  {
    var s := Placeholder(h) + rest;
    HoleMismatch(h, n, rest);
    ReplaceStep(s, Placeholder(n), v);
    assert s[1..] == h + ("%" + rest);
  }

  /** The closing '%' of a placeholder is copied as it is. */
  lemma CloseStep(rest: string, n: string, v: string)
    requires ValidName(n)
    requires rest != [] ==> !NameChar(rest[0])
    ensures ReplaceAll("%" + rest, Placeholder(n), v) == "%" + ReplaceAll(rest, Placeholder(n), v)
  {
    CloseMismatch(rest, n);
    ReplaceStep("%" + rest, Placeholder(n), v);
    assert ("%" + rest)[1..] == rest;
  }

  /**
   * Replacing the placeholder `n` in a well-formed template turns exactly
   * the pieces `Hole(n)` into the replacement and leaves the rest alone.
   */
  lemma {:induction false} ReplaceRendered(ps: seq<Piece>, n: string, v: string)
    requires WellFormed(ps) && ValidName(n) && '%' !in v
    ensures ReplaceAll(Render(ps), Placeholder(n), v) == Render(Fill(ps, map[n := v]))
    decreases |ps|
  {
    var pat := Placeholder(n);
    var m := map[n := v];
    if ps != [] {
      var rest := Render(ps[1..]);
      ReplaceRendered(ps[1..], n, v);
      var filled := Fill(ps, m);
      assert filled[1..] == Fill(ps[1..], m);
      assert Render(filled) == PieceText(filled[0]) + Render(Fill(ps[1..], m));
      match ps[0]
      case Text(t) =>
        SkipText(t, rest, pat, v);
      case Hole(h) =>
        if h == n {
          var s := pat + rest;
          assert s[..|pat|] == pat && s[|pat|..] == rest;
        } else {
          if |ps| > 1 {
            assert rest == ps[1].s + Render(ps[2..]);
          }
          OtherHole(h, n, v, rest);
        }
    }
  }

  // ---------------------------------------------------------------------
  // Filling several placeholders

  /** Filling with maps of disjoint names one after the other fills with their union. */
  lemma FillTwice(ps: seq<Piece>, m1: map<string, string>, m2: map<string, string>)
    requires m1.Keys !! m2.Keys
    ensures Fill(Fill(ps, m1), m2) == Fill(ps, m1 + m2)
  {
  }

  /** Filling names the template does not use changes nothing. */
  lemma FillAbsent(ps: seq<Piece>, m: map<string, string>)
    requires forall n :: n in m ==> !HasHole(ps, n)
    ensures Fill(ps, m) == ps
  {
    forall i | 0 <= i < |ps|
      ensures Fill(ps, m)[i] == ps[i]
    {
      if ps[i].Hole? && ps[i].name in m {
        assert HasHole(ps, ps[i].name);
      }
    }
  }

  /** A filled name no longer occurs as a placeholder. */
  lemma FilledNoHole(ps: seq<Piece>, m: map<string, string>, n: string)
    requires n in m
    ensures !HasHole(Fill(ps, m), n)
  {
  }

  /** A name left unfilled keeps its placeholders. */
  lemma UnfilledHole(ps: seq<Piece>, m: map<string, string>, n: string)
    requires n !in m && HasHole(ps, n)
    ensures HasHole(Fill(ps, m), n)
  {
    var i :| 0 <= i < |ps| && ps[i] == Hole(n);
    assert Fill(ps, m)[i] == Hole(n);
  }

  /** Text without '%' keeps a template well-formed. */
  lemma {:induction false} FillWellFormed(ps: seq<Piece>, m: map<string, string>)
    requires WellFormed(ps) && forall n :: n in m ==> '%' !in m[n]
    ensures WellFormed(Fill(ps, m))
    decreases |ps|
  {
    if ps != [] {
      FillWellFormed(ps[1..], m);
      assert Fill(ps, m)[1..] == Fill(ps[1..], m);
    }
  }

  /**
   * One more replace after some placeholders were filled: the template is
   * filled with one more name.
   */
  lemma ReplaceFilled(ps: seq<Piece>, m: map<string, string>, n: string, v: string)
    requires WellFormed(ps) && forall k :: k in m ==> '%' !in m[k]
    requires ValidName(n) && n !in m && '%' !in v
    ensures ReplaceAll(Render(Fill(ps, m)), Placeholder(n), v) == Render(Fill(ps, m + map[n := v]))
  {
    FillWellFormed(ps, m);
    ReplaceRendered(Fill(ps, m), n, v);
    FillTwice(ps, m, map[n := v]);
  }

  // ---------------------------------------------------------------------
  // What the text of a template contains

  lemma {:induction false} ContainsAfter(a: string, b: string, pat: string)
    requires Contains(b, pat)
    ensures Contains(a + b, pat)
    decreases |a|
  {
    if a == [] {
      assert a + b == b;
    } else {
      ContainsAfter(a[1..], b, pat);
      assert (a + b)[1..] == a[1..] + b;
    }
  }

  /** A placeholder piece makes the template text contain the placeholder. */
  lemma {:induction false} ContainsHole(ps: seq<Piece>, n: string)
    requires HasHole(ps, n)
    ensures Contains(Render(ps), Placeholder(n))
    decreases |ps|
  {
    var pat := Placeholder(n);
    if ps[0] == Hole(n) {
      var s := pat + Render(ps[1..]);
      assert s[..|pat|] == pat;
    } else {
      var i :| 0 <= i < |ps| && ps[i] == Hole(n);
      assert ps[1..][i - 1] == Hole(n);
      ContainsHole(ps[1..], n);
      ContainsAfter(PieceText(ps[0]), Render(ps[1..]), pat);
    }
  }

  /** Deleting every occurrence shortens a text that contains the pattern. */
  lemma {:induction false} ReplaceShrinks(s: string, pat: string)
    requires pat != []
    ensures |ReplaceAll(s, pat, [])| <= |s|
    ensures Contains(s, pat) ==> |ReplaceAll(s, pat, [])| < |s|
    decreases |s|
  {
    if |s| >= |pat| {
      if s[..|pat|] == pat {
        ReplaceShrinks(s[|pat|..], pat);
      } else {
        ReplaceShrinks(s[1..], pat);
      }
    }
  }

  /** A well-formed template without the placeholder `n` does not contain its text anywhere. */
  lemma NoHoleNoText(ps: seq<Piece>, n: string)
    requires WellFormed(ps) && ValidName(n) && !HasHole(ps, n)
    ensures !Contains(Render(ps), Placeholder(n))
  {
    ReplaceRendered(ps, n, []);
    FillAbsent(ps, map[n := []]);
    ReplaceShrinks(Render(ps), Placeholder(n));
  }

  /** After filling `n` with text without '%', the placeholder's text occurs nowhere. */
  lemma FilledGone(ps: seq<Piece>, m: map<string, string>, n: string)
    requires WellFormed(ps) && forall k :: k in m ==> '%' !in m[k]
    requires ValidName(n) && n in m
    ensures !Contains(Render(Fill(ps, m)), Placeholder(n))
  {
    FillWellFormed(ps, m);
    FilledNoHole(ps, m, n);
    NoHoleNoText(Fill(ps, m), n);
  }

  /** With every placeholder filled by text without '%', no '%' is left at all. */
  lemma {:induction false} FilledHasNoPercent(ps: seq<Piece>, m: map<string, string>)
    requires WellFormed(ps)
    requires forall i :: 0 <= i < |ps| && ps[i].Hole? ==> ps[i].name in m
    requires forall n :: n in m ==> '%' !in m[n]
    ensures '%' !in Render(Fill(ps, m))
    decreases |ps|
  {
    if ps != [] {
      assert forall i :: 1 <= i < |ps| ==> ps[1..][i - 1] == ps[i];
      FilledHasNoPercent(ps[1..], m);
      assert Fill(ps, m)[1..] == Fill(ps[1..], m);
    }
  }
}
