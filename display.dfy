/**
 * The display projection of a folder (getChildrenListToDisplay): which of
 * its children, or which games of its subtree, the game list shows, under
 * the "ShowFolders" setting, the external filter, the set of paths
 * registered in gamelist.xml and the set of files that exist on disk.
 */
module Display {
  import opened Wrappers
  import opened Paths
  import opened FileTree

  /**
   * The "ShowFolders" setting. ALL and any unknown value behave alike here.
   * `Other` stands for a value other than "ALL", "SCRAPED" and "AUTO", as
   * ParseShowFolders reads the setting.
   */
  datatype ShowFolders = All | Scraped | Auto | Other(name: string)

  /** The setting as the catalog compares its string. */
  function ParseShowFolders(setting: string): (mode: ShowFolders)
    ensures mode == All <==> setting == "ALL"
    ensures mode == Scraped <==> setting == "SCRAPED"
    ensures mode == Auto <==> setting == "AUTO"
    ensures mode.Other? ==> mode.name == setting && setting !in {"ALL", "SCRAPED", "AUTO"}
  {
    if setting == "ALL" then All
    else if setting == "SCRAPED" then Scraped
    else if setting == "AUTO" then Auto
    else Other(setting)
  }

  /** Extensions shown unconditionally by the smart filter. */
  const PRIORITY_EXTENSIONS: set<string> := {".m3u", ".chd", ".iso", ".pbp", ".cue", ".ccd", ".img"}

  /** Extensions counted as playable when a folder is collapsed. */
  const PLAYABLE_EXTENSIONS: set<string> := {".cue", ".chd", ".iso", ".pbp"}

  // ---------------------------------------------------------------------
  // The registered-path set

  /** Lexicographic order on strings, the iteration order of a std::set<std::string>. */
  predicate LexLess(a: string, b: string)
  {
    if a == [] then b != []
    else b != [] && (a[0] < b[0] || (a[0] == b[0] && LexLess(a[1..], b[1..])))
  }

  lemma {:induction false} LexLessIrreflexive(a: string)
    ensures !LexLess(a, a)
  {
    if a != [] {
      LexLessIrreflexive(a[1..]);
    }
  }

  /** A sequence listing a set of strings in std::set order. */
  predicate SetOrder(reg: seq<string>)
  {
    forall i, j :: 0 <= i < j < |reg| ==> LexLess(reg[i], reg[j])
  }

  lemma SetOrderDistinct(reg: seq<string>)
    requires SetOrder(reg)
    ensures forall i, j :: 0 <= i < j < |reg| ==> reg[i] != reg[j]
  {
    forall i, j | 0 <= i < j < |reg|
      ensures reg[i] != reg[j]
    {
      LexLessIrreflexive(reg[i]);
    }
  }

  // ---------------------------------------------------------------------
  // shouldShowFile

  /** The cue sheet that would accompany a .bin image: <parent>/<stem>.cue. */
  function CuePath(path: string): string
  {
    Parent(path) + "/" + Stem(path) + ".cue"
  }

  /**
   * The smart filter: priority extensions always show, a .bin is hidden
   * when its cue sheet exists, everything else shows.
   */
  function ShouldShowFile(path: string, onDisk: set<string>): (show: bool)
    ensures !show <==> LowerExtension(path) == ".bin" && CuePath(path) in onDisk
  {
    var ext := LowerExtension(path);
    if ext in PRIORITY_EXTENSIONS then true
    else if ext == ".bin" then CuePath(path) !in onDisk
    else true
  }

  // ---------------------------------------------------------------------
  // SCRAPED: the registered games, one search per registered path

  /** What one registered path contributes: the game found for it, when it passes the filter. */
  function RegisteredOne(n: Node, idx: FilterIndex, p: string): seq<Node>
  {
    match FindFileByPath(n, p)
    case Some(f) => if Passes(idx, f.file) then [f] else []
    case None => []
  }

  /** The registered games, in the order of the registered paths. */
  function Registered(n: Node, idx: FilterIndex, reg: seq<string>): seq<Node>
  {
    if reg == [] then []
    else Registered(n, idx, reg[..|reg| - 1]) + RegisteredOne(n, idx, reg[|reg| - 1])
  }

  /** The paths that AUTO records as already added while collecting the registered games. */
  function AddedPaths(n: Node, idx: FilterIndex, reg: seq<string>): set<string>
  {
    if reg == [] then {}
    else AddedPaths(n, idx, reg[..|reg| - 1]) + (if RegisteredOne(n, idx, reg[|reg| - 1]) != [] then {reg[|reg| - 1]} else {})
  }

  // ---------------------------------------------------------------------
  // AUTO: the collapse heuristic for unregistered children

  predicate HasExt(g: Node, ext: string)
  {
    LowerExtension(g.file.path) == ext
  }

  /** The index of the last of `gs` whose lower-cased extension is `ext`, or -1. */
  function LastIndexWithExt(gs: seq<Node>, ext: string): (i: int)
    ensures -1 <= i < |gs|
    ensures i >= 0 ==> HasExt(gs[i], ext) && forall j :: i < j < |gs| ==> !HasExt(gs[j], ext)
    ensures i == -1 <==> forall j :: 0 <= j < |gs| ==> !HasExt(gs[j], ext)
  {
    if gs == [] then -1
    else if HasExt(gs[|gs| - 1], ext) then |gs| - 1
    else
      var i := LastIndexWithExt(gs[..|gs| - 1], ext);
      assert forall j :: 0 <= j < |gs| - 1 ==> gs[..|gs| - 1][j] == gs[j];
      i
  }

  /** The last of `gs` (in order) whose lower-cased extension is `ext`. */
  function LastWithExt(gs: seq<Node>, ext: string): (r: Option<Node>)
    ensures r.None? <==> forall j :: 0 <= j < |gs| ==> !HasExt(gs[j], ext)
    ensures r.Some? ==> r.value in gs && HasExt(r.value, ext)
  {
    var i := LastIndexWithExt(gs, ext);
    if i < 0 then None else Some(gs[i])
  }

  predicate Playable(g: Node)
  {
    LowerExtension(g.file.path) in PLAYABLE_EXTENSIONS
  }

  /** A non-empty sequence is its initial part and its last element. */
  lemma InitLast<T>(s: seq<T>)
    requires s != []
    ensures forall x :: x in s <==> x in s[..|s| - 1] || x == s[|s| - 1]
  {
    assert s == s[..|s| - 1] + [s[|s| - 1]];
  }

  /** How many of `gs` are playable (.cue, .chd, .iso or .pbp). */
  function CountPlayable(gs: seq<Node>): (r: nat)
    ensures r <= |gs|
    ensures r == 0 <==> forall x :: x in gs ==> !Playable(x)
  {
    if gs == [] then 0
    else
      var c := CountPlayable(gs[..|gs| - 1]);
      InitLast(gs);
      c + (if Playable(gs[|gs| - 1]) then 1 else 0)
  }

  /** Whether any of `gs` has a path in `added`. */
  predicate HasAdded(gs: seq<Node>, added: set<string>)
  {
    exists i :: 0 <= i < |gs| && gs[i].file.path in added
  }

  /**
   * What AUTO shows for an unregistered folder child: at most one node,
   * either the folder itself or a game of its subtree that passes the
   * filter, and that only when no game of the subtree was added.
   */
  function AutoFolder(c: Node, idx: FilterIndex, added: set<string>): (r: seq<Node>)
    ensures |r| <= 1
    ensures r != [] && r != [c] ==>
              var games := FilesRecursive(c, GAME_MASK, false, idx);
              r[0] in games && Passes(idx, r[0].file) && !HasAdded(games, added)
  {
    var games := FilesRecursive(c, GAME_MASK, false, idx);
    if HasAdded(games, added) then []
    else
      match LastWithExt(games, ".m3u")
      case Some(m) => if Passes(idx, m.file) then [m] else []
      case None =>
        var cue := LastWithExt(games, ".cue");
        if CountPlayable(games) == 1 && cue.Some? then
          (if Passes(idx, cue.value.file) then [cue.value] else [])
        else [c]
  }

  /** What AUTO shows for one child of the folder, after the registered games: at most one node, which passes the filter. */
  function AutoChild(c: Node, idx: FilterIndex, added: set<string>, onDisk: set<string>): (r: seq<Node>)
    ensures |r| <= 1
    ensures r != [] ==> Passes(idx, r[0].file)
  {
    if idx.isFiltered && !idx.showFile(c.file) then []
    else if c.file.kind == Folder then AutoFolder(c, idx, added)
    else if c.file.path in added then []
    else if ShouldShowFile(c.file.path, onDisk) && Passes(idx, c.file) then [c]
    else []
  }

  function AutoChildren(cs: seq<Node>, idx: FilterIndex, added: set<string>, onDisk: set<string>): seq<Node>
  {
    if cs == [] then []
    else AutoChildren(cs[..|cs| - 1], idx, added, onDisk) + AutoChild(cs[|cs| - 1], idx, added, onDisk)
  }

  // ---------------------------------------------------------------------
  // Other modes: the children that pass the filter

  function FilterChildren(cs: seq<Node>, idx: FilterIndex): (r: seq<Node>)
    ensures |r| <= |cs|
    ensures forall x :: x in r <==> x in cs && Passes(idx, x.file)
  {
    if cs == [] then []
    else
      var r := FilterChildren(cs[..|cs| - 1], idx);
      InitLast(cs);
      r + (if Passes(idx, cs[|cs| - 1].file) then [cs[|cs| - 1]] else [])
  }

  // ---------------------------------------------------------------------
  // getChildrenListToDisplay

  /** The list a folder shows, per branch of the "ShowFolders" setting. */
  function DisplayChildren(n: Node, mode: ShowFolders, idx: FilterIndex, reg: seq<string>, onDisk: set<string>): seq<Node>
  {
    if !idx.isFiltered && mode != Scraped && mode != Auto then n.children
    else if mode == Scraped then Registered(n, idx, reg)
    else if mode == Auto then Registered(n, idx, reg) + AutoChildren(n.children, idx, AddedPaths(n, idx, reg), onDisk)
    else FilterChildren(n.children, idx)
  }

  lemma LastWithExtSnoc(gs: seq<Node>, g: Node, ext: string)
    ensures LastWithExt(gs + [g], ext) == if HasExt(g, ext) then Some(g) else LastWithExt(gs, ext)
  {
    assert (gs + [g])[..|gs|] == gs;
  }

  lemma CountPlayableSnoc(gs: seq<Node>, g: Node)
    ensures CountPlayable(gs + [g]) == CountPlayable(gs) + if Playable(g) then 1 else 0
  {
    assert (gs + [g])[..|gs|] == gs;
  }

  lemma ScanPrefix(games: seq<Node>, i: nat)
    requires i < |games|
    ensures LastWithExt(games[..i + 1], ".m3u") == if HasExt(games[i], ".m3u") then Some(games[i]) else LastWithExt(games[..i], ".m3u")
    ensures LastWithExt(games[..i + 1], ".cue") == if HasExt(games[i], ".cue") then Some(games[i]) else LastWithExt(games[..i], ".cue")
    ensures CountPlayable(games[..i + 1]) == CountPlayable(games[..i]) + if Playable(games[i]) then 1 else 0
  {
    assert games[..i + 1] == games[..i] + [games[i]];
    LastWithExtSnoc(games[..i], games[i], ".m3u");
    LastWithExtSnoc(games[..i], games[i], ".cue");
    CountPlayableSnoc(games[..i], games[i]);
  }

  /** The scan's step for one game: a .m3u or a .cue is remembered, playable files are counted. */
  method ScanOne(g: Node, m3u: Option<Node>, cue: Option<Node>, playable: nat)
    returns (m3u': Option<Node>, cue': Option<Node>, playable': nat)
    ensures m3u' == if HasExt(g, ".m3u") then Some(g) else m3u
    ensures cue' == if HasExt(g, ".cue") then Some(g) else cue
    ensures playable' == playable + if Playable(g) then 1 else 0
  {
    m3u', cue', playable' := m3u, cue, playable;
    var ext := LowerExtension(g.file.path);
    if ext == ".m3u" {
      m3u' := Some(g);
    } else if ext == ".cue" {
      cue' := Some(g);
      playable' := playable' + 1;
    } else if ext == ".chd" || ext == ".iso" || ext == ".pbp" {
      playable' := playable' + 1;
    }
  }

  /** The scan of an unregistered folder's games: last .m3u, last .cue and the playable count. */
  method ScanFolder(games: seq<Node>) returns (m3u: Option<Node>, cue: Option<Node>, playable: nat)
    ensures m3u == LastWithExt(games, ".m3u")
    ensures cue == LastWithExt(games, ".cue")
    ensures playable == CountPlayable(games)
  {
    m3u, cue, playable := None, None, 0;
    var i := 0;
    while i < |games|
      invariant 0 <= i <= |games|
      invariant m3u == LastWithExt(games[..i], ".m3u")
      invariant cue == LastWithExt(games[..i], ".cue")
      invariant playable == CountPlayable(games[..i])
    {
      ScanPrefix(games, i);
      m3u, cue, playable := ScanOne(games[i], m3u, cue, playable);
      i := i + 1;
    }
    assert games[..i] == games;
  }

  /** The search for a registered game among a folder's games, stopping at the first. */
  method HasRegisteredGame(games: seq<Node>, added: set<string>) returns (found: bool)
    ensures found <==> HasAdded(games, added)
  {
    found := false;
    var i := 0;
    while i < |games|
      invariant 0 <= i <= |games|
      invariant forall j :: 0 <= j < i ==> games[j].file.path !in added
    {
      if games[i].file.path in added {
        found := true;
        break;
      }
      i := i + 1;
    }
  }

  /** One pass of the AUTO loop over the folder's own children. */
  method AutoStep(c: Node, idx: FilterIndex, added: set<string>, onDisk: set<string>) returns (emit: seq<Node>)
    ensures emit == AutoChild(c, idx, added, onDisk)
  {
    if idx.isFiltered && !idx.showFile(c.file) {
      return [];
    }
    if c.file.kind == Folder {
      var games := FilesRecursive(c, GAME_MASK, false, idx);
      var registered := HasRegisteredGame(games, added);
      if registered {
        return [];
      }
      var m3u, cue, playable := ScanFolder(games);
      if m3u.Some? {
        emit := if Passes(idx, m3u.value.file) then [m3u.value] else [];
        return;
      }
      if playable == 1 && cue.Some? {
        emit := if Passes(idx, cue.value.file) then [cue.value] else [];
        return;
      }
      return [c];
    }
    if c.file.path in added {
      return [];
    }
    emit := if ShouldShowFile(c.file.path, onDisk) && Passes(idx, c.file) then [c] else [];
  }

  /** The first loop of SCRAPED and AUTO: one search per registered path, in set order. */
  method CollectRegistered(n: Node, idx: FilterIndex, reg: seq<string>) returns (r: seq<Node>, added: set<string>)
    ensures r == Registered(n, idx, reg)
    ensures added == AddedPaths(n, idx, reg)
  {
    r, added := [], {};
    var i := 0;
    while i < |reg|
      invariant 0 <= i <= |reg|
      invariant r == Registered(n, idx, reg[..i])
      invariant added == AddedPaths(n, idx, reg[..i])
    {
      var p := reg[i];
      assert reg[..i + 1][..i] == reg[..i];
      var file := FindFileByPath(n, p);
      if file.Some? && Passes(idx, file.value.file) {
        r := r + [file.value];
        added := added + {p};
      }
      i := i + 1;
    }
    assert reg[..i] == reg;
  }

  /** The second loop of AUTO: each child of the folder, collapsed or skipped. */
  method CollapseChildren(cs: seq<Node>, idx: FilterIndex, added: set<string>, onDisk: set<string>) returns (r: seq<Node>)
    ensures r == AutoChildren(cs, idx, added, onDisk)
  {
    r := [];
    var j := 0;
    while j < |cs|
      invariant 0 <= j <= |cs|
      invariant r == AutoChildren(cs[..j], idx, added, onDisk)
    {
      var emit := AutoStep(cs[j], idx, added, onDisk);
      assert cs[..j + 1][..j] == cs[..j];
      r := r + emit;
      j := j + 1;
    }
    assert cs[..j] == cs;
  }

  lemma FilterPrefix(cs: seq<Node>, k: nat, idx: FilterIndex)
    requires k < |cs|
    ensures FilterChildren(cs[..k + 1], idx) == FilterChildren(cs[..k], idx) + if Passes(idx, cs[k].file) then [cs[k]] else []
  {
    assert cs[..k + 1][..k] == cs[..k];
  }

  /** The loop of the other modes: the children that pass the filter. */
  method KeepShown(cs: seq<Node>, idx: FilterIndex) returns (r: seq<Node>)
    ensures r == FilterChildren(cs, idx)
  {
    r := [];
    var k := 0;
    while k < |cs|
      invariant 0 <= k <= |cs|
      invariant r == FilterChildren(cs[..k], idx)
    {
      var c := cs[k];
      FilterPrefix(cs, k, idx);
      if !idx.isFiltered || idx.showFile(c.file) {
        r := r + [c];
      }
      k := k + 1;
    }
    assert cs[..k] == cs;
  }

  /**
   * getChildrenListToDisplay: the registered games first (SCRAPED and
   * AUTO), then the collapsed children (AUTO), or the filtered children,
   * or the raw children when nothing filters.
   */
  method ChildrenListToDisplay(n: Node, mode: ShowFolders, idx: FilterIndex, reg: seq<string>, onDisk: set<string>)
    returns (r: seq<Node>)
    ensures r == DisplayChildren(n, mode, idx, reg, onDisk)
  {
    if !idx.isFiltered && mode != Scraped && mode != Auto {
      return n.children;
    }
    if mode == Scraped || mode == Auto {
      var added;
      r, added := CollectRegistered(n, idx, reg);
      if mode == Auto {
        var rest := CollapseChildren(n.children, idx, added, onDisk);
        r := r + rest;
      }
      return;
    }
    r := KeepShown(n.children, idx);
  }

  // ---------------------------------------------------------------------
  // Properties of the projection

  /** `ix` lists, in increasing order, the positions of `cs` that `r` holds. */
  ghost predicate Picks(r: seq<Node>, cs: seq<Node>, ix: seq<int>)
  {
    && |ix| == |r|
    && (forall k :: 0 <= k < |ix| ==> 0 <= ix[k] < |cs| && r[k] == cs[ix[k]])
    && (forall k, l :: 0 <= k < l < |ix| ==> ix[k] < ix[l])
  }

  /** The positions of the children that pass the filter, in increasing order. */
  ghost function PassingPositions(cs: seq<Node>, idx: FilterIndex): seq<int>
  {
    if cs == [] then []
    else PassingPositions(cs[..|cs| - 1], idx) + (if Passes(idx, cs[|cs| - 1].file) then [|cs| - 1] else [])
  }

  /**
   * The filtered children are the children that pass, in their order: an
   * increasing choice of positions that holds exactly the passing ones.
   */
  lemma {:induction false} FilterChildrenPicks(cs: seq<Node>, idx: FilterIndex)
    ensures Picks(FilterChildren(cs, idx), cs, PassingPositions(cs, idx))
    ensures forall i :: 0 <= i < |cs| ==> (i in PassingPositions(cs, idx) <==> Passes(idx, cs[i].file))
  {
    if cs != [] {
      FilterChildrenPicks(cs[..|cs| - 1], idx);
      FilterChildrenStep(cs, idx);
    }
  }

  /** The inductive step of FilterChildrenPicks, from all children but the last to all of them. */
  lemma FilterChildrenStep(cs: seq<Node>, idx: FilterIndex)
    requires cs != []
    requires var pre := cs[..|cs| - 1];
      && Picks(FilterChildren(pre, idx), pre, PassingPositions(pre, idx))
      && forall i :: 0 <= i < |pre| ==> (i in PassingPositions(pre, idx) <==> Passes(idx, pre[i].file))
    ensures Picks(FilterChildren(cs, idx), cs, PassingPositions(cs, idx))
    ensures forall i :: 0 <= i < |cs| ==> (i in PassingPositions(cs, idx) <==> Passes(idx, cs[i].file))
  {
    var pre := cs[..|cs| - 1];
    var x := cs[|cs| - 1];
    LastSplit(cs, idx);
    PassingSnoc(FilterChildren(pre, idx), pre, PassingPositions(pre, idx), x, idx,
                FilterChildren(cs, idx), cs, PassingPositions(cs, idx));
  }

  /** All children are all but the last, then the last; both projections follow. */
  lemma LastSplit(cs: seq<Node>, idx: FilterIndex)
    requires cs != []
    ensures var pre := cs[..|cs| - 1];
      var x := cs[|cs| - 1];
      var keep := Passes(idx, x.file);
      && cs == pre + [x]
      && FilterChildren(cs, idx) == FilterChildren(pre, idx) + (if keep then [x] else [])
      && PassingPositions(cs, idx) == if keep then PassingPositions(pre, idx) + [|pre|] else PassingPositions(pre, idx)
  {
    assert cs == cs[..|cs| - 1] + [cs[|cs| - 1]];
  }

  /** One more child: it joins the filtered list, and its position the picked ones, when it passes. */
  lemma PassingSnoc(r: seq<Node>, cs: seq<Node>, ix: seq<int>, x: Node, idx: FilterIndex,
                    r': seq<Node>, cs': seq<Node>, ix': seq<int>)
    requires Picks(r, cs, ix)
    requires forall i :: 0 <= i < |cs| ==> (i in ix <==> Passes(idx, cs[i].file))
    requires cs' == cs + [x]
    requires r' == r + (if Passes(idx, x.file) then [x] else [])
    requires ix' == if Passes(idx, x.file) then ix + [|cs|] else ix
    ensures Picks(r', cs', ix')
    ensures forall i :: 0 <= i < |cs'| ==> (i in ix' <==> Passes(idx, cs'[i].file))
  {
    var keep := Passes(idx, x.file);
    PicksExtend(r, cs, ix, x, keep);
    forall i | 0 <= i < |cs'|
      ensures i in ix' <==> Passes(idx, cs'[i].file)
    {
      if i < |cs| {
        assert cs'[i] == cs[i];
      }
    }
  }

  /** Extending the list by one element, and the picked list by it when it is kept. */
  lemma PicksExtend(r: seq<Node>, cs: seq<Node>, ix: seq<int>, x: Node, keep: bool)
    requires Picks(r, cs, ix)
    ensures Picks(r + (if keep then [x] else []), cs + [x], if keep then ix + [|cs|] else ix)
    ensures forall i :: 0 <= i <= |cs| ==>
              (i in (if keep then ix + [|cs|] else ix) <==> (i < |cs| && i in ix) || (keep && i == |cs|))
  {
  }

  /**
   * Outside SCRAPED and AUTO, a folder shows its children that pass the
   * filter, in their order: all of them, as they are, when nothing filters.
   */
  lemma DisplayOtherModes(n: Node, mode: ShowFolders, idx: FilterIndex, reg: seq<string>, onDisk: set<string>)
    requires mode != Scraped && mode != Auto
    ensures var r := DisplayChildren(n, mode, idx, reg, onDisk);
      && (exists ix :: Picks(r, n.children, ix)
            && forall i :: 0 <= i < |n.children| ==> (i in ix <==> Passes(idx, n.children[i].file)))
      && (!idx.isFiltered ==> r == n.children)
  {
    var cs := n.children;
    if idx.isFiltered {
      FilterChildrenPicks(cs, idx);
      var ix := PassingPositions(cs, idx);
      assert DisplayChildren(n, mode, idx, reg, onDisk) == FilterChildren(cs, idx);
      assert Picks(DisplayChildren(n, mode, idx, reg, onDisk), cs, ix)
        && forall i :: 0 <= i < |cs| ==> (i in ix <==> Passes(idx, cs[i].file));
    } else {
      var ix := seq(|cs|, i => i);
      forall i | 0 <= i < |cs|
        ensures i in ix && Passes(idx, cs[i].file)
      {
        assert ix[i] == i;
      }
      assert DisplayChildren(n, mode, idx, reg, onDisk) == cs;
      assert Picks(DisplayChildren(n, mode, idx, reg, onDisk), cs, ix)
        && forall i :: 0 <= i < |cs| ==> (i in ix <==> Passes(idx, cs[i].file));
    }
  }

  /**
   * SCRAPED: only games of the folder's subtree, each with a registered
   * path and passing the filter, at most one per registered path; and
   * every registered path whose game is found and passes contributes it.
   */
  lemma {:induction false} RegisteredMembers(n: Node, idx: FilterIndex, reg: seq<string>)
    requires n.file.kind == Folder
    ensures |Registered(n, idx, reg)| <= |reg|
    ensures forall x :: x in Registered(n, idx, reg) ==>
              x.file.kind == Game && x.file.path in reg && Passes(idx, x.file) && x in Descendants(n)
    ensures forall p :: p in reg && RegisteredOne(n, idx, p) != [] ==> RegisteredOne(n, idx, p)[0] in Registered(n, idx, reg)
  {
    if reg != [] {
      var pre := reg[..|reg| - 1];
      var p := reg[|reg| - 1];
      RegisteredMembers(n, idx, pre);
      FindFileByPathSpec(n, p, idx);
      assert forall q :: q in reg <==> q in pre || q == p;
    }
  }

  /** With registered paths in set order, no two registered games share a path. */
  lemma {:induction false} RegisteredDistinct(n: Node, idx: FilterIndex, reg: seq<string>)
    requires n.file.kind == Folder && SetOrder(reg)
    ensures var r := Registered(n, idx, reg);
      forall i, j :: 0 <= i < j < |r| ==> r[i].file.path != r[j].file.path
  {
    if reg != [] {
      var pre := reg[..|reg| - 1];
      var p := reg[|reg| - 1];
      assert SetOrder(pre);
      RegisteredDistinct(n, idx, pre);
      RegisteredMembers(n, idx, pre);
      SetOrderDistinct(reg);
      FindFileByPathSpec(n, p, idx);
      var old_ := Registered(n, idx, pre);
      assert forall i :: 0 <= i < |old_| ==> old_[i] in old_;
      assert p !in pre;
    }
  }

  /** The added set holds exactly the registered paths whose game was emitted. */
  lemma {:induction false} AddedPathsSpec(n: Node, idx: FilterIndex, reg: seq<string>)
    ensures forall p :: p in AddedPaths(n, idx, reg) <==> p in reg && RegisteredOne(n, idx, p) != []
  {
    if reg != [] {
      AddedPathsSpec(n, idx, reg[..|reg| - 1]);
      assert forall q :: q in reg <==> q in reg[..|reg| - 1] || q == reg[|reg| - 1];
    }
  }

  /** The games a folder's scan looks at are games of its subtree. */
  lemma FolderGames(c: Node, idx: FilterIndex)
    ensures forall g :: g in FilesRecursive(c, GAME_MASK, false, idx) ==> g.file.kind == Game && g in Descendants(c)
  {
    FilesRecursiveSpec(c, GAME_MASK, false, idx);
    SelectAllSub(Descendants(c), GAME_MASK, false, idx);
  }

  /** ... and every game of the subtree is among them. */
  lemma FolderGamesComplete(c: Node, idx: FilterIndex)
    ensures forall g :: g in Descendants(c) && g.file.kind == Game ==> g in FilesRecursive(c, GAME_MASK, false, idx)
  {
    FilesRecursiveSpec(c, GAME_MASK, false, idx);
    SelectAllComplete(Descendants(c), GAME_MASK, false, idx);
  }

  /**
   * A folder is skipped exactly when one of its subtree's games was
   * already added as registered.
   */
  lemma SkippedFolder(c: Node, idx: FilterIndex, added: set<string>)
    ensures HasAdded(FilesRecursive(c, GAME_MASK, false, idx), added) <==>
            exists g :: g in Descendants(c) && g.file.kind == Game && g.file.path in added
  {
    var games := FilesRecursive(c, GAME_MASK, false, idx);
    FolderGames(c, idx);
    FolderGamesComplete(c, idx);
    if g :| g in Descendants(c) && g.file.kind == Game && g.file.path in added {
      var i :| 0 <= i < |games| && games[i] == g;
    }
  }

  /**
   * The lone cue: when exactly one file is playable and a .cue is
   * present, that .cue is the only playable file.
   */
  lemma {:induction false} LoneCue(gs: seq<Node>)
    requires CountPlayable(gs) == 1 && LastWithExt(gs, ".cue").Some?
    ensures forall x :: x in gs && Playable(x) ==> x == LastWithExt(gs, ".cue").value
  {
    var pre := gs[..|gs| - 1];
    var g := gs[|gs| - 1];
    CueIsPlayable(g);
    if Playable(g) {
      LoneCueAtEnd(gs);
    } else {
      LoneCue(pre);
      InitLast(gs);
    }
  }

  lemma CueIsPlayable(g: Node)
    ensures HasExt(g, ".cue") ==> Playable(g)
  {
  }

  /** The lone playable file is the last one: nothing before it is playable, so it is the .cue. */
  lemma LoneCueAtEnd(gs: seq<Node>)
    requires gs != [] && CountPlayable(gs[..|gs| - 1]) == 0 && Playable(gs[|gs| - 1])
    requires LastWithExt(gs, ".cue").Some?
    ensures forall x :: x in gs && Playable(x) ==> x == LastWithExt(gs, ".cue").value
  {
    var pre := gs[..|gs| - 1];
    var g := gs[|gs| - 1];
    if !HasExt(g, ".cue") {
      var k := LastWithExt(pre, ".cue").value;
      CueIsPlayable(k);
      assert false;
    }
    InitLast(gs);
  }

  /** The last position with an extension is the one LastWithExt picks. */
  lemma LastIsUnique(gs: seq<Node>, ext: string, i: nat)
    requires i < |gs| && HasExt(gs[i], ext) && forall j :: i < j < |gs| ==> !HasExt(gs[j], ext)
    ensures LastWithExt(gs, ext) == Some(gs[i])
  {
  }

  /** No game of the subtree of `c` has a path in `added`. */
  predicate NoneAdded(c: Node, added: set<string>)
  {
    forall g :: g in Descendants(c) && g.file.kind == Game ==> g.file.path !in added
  }

  /*
   * What AUTO shows for a folder child, case by case over the games of its
   * subtree in getFilesRecursive order. A folder the filter hides shows
   * nothing (AutoChild's first test).
   */

  /** A folder one of whose games was already added shows nothing. */
  lemma AutoFolderSkipped(c: Node, idx: FilterIndex, added: set<string>)
    requires !NoneAdded(c, added)
    ensures AutoFolder(c, idx, added) == []
  {
    SkippedFolder(c, idx, added);
  }

  /** Otherwise, when the subtree holds an .m3u, the last one shows, or nothing when the filter hides it. */
  lemma AutoFolderM3u(c: Node, idx: FilterIndex, added: set<string>, i: nat)
    requires NoneAdded(c, added)
    requires var games := FilesRecursive(c, GAME_MASK, false, idx);
      i < |games| && HasExt(games[i], ".m3u") && forall j :: i < j < |games| ==> !HasExt(games[j], ".m3u")
    ensures var games := FilesRecursive(c, GAME_MASK, false, idx);
      AutoFolder(c, idx, added) == if Passes(idx, games[i].file) then [games[i]] else []
  {
    SkippedFolder(c, idx, added);
    LastIsUnique(FilesRecursive(c, GAME_MASK, false, idx), ".m3u", i);
  }

  /**
   * Otherwise, without an .m3u, when exactly one game is playable and it
   * is a .cue, that .cue shows, or nothing when the filter hides it.
   */
  lemma AutoFolderLoneCue(c: Node, idx: FilterIndex, added: set<string>, i: nat)
    requires NoneAdded(c, added)
    requires var games := FilesRecursive(c, GAME_MASK, false, idx);
      && (forall j :: 0 <= j < |games| ==> !HasExt(games[j], ".m3u"))
      && CountPlayable(games) == 1 && i < |games| && HasExt(games[i], ".cue")
    ensures var games := FilesRecursive(c, GAME_MASK, false, idx);
      AutoFolder(c, idx, added) == if Passes(idx, games[i].file) then [games[i]] else []
  {
    var games := FilesRecursive(c, GAME_MASK, false, idx);
    SkippedFolder(c, idx, added);
    CueIsPlayable(games[i]);
    LoneCue(games);
  }

  /** In every other case the folder itself shows. */
  lemma AutoFolderItself(c: Node, idx: FilterIndex, added: set<string>)
    requires NoneAdded(c, added)
    requires var games := FilesRecursive(c, GAME_MASK, false, idx);
      && (forall j :: 0 <= j < |games| ==> !HasExt(games[j], ".m3u"))
      && (CountPlayable(games) != 1 || forall j :: 0 <= j < |games| ==> !HasExt(games[j], ".cue"))
    ensures AutoFolder(c, idx, added) == [c]
  {
    SkippedFolder(c, idx, added);
  }

  /** The folder `c` holds exactly the games `gs`, none with children of its own. */
  predicate FlatFolder(c: Node, gs: seq<Node>)
  {
    c.file.kind == Folder && c.children == gs
    && forall i :: 0 <= i < |gs| ==> gs[i].file.kind == Game && gs[i].children == []
  }

  lemma FlatGames(c: Node, gs: seq<Node>, idx: FilterIndex)
    requires FlatFolder(c, gs)
    ensures FilesRecursive(c, GAME_MASK, false, idx) == gs
  {
    FlatGamesIn(gs, idx);
  }

  lemma {:induction false} FlatGamesIn(gs: seq<Node>, idx: FilterIndex)
    requires forall i :: 0 <= i < |gs| ==> gs[i].file.kind == Game && gs[i].children == []
    ensures FilesIn(gs, GAME_MASK, false, idx) == gs
    decreases |gs|
  {
    if gs != [] {
      FlatGamesIn(gs[1..], idx);
      assert gs == [gs[0]] + gs[1..];
    }
  }

  /** A folder holding a .cue, a .bin and an .m3u, none registered and nothing filtered, shows the .m3u alone. */
  lemma M3uCollapse(c: Node, cue: Node, bin: Node, m3u: Node, idx: FilterIndex, onDisk: set<string>)
    requires FlatFolder(c, [cue, bin, m3u]) && !idx.isFiltered
    requires HasExt(cue, ".cue") && HasExt(bin, ".bin") && HasExt(m3u, ".m3u")
    ensures AutoChild(c, idx, {}, onDisk) == [m3u]
  {
    FlatGames(c, [cue, bin, m3u], idx);
    AutoFolderM3u(c, idx, {}, 2);
  }

  /** A folder holding a .cue and its .bin, none registered and nothing filtered, shows the .cue alone. */
  lemma CueCollapse(c: Node, cue: Node, bin: Node, idx: FilterIndex, onDisk: set<string>)
    requires FlatFolder(c, [cue, bin]) && !idx.isFiltered
    requires HasExt(cue, ".cue") && HasExt(bin, ".bin")
    ensures AutoChild(c, idx, {}, onDisk) == [cue]
  {
    var gs := [cue, bin];
    FlatGames(c, gs, idx);
    assert gs[..1] == [cue] && gs[..1][..0] == [];
    assert CountPlayable(gs) == 1;
    AutoFolderLoneCue(c, idx, {}, 0);
  }

  /** A folder holding two .cue sheets, none registered and nothing filtered, shows the folder itself. */
  lemma TwoCuesKeepFolder(c: Node, cue1: Node, cue2: Node, idx: FilterIndex, onDisk: set<string>)
    requires FlatFolder(c, [cue1, cue2]) && !idx.isFiltered
    requires HasExt(cue1, ".cue") && HasExt(cue2, ".cue")
    ensures AutoChild(c, idx, {}, onDisk) == [c]
  {
    var gs := [cue1, cue2];
    FlatGames(c, gs, idx);
    assert gs[..1] == [cue1] && gs[..1][..0] == [];
    assert CountPlayable(gs) == 2;
    AutoFolderItself(c, idx, {});
  }

  /**
   * What AUTO shows for a game child: nothing when it was added as
   * registered; otherwise the game itself, unless it is a .bin whose cue
   * sheet exists (or the filter hides it).
   */
  lemma AutoGameShape(c: Node, idx: FilterIndex, added: set<string>, onDisk: set<string>)
    requires c.file.kind == Game
    ensures var r := AutoChild(c, idx, added, onDisk);
      && (c.file.path in added ==> r == [])
      && (c.file.path !in added && Passes(idx, c.file) ==>
            r == if LowerExtension(c.file.path) == ".bin" && CuePath(c.file.path) in onDisk then [] else [c])
      && (!Passes(idx, c.file) ==> r == [])
  {
  }

  /** AUTO never shows again a game it already showed as registered. */
  lemma {:induction false} AutoNeverRepeats(cs: seq<Node>, idx: FilterIndex, added: set<string>, onDisk: set<string>)
    ensures forall x :: x in AutoChildren(cs, idx, added, onDisk) && x.file.kind == Game ==> x.file.path !in added
  {
    if cs != [] {
      var c := cs[|cs| - 1];
      AutoNeverRepeats(cs[..|cs| - 1], idx, added, onDisk);
      if c.file.kind == Folder {
        FolderGames(c, idx);
      }
    }
  }

  /** Everything AUTO shows after the registered games passes the filter and comes from the children's subtrees. */
  lemma {:induction false} AutoChildrenSound(n: Node, cs: seq<Node>, idx: FilterIndex, added: set<string>, onDisk: set<string>)
    requires forall c :: c in cs ==> c in n.children
    ensures forall x :: x in AutoChildren(cs, idx, added, onDisk) ==> Passes(idx, x.file) && x in Descendants(n)
  {
    if cs != [] {
      var c := cs[|cs| - 1];
      AutoChildrenSound(n, cs[..|cs| - 1], idx, added, onDisk);
      ChildDescendants(n.children, c);
      if c.file.kind == Folder {
        FolderGames(c, idx);
      }
    }
  }

  /** A child and everything below it are descendants of the folder. */
  lemma {:induction false} ChildDescendants(cs: seq<Node>, c: Node)
    requires c in cs
    ensures c in DescendantsIn(cs)
    ensures forall y :: y in DescendantsIn(c.children) ==> y in DescendantsIn(cs)
    decreases cs
  {
    if cs[0] != c {
      ChildDescendants(cs[1..], c);
    }
  }

  /**
   * Whatever the mode, every node shown passes the filter, and for a
   * folder every node shown is one of its descendants.
   */
  lemma DisplaySound(n: Node, mode: ShowFolders, idx: FilterIndex, reg: seq<string>, onDisk: set<string>)
    requires n.file.kind == Folder
    ensures forall x :: x in DisplayChildren(n, mode, idx, reg, onDisk) ==> Passes(idx, x.file) && x in Descendants(n)
  {
    RegisteredMembers(n, idx, reg);
    AutoChildrenSound(n, n.children, idx, AddedPaths(n, idx, reg), onDisk);
    forall c | c in n.children
      ensures c in Descendants(n)
    {
      ChildDescendants(n.children, c);
    }
  }
}
