/**
 * The game-catalog tree as a value: every node is a folder or a game with a
 * path, a metadata record and an ordered list of children. The tree walks
 * of the catalog (getFilesRecursive, the path search used by the display
 * projection, the recursive sort) are functions of this value.
 */
module FileTree {
  import opened Wrappers
  import opened Paths
  import opened MetaData
  import opened Sorting

  datatype FileType = Game | Folder

  /** The type bits a type mask is made of: GAME = 1, FOLDER = 2. */
  const GAME_MASK: bv32 := 1
  const FOLDER_MASK: bv32 := 2

  function TypeBit(t: FileType): bv32
  {
    match t
    case Game => GAME_MASK
    case Folder => FOLDER_MASK
  }

  predicate MatchesMask(t: FileType, mask: bv32)
  {
    TypeBit(t) & mask != 0
  }

  /** What a node is, apart from its children. `alias` marks a collection alias. */
  datatype File = File(kind: FileType, path: string, alias: bool, metadata: MetaDataList)

  datatype Node = Node(file: File, children: seq<Node>)

  /**
   * The join key under which a folder indexes a child: the file name, or
   * the full path for a collection alias (same-named games of different
   * systems may sit in one collection).
   */
  function JoinKey(path: string, alias: bool): (k: string)
    ensures !alias ==> '/' !in k
    ensures alias ==> k == path
  {
    if alias then path else FileName(path)
  }

  /** The external filter: whether a filter is active, and which files it shows. */
  datatype FilterIndex = FilterIndex(isFiltered: bool, showFile: File -> bool)

  predicate Passes(idx: FilterIndex, f: File)
  {
    !idx.isFiltered || idx.showFile(f)
  }

  // ---------------------------------------------------------------------
  // getFilesRecursive

  predicate Selected(n: Node, mask: bv32, displayedOnly: bool, idx: FilterIndex)
  {
    MatchesMask(n.file.kind, mask) && (!displayedOnly || Passes(idx, n.file))
  }

  /** The files collected from a list of siblings, each before its own subtree. */
  function FilesIn(cs: seq<Node>, mask: bv32, displayedOnly: bool, idx: FilterIndex): seq<Node>
    decreases cs
  {
    if cs == [] then []
    else
      var c := cs[0];
      (if Selected(c, mask, displayedOnly, idx) then [c] else [])
      + (if |c.children| > 0 then FilesIn(c.children, mask, displayedOnly, idx) else [])
      + FilesIn(cs[1..], mask, displayedOnly, idx)
  }

  function FilesRecursive(n: Node, mask: bv32, displayedOnly: bool, idx: FilterIndex): seq<Node>
  {
    FilesIn(n.children, mask, displayedOnly, idx)
  }

  /** Reference definition: all proper descendants of a list of siblings, in pre-order. */
  function DescendantsIn(cs: seq<Node>): seq<Node>
    decreases cs
  {
    if cs == [] then [] else [cs[0]] + DescendantsIn(cs[0].children) + DescendantsIn(cs[1..])
  }

  function Descendants(n: Node): seq<Node>
  {
    DescendantsIn(n.children)
  }

  /** The elements of `s` that a call with these arguments keeps, in order. */
  function SelectAll(s: seq<Node>, mask: bv32, displayedOnly: bool, idx: FilterIndex): seq<Node>
  {
    if s == [] then []
    else (if Selected(s[0], mask, displayedOnly, idx) then [s[0]] else []) + SelectAll(s[1..], mask, displayedOnly, idx)
  }

  function Size(n: Node): nat
  {
    1 + SizeIn(n.children)
  }

  function SizeIn(cs: seq<Node>): nat
    decreases cs
  {
    if cs == [] then 0 else Size(cs[0]) + SizeIn(cs[1..])
  }

  lemma {:induction false} MemberSmaller(cs: seq<Node>, x: Node)
    requires x in cs
    ensures Size(x) <= SizeIn(cs)
    decreases cs
  {
    if cs[0] != x {
      MemberSmaller(cs[1..], x);
    }
  }

  lemma ChildrenSmaller(n: Node)
    ensures forall x :: x in n.children ==> Size(x) < Size(n)
  {
    forall x | x in n.children
      ensures Size(x) < Size(n)
    {
      MemberSmaller(n.children, x);
    }
  }

  lemma {:induction false} SelectAllAppend(a: seq<Node>, b: seq<Node>, mask: bv32, displayedOnly: bool, idx: FilterIndex)
    ensures SelectAll(a + b, mask, displayedOnly, idx) == SelectAll(a, mask, displayedOnly, idx) + SelectAll(b, mask, displayedOnly, idx)
  {
    if a == [] {
      assert a + b == b;
    } else {
      assert (a + b)[0] == a[0] && (a + b)[1..] == a[1..] + b;
      SelectAllAppend(a[1..], b, mask, displayedOnly, idx);
    }
  }

  /**
   * getFilesRecursive is the pre-order list of descendants, restricted to
   * the requested types and, when asked, to the files the filter shows.
   */
  lemma {:induction false} FilesInIsSelectedDescendants(cs: seq<Node>, mask: bv32, displayedOnly: bool, idx: FilterIndex)
    ensures FilesIn(cs, mask, displayedOnly, idx) == SelectAll(DescendantsIn(cs), mask, displayedOnly, idx)
    decreases cs
  {
    if cs != [] {
      var c := cs[0];
      FilesInIsSelectedDescendants(c.children, mask, displayedOnly, idx);
      FilesInIsSelectedDescendants(cs[1..], mask, displayedOnly, idx);
      var sub := DescendantsIn(c.children);
      var rest := DescendantsIn(cs[1..]);
      SelectAllAppend([c] + sub, rest, mask, displayedOnly, idx);
      SelectAllAppend([c], sub, mask, displayedOnly, idx);
      assert SelectAll([c], mask, displayedOnly, idx)
             == (if Selected(c, mask, displayedOnly, idx) then [c] else []) + SelectAll([], mask, displayedOnly, idx);
      if |c.children| == 0 {
        assert sub == [];
      }
    }
  }

  lemma {:induction false} DescendantsSmaller(cs: seq<Node>)
    ensures forall x :: x in DescendantsIn(cs) ==> Size(x) <= SizeIn(cs)
    decreases cs
  {
    if cs != [] {
      DescendantsSmaller(cs[0].children);
      DescendantsSmaller(cs[1..]);
    }
  }

  /** What getFilesRecursive returns: matching descendants only, never the receiver. */
  lemma FilesRecursiveSpec(n: Node, mask: bv32, displayedOnly: bool, idx: FilterIndex)
    ensures FilesRecursive(n, mask, displayedOnly, idx) == SelectAll(Descendants(n), mask, displayedOnly, idx)
    ensures n !in FilesRecursive(n, mask, displayedOnly, idx)
    ensures !displayedOnly ==> FilesRecursive(n, mask, displayedOnly, idx) == FilesRecursive(n, mask, false, FilterIndex(false, idx.showFile))
  {
    FilesInIsSelectedDescendants(n.children, mask, displayedOnly, idx);
    FilesInIsSelectedDescendants(n.children, mask, false, FilterIndex(false, idx.showFile));
    SelectAllSub(Descendants(n), mask, displayedOnly, idx);
    DescendantsSmaller(n.children);
    if !displayedOnly {
      SelectAllIgnoresFilter(Descendants(n), mask, idx, FilterIndex(false, idx.showFile));
    }
  }

  lemma {:induction false} SelectAllSub(s: seq<Node>, mask: bv32, displayedOnly: bool, idx: FilterIndex)
    ensures forall x :: x in SelectAll(s, mask, displayedOnly, idx) ==> x in s && Selected(x, mask, displayedOnly, idx)
  {
    if s != [] {
      SelectAllSub(s[1..], mask, displayedOnly, idx);
    }
  }

  lemma {:induction false} SelectAllIgnoresFilter(s: seq<Node>, mask: bv32, idx: FilterIndex, idx': FilterIndex)
    ensures SelectAll(s, mask, false, idx) == SelectAll(s, mask, false, idx')
  {
    if s != [] {
      SelectAllIgnoresFilter(s[1..], mask, idx, idx');
    }
  }

  // ---------------------------------------------------------------------
  // The path search of the display projection (findFileByPath)

  /** The first game in pre-order, among siblings and their subtrees, whose path is `path`. */
  function FindIn(cs: seq<Node>, path: string): Option<Node>
    decreases cs
  {
    if cs == [] then None
    else if cs[0].file.kind == Game && cs[0].file.path == path then Some(cs[0])
    else
      match FindIn(cs[0].children, path)
      case Some(f) => Some(f)
      case None => FindIn(cs[1..], path)
  }

  /** The search starts at the receiver itself, then walks its children. */
  function FindFileByPath(n: Node, path: string): Option<Node>
  {
    if n.file.kind == Game && n.file.path == path then Some(n) else FindIn(n.children, path)
  }

  function FirstWithPath(s: seq<Node>, path: string): Option<Node>
  {
    if s == [] then None
    else if s[0].file.path == path then Some(s[0])
    else FirstWithPath(s[1..], path)
  }

  lemma {:induction false} FirstWithPathAppend(a: seq<Node>, b: seq<Node>, path: string)
    ensures FirstWithPath(a + b, path) == if FirstWithPath(a, path).Some? then FirstWithPath(a, path) else FirstWithPath(b, path)
  {
    if a == [] {
      assert a + b == b;
    } else {
      assert (a + b)[0] == a[0] && (a + b)[1..] == a[1..] + b;
      FirstWithPathAppend(a[1..], b, path);
    }
  }

  lemma {:induction false} FindInIsFirstGame(cs: seq<Node>, path: string, idx: FilterIndex)
    ensures FindIn(cs, path) == FirstWithPath(FilesIn(cs, GAME_MASK, false, idx), path)
    decreases cs
  {
    if cs != [] {
      var c := cs[0];
      var own := if Selected(c, GAME_MASK, false, idx) then [c] else [];
      var sub := if |c.children| > 0 then FilesIn(c.children, GAME_MASK, false, idx) else [];
      var rest := FilesIn(cs[1..], GAME_MASK, false, idx);
      FindInIsFirstGame(c.children, path, idx);
      FindInIsFirstGame(cs[1..], path, idx);
      FirstWithPathAppend(own + sub, rest, path);
      FirstWithPathAppend(own, sub, path);
      if |c.children| == 0 {
        assert FindIn(c.children, path) == None;
      }
    }
  }

  /**
   * findFileByPath on a folder returns the first game, in the pre-order of
   * getFilesRecursive(GAME), that has the path; None exactly when no game
   * of the subtree has it.
   */
  lemma FindFileByPathSpec(n: Node, path: string, idx: FilterIndex)
    requires n.file.kind == Folder
    ensures FindFileByPath(n, path) == FirstWithPath(FilesRecursive(n, GAME_MASK, false, idx), path)
    ensures FindFileByPath(n, path).Some? ==>
              var f := FindFileByPath(n, path).value;
              f.file.kind == Game && f.file.path == path && f in Descendants(n)
    ensures FindFileByPath(n, path).None? <==>
              forall x :: x in Descendants(n) && x.file.kind == Game ==> x.file.path != path
  {
    FindInIsFirstGame(n.children, path, idx);
    var games := FilesRecursive(n, GAME_MASK, false, idx);
    FilesRecursiveSpec(n, GAME_MASK, false, idx);
    SelectAllSub(Descendants(n), GAME_MASK, false, idx);
    FirstWithPathSpec(games, path);
    SelectAllComplete(Descendants(n), GAME_MASK, false, idx);
  }

  lemma {:induction false} FirstWithPathSpec(s: seq<Node>, path: string)
    ensures FirstWithPath(s, path).Some? ==> FirstWithPath(s, path).value in s && FirstWithPath(s, path).value.file.path == path
    ensures FirstWithPath(s, path).None? <==> forall x :: x in s ==> x.file.path != path
  {
    if s != [] {
      FirstWithPathSpec(s[1..], path);
      assert forall x :: x in s ==> x == s[0] || x in s[1..];
    }
  }

  lemma {:induction false} SelectAllComplete(s: seq<Node>, mask: bv32, displayedOnly: bool, idx: FilterIndex)
    ensures forall x :: x in s && Selected(x, mask, displayedOnly, idx) ==> x in SelectAll(s, mask, displayedOnly, idx)
  {
    if s != [] {
      SelectAllComplete(s[1..], mask, displayedOnly, idx);
      assert forall x :: x in s ==> x == s[0] || x in s[1..];
    }
  }

  // ---------------------------------------------------------------------
  // The recursive sort

  /** Comparators look at a node's own file, never at its children. */
  function FileOf(n: Node): File
  {
    n.file
  }

  function Files(s: seq<Node>): (r: seq<File>)
    ensures |r| == |s| && forall i :: 0 <= i < |s| ==> r[i] == s[i].file
  {
    seq(|s|, i requires 0 <= i < |s| => s[i].file)
  }

  /**
   * sort(comparator, ascending): orders the children, then sorts every
   * child that has children of its own.
   */
  function SortTree(n: Node, less: (File, File) -> bool, ascending: bool): (r: Node)
    ensures r.file == n.file
    decreases Size(n)
  {
    var ordered := Order(n.children, FileOf, less, ascending);
    OrderMembers(n.children, FileOf, less, ascending);
    ChildrenSmaller(n);
    Node(n.file, seq(|ordered|, i requires 0 <= i < |ordered| =>
      if |ordered[i].children| > 0 then SortTree(ordered[i], less, ascending) else ordered[i]))
  }

  /** Every folder's children are in order, all the way down. */
  predicate IsSortedTree(n: Node, less: (File, File) -> bool, ascending: bool)
    decreases n
  {
    && (if ascending then Sorted(n.children, FileOf, less) else SortedDescending(n.children, FileOf, less))
    && forall c :: c in n.children ==> IsSortedTree(c, less, ascending)
  }

  lemma {:induction false} ClassSameFiles(a: seq<Node>, b: seq<Node>, k: File, less: (File, File) -> bool)
    requires Files(a) == Files(b)
    ensures Files(Class(a, k, FileOf, less)) == Files(Class(b, k, FileOf, less))
  {
    if a != [] {
      assert Files(a[1..]) == Files(a)[1..] && Files(b[1..]) == Files(b)[1..];
      ClassSameFiles(a[1..], b[1..], k, less);
      var ca := if Equiv(a[0].file, k, less) then [a[0]] else [];
      var cb := if Equiv(b[0].file, k, less) then [b[0]] else [];
      assert Files(a)[0] == Files(b)[0];
      assert Files(ca) == Files(cb);
      FilesConcat(ca, Class(a[1..], k, FileOf, less));
      FilesConcat(cb, Class(b[1..], k, FileOf, less));
    } else {
      assert b == [];
    }
  }

  lemma FilesConcat(x: seq<Node>, y: seq<Node>)
    ensures Files(x + y) == Files(x) + Files(y)
  {
  }

  lemma MultisetSameFiles(a: seq<Node>, b: seq<Node>)
    requires multiset(a) == multiset(b)
    ensures multiset(Files(a)) == multiset(Files(b))
    decreases |a|
  {
    if a == [] {
      assert |multiset(b)| == |b|;
    } else {
      var x := a[0];
      assert x in multiset(b);
      var j :| 0 <= j < |b| && b[j] == x;
      var b' := b[..j] + b[j + 1..];
      DropOne(a, b, j);
      MultisetSameFiles(a[1..], b');
      FilesDropOne(b, j);
      assert Files(a) == [x.file] + Files(a[1..]);
    }
  }

  lemma DropOne(a: seq<Node>, b: seq<Node>, j: nat)
    requires multiset(a) == multiset(b) && a != [] && j < |b| && b[j] == a[0]
    ensures multiset(a[1..]) == multiset(b[..j] + b[j + 1..])
  {
    assert a == [a[0]] + a[1..];
    assert b == b[..j] + [b[j]] + b[j + 1..];
    assert multiset(a) == multiset{a[0]} + multiset(a[1..]);
    assert multiset(b) == multiset(b[..j]) + multiset{b[j]} + multiset(b[j + 1..]);
    assert multiset(b[..j] + b[j + 1..]) == multiset(b[..j]) + multiset(b[j + 1..]);
    forall y
      ensures multiset(a[1..])[y] == multiset(b[..j] + b[j + 1..])[y]
    {
      assert multiset(a)[y] == multiset(b)[y];
    }
  }

  lemma FilesDropOne(b: seq<Node>, j: nat)
    requires j < |b|
    ensures multiset(Files(b)) == multiset(Files(b[..j] + b[j + 1..])) + multiset{b[j].file}
  {
    assert Files(b) == Files(b[..j]) + [b[j].file] + Files(b[j + 1..]);
    assert Files(b[..j] + b[j + 1..]) == Files(b[..j]) + Files(b[j + 1..]);
  }

  /**
   * One level of the sort: the children's files are a permutation of the
   * old ones, in non-decreasing (ascending) or non-increasing (descending)
   * order, and files the comparator cannot tell apart keep their relative
   * order in both directions.
   */
  lemma SortTreeLevel(n: Node, less: (File, File) -> bool, ascending: bool, k: File)
    requires StrictWeakOrder(less)
    ensures var r := SortTree(n, less, ascending);
      && multiset(Files(r.children)) == multiset(Files(n.children))
      && (ascending ==> Sorted(r.children, FileOf, less))
      && (!ascending ==> SortedDescending(r.children, FileOf, less))
      && Files(Class(r.children, k, FileOf, less)) == Files(Class(n.children, k, FileOf, less))
  {
    var r := SortTree(n, less, ascending);
    var ordered := Order(n.children, FileOf, less, ascending);
    OrderSpec(n.children, FileOf, less, ascending, k);
    assert Files(r.children) == Files(ordered);
    MultisetSameFiles(ordered, n.children);
    ClassSameFiles(r.children, ordered, k, less);
  }

  /** The children of a sorted node, one by one. */
  lemma SortTreeChildren(n: Node, less: (File, File) -> bool, ascending: bool)
    ensures var r := SortTree(n, less, ascending);
      var ordered := Order(n.children, FileOf, less, ascending);
      && |r.children| == |ordered|
      && (forall i :: 0 <= i < |ordered| ==> r.children[i].file == ordered[i].file)
      && (forall i :: 0 <= i < |ordered| && |ordered[i].children| > 0 ==>
            r.children[i] == SortTree(ordered[i], less, ascending))
      && (forall i :: 0 <= i < |ordered| && |ordered[i].children| == 0 ==> r.children[i] == ordered[i])
      && (forall x :: x in ordered <==> x in n.children)
  {
    OrderMembers(n.children, FileOf, less, ascending);
  }

  /** After the sort, every folder of the tree is sorted. */
  lemma {:induction false} SortTreeIsSorted(n: Node, less: (File, File) -> bool, ascending: bool)
    requires StrictWeakOrder(less)
    ensures IsSortedTree(SortTree(n, less, ascending), less, ascending)
    decreases Size(n)
  {
    var r := SortTree(n, less, ascending);
    var ordered := Order(n.children, FileOf, less, ascending);
    SortTreeChildren(n, less, ascending);
    ChildrenSmaller(n);
    SortedLevel(n, less, ascending);
    forall c | c in r.children
      ensures IsSortedTree(c, less, ascending)
    {
      var i :| 0 <= i < |r.children| && r.children[i] == c;
      if |ordered[i].children| > 0 {
        SortTreeIsSorted(ordered[i], less, ascending);
      } else {
        assert c.children == [];
      }
    }
  }

  lemma SortedLevel(n: Node, less: (File, File) -> bool, ascending: bool)
    requires StrictWeakOrder(less)
    ensures ascending ==> Sorted(SortTree(n, less, ascending).children, FileOf, less)
    ensures !ascending ==> SortedDescending(SortTree(n, less, ascending).children, FileOf, less)
  {
    SortTreeLevel(n, less, ascending, n.file);
  }

  /** The loop of sort(): the children are ordered first, then each is sorted in turn. */
  method Sort(n: Node, less: (File, File) -> bool, ascending: bool) returns (r: Node)
    ensures r == SortTree(n, less, ascending)
    decreases Size(n), 1
  {
    var ordered := Order(n.children, FileOf, less, ascending);
    SortTreeChildren(n, less, ascending);
    ChildrenSmaller(n);
    var children;
    if ascending {
      children := SortForward(ordered, less, Size(n));
    } else {
      children := SortBackward(ordered, less, Size(n));
    }
    r := Node(n.file, children);
    assert r.children == SortTree(n, less, ascending).children;
  }

  /** A child as the sort leaves it: sorted in turn when it has children, else as it was. */
  function SortedChild(c: Node, less: (File, File) -> bool, ascending: bool): Node
  {
    if |c.children| > 0 then SortTree(c, less, ascending) else c
  }

  /**
   * The ascending loop of the sort over a folder's already ordered
   * children: each child that has children is sorted in its turn, front
   * to back.
   */
  method SortForward(ordered: seq<Node>, less: (File, File) -> bool, ghost bound: nat)
    returns (children: seq<Node>)
    requires forall j :: 0 <= j < |ordered| ==> Size(ordered[j]) < bound
    ensures |children| == |ordered|
    ensures forall j :: 0 <= j < |ordered| ==> children[j] == SortedChild(ordered[j], less, true)
    decreases bound, 0
  {
    ghost var target := seq(|ordered|, j requires 0 <= j < |ordered| => SortedChild(ordered[j], less, true));
    children := ordered;
    var i := 0;
    while i < |children|
      invariant 0 <= i <= |children| == |ordered|
      invariant forall j :: 0 <= j < i ==> children[j] == target[j]
      invariant forall j :: i <= j < |children| ==> children[j] == ordered[j]
    {
      if |children[i].children| > 0 {
        var c := Sort(children[i], less, true);
        children := children[i := c];
      }
      assert children[i] == target[i];
      i := i + 1;
    }
  }

  /** The descending loop: the same walk, back to front. */
  method SortBackward(ordered: seq<Node>, less: (File, File) -> bool, ghost bound: nat)
    returns (children: seq<Node>)
    requires forall j :: 0 <= j < |ordered| ==> Size(ordered[j]) < bound
    ensures |children| == |ordered|
    ensures forall j :: 0 <= j < |ordered| ==> children[j] == SortedChild(ordered[j], less, false)
    decreases bound, 0
  {
    ghost var target := seq(|ordered|, j requires 0 <= j < |ordered| => SortedChild(ordered[j], less, false));
    children := ordered;
    var i := |children|;
    while i > 0
      invariant 0 <= i <= |children| == |ordered|
      invariant forall j :: i <= j < |children| ==> children[j] == target[j]
      invariant forall j :: 0 <= j < i ==> children[j] == ordered[j]
    {
      i := i - 1;
      if |children[i].children| > 0 {
        var c := Sort(children[i], less, false);
        children := children[i := c];
      }
      assert children[i] == target[i];
    }
  }

  // ---------------------------------------------------------------------
  // Sort types

  /** A named comparator with a direction, as listed in the sort menu. */
  datatype SortType = SortType(description: string, less: (File, File) -> bool, ascending: bool)

  /**
   * getSortTypeFromString as an index into the sort-type table: the first
   * entry whose description matches, or entry 0 when none does.
   */
  function SortTypeIndex(types: seq<SortType>, desc: string): (i: nat)
    requires |types| > 0
    ensures i < |types|
    ensures forall j :: 0 <= j < i ==> types[j].description != desc
    ensures types[i].description == desc || (i == 0 && forall j :: 0 <= j < |types| ==> types[j].description != desc)
  {
    var k := DescriptionIndex(types, desc, 0);
    if k < |types| then k else 0
  }

  /** The first index at or after `from` holding `desc`, or |types| when there is none. */
  function DescriptionIndex(types: seq<SortType>, desc: string, from: nat): (k: nat)
    requires from <= |types|
    ensures from <= k <= |types|
    ensures forall j :: from <= j < k ==> types[j].description != desc
    ensures k < |types| ==> types[k].description == desc
    decreases |types| - from
  {
    if from == |types| then |types|
    else if types[from].description == desc then from
    else DescriptionIndex(types, desc, from + 1)
  }

  function SortTypeFromString(types: seq<SortType>, desc: string): (t: SortType)
    requires |types| > 0
    ensures t.description == desc || t == types[0]
  {
    types[SortTypeIndex(types, desc)]
  }

  /** sort(type): sorts with the type's comparator and direction and records its description. */
  method SortByType(n: Node, t: SortType) returns (r: Node, sortDesc: string)
    ensures r == SortTree(n, t.less, t.ascending)
    ensures sortDesc == t.description
  {
    r := Sort(n, t.less, t.ascending);
    sortDesc := t.description;
  }
}
