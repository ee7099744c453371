/**
 * The emulator-settings menu: which core a system's list marks as the
 * current default, how saving a new default reprioritises and re-sorts the
 * system's cores, and the option-list rule that keeps a user's current
 * setting selectable.
 */
module EmulatorSettings {
  import opened Launch
  import Sorting

  /** The sort key of a core and the comparator the save re-sorts with. */
  function Priority(c: CoreInfo): int
  {
    c.priority
  }

  predicate Before(a: int, b: int)
  {
    a < b
  }

  lemma BeforeIsStrictWeakOrder()
    ensures Sorting.StrictWeakOrder(Before)
  {
  }

  /** Non-decreasing priorities, the order a re-sorted core list is in. */
  predicate ByPriority(cs: seq<CoreInfo>)
  {
    forall i, j :: 0 <= i < j < |cs| ==> cs[i].priority <= cs[j].priority
  }

  /** Index of the last core with priority 1, or -1 when no core has it. */
  function LastDefaultIndex(cores: seq<CoreInfo>): (i: int)
    ensures -1 <= i < |cores|
    ensures i >= 0 ==> cores[i].priority == 1
    ensures forall j :: i < j < |cores| ==> cores[j].priority != 1
  {
    if cores == [] then -1
    else if cores[|cores| - 1].priority == 1 then |cores| - 1
    else LastDefaultIndex(cores[..|cores| - 1])
  }

  /** The core the menu presents as the current default: the last one listed with priority 1, or "". */
  function CurrentDefault(cores: seq<CoreInfo>): (name: string)
    ensures (forall i :: 0 <= i < |cores| ==> cores[i].priority != 1) ==> name == ""
    ensures (exists i :: 0 <= i < |cores| && cores[i].priority == 1) ==>
              exists i :: 0 <= i < |cores| && cores[i].priority == 1 && cores[i].name == name &&
                          forall j :: i < j < |cores| ==> cores[j].priority != 1
  {
    var i := LastDefaultIndex(cores);
    if i >= 0 then cores[i].name else ""
  }

  /** One line of the emulator list: its caption, the core name it stands for, and whether it starts selected. */
  datatype MenuEntry = MenuEntry(caption: string, value: string, selected: bool)

  const DEFAULT_MARK: string := " (Current Default)"

  /**
   * The loop that fills a system's emulator list, remembering the current
   * default as it goes.
   */
  method EmulatorList(cores: seq<CoreInfo>) returns (currentDefault: string, entries: seq<MenuEntry>)
    ensures currentDefault == CurrentDefault(cores)
    ensures |entries| == |cores|
    ensures forall i :: 0 <= i < |cores| ==> entries[i].value == cores[i].name
    ensures forall i :: 0 <= i < |cores| ==> (entries[i].selected <==> cores[i].priority == 1)
    ensures forall i :: 0 <= i < |cores| ==>
              entries[i].caption == cores[i].fullName + (if cores[i].priority == 1 then DEFAULT_MARK else "")
  {
    currentDefault := "";
    entries := [];
    var i := 0;
    while i < |cores|
      invariant 0 <= i <= |cores|
      invariant currentDefault == CurrentDefault(cores[..i])
      invariant |entries| == i
      invariant forall k :: 0 <= k < i ==> entries[k].value == cores[k].name
      invariant forall k :: 0 <= k < i ==> (entries[k].selected <==> cores[k].priority == 1)
      invariant forall k :: 0 <= k < i ==>
                  entries[k].caption == cores[k].fullName + (if cores[k].priority == 1 then DEFAULT_MARK else "")
    {
      var core := cores[i];
      assert cores[..i + 1][..i] == cores[..i];
      if core.priority == 1 {
        currentDefault := core.name;
      }
      var caption := core.fullName;
      if core.priority == 1 {
        caption := caption + DEFAULT_MARK;
      }
      entries := entries + [MenuEntry(caption, core.name, core.priority == 1)];
      i := i + 1;
    }
    assert cores[..i] == cores;
  }

  /** Every core's priority raised by one, nothing else touched. */
  function Bumped(cs: seq<CoreInfo>): (r: seq<CoreInfo>)
    ensures |r| == |cs|
    ensures forall i :: 0 <= i < |cs| ==> r[i] == cs[i].(priority := cs[i].priority + 1)
  {
    if cs == [] then []
    else
      var last := cs[|cs| - 1];
      Bumped(cs[..|cs| - 1]) + [last.(priority := last.priority + 1)]
  }

  /** Index of the first core named `name`, or |cs| when none is. */
  function FirstNamed(cs: seq<CoreInfo>, name: string): (i: nat)
    ensures i <= |cs|
    ensures forall j :: 0 <= j < i ==> cs[j].name != name
    ensures i < |cs| ==> cs[i].name == name
  {
    if cs == [] then 0
    else if cs[0].name == name then 0
    else
      assert forall j :: 1 <= j < |cs| ==> cs[1..][j - 1] == cs[j];
      1 + FirstNamed(cs[1..], name)
  }

  /** The first core named `selected`, if any, set to priority 1; every other core as it was. */
  function Marked(cs: seq<CoreInfo>, selected: string): (r: seq<CoreInfo>)
    ensures |r| == |cs|
    ensures forall i :: 0 <= i < |cs| ==>
              r[i].name == cs[i].name && r[i].fullName == cs[i].fullName && r[i].extensions == cs[i].extensions
    ensures forall i :: 0 <= i < |cs| && cs[i].name == selected && (forall j :: 0 <= j < i ==> cs[j].name != selected) ==>
              r[i].priority == 1
    ensures forall i :: 0 <= i < |cs| && (cs[i].name != selected || exists j :: 0 <= j < i && cs[j].name == selected) ==>
              r[i] == cs[i]
  {
    var k := FirstNamed(cs, selected);
    if k < |cs| then cs[k := cs[k].(priority := 1)] else cs
  }

  /**
   * The core list after saving `selected` as the default and before the
   * re-sort: every priority goes up by one, and then the first core named
   * `selected`, if any, gets priority 1.
   */
  function Reprioritised(cs: seq<CoreInfo>, selected: string): (r: seq<CoreInfo>)
    ensures |r| == |cs|
    ensures forall i :: 0 <= i < |cs| ==>
              r[i].name == cs[i].name && r[i].fullName == cs[i].fullName && r[i].extensions == cs[i].extensions
    ensures forall i :: 0 <= i < |cs| && cs[i].name == selected && (forall j :: 0 <= j < i ==> cs[j].name != selected) ==>
              r[i].priority == 1
    ensures forall i :: 0 <= i < |cs| && (cs[i].name != selected || exists j :: 0 <= j < i && cs[j].name == selected) ==>
              r[i].priority == cs[i].priority + 1
  {
    Marked(Bumped(cs), selected)
  }

  /**
   * Saving a default emulator choice: nothing happens when the choice is
   * the default the menu opened with; otherwise the priorities are bumped,
   * the first core of that name becomes priority 1, and the list is
   * re-sorted by priority (by any sorting algorithm: only a permutation
   * in non-decreasing priority order is promised).
   */
  method SaveDefaultCore(env: SystemEnvData, selected: string, currentDefault: string)
    modifies env`cores
    ensures selected == currentDefault ==> env.cores == old(env.cores)
    ensures selected != currentDefault ==>
              multiset(env.cores) == multiset(Reprioritised(old(env.cores), selected)) && ByPriority(env.cores)
  {
    if selected == currentDefault {
      return;
    }
    BumpAll(env);
    MarkDefault(env, selected);
    SortByPriority(env);
  }

  /** The first step of a save: every core's priority goes up by one, in place. */
  method BumpAll(env: SystemEnvData)
    modifies env`cores
    ensures env.cores == Bumped(old(env.cores))
  {
    ghost var cores0 := env.cores;
    var i := 0;
    while i < |env.cores|
      invariant |env.cores| == |cores0|
      invariant 0 <= i <= |cores0|
      invariant forall k :: 0 <= k < i ==> env.cores[k] == cores0[k].(priority := cores0[k].priority + 1)
      invariant forall k :: i <= k < |cores0| ==> env.cores[k] == cores0[k]
    {
      env.cores := env.cores[i := env.cores[i].(priority := env.cores[i].priority + 1)];
      i := i + 1;
    }
  }

  /** The second step: the first core named `selected`, if any, gets priority 1, and the search stops there. */
  method MarkDefault(env: SystemEnvData, selected: string)
    modifies env`cores
    ensures env.cores == Marked(old(env.cores), selected)
  {
    var i := 0;
    while i < |env.cores|
      invariant 0 <= i <= |env.cores|
      invariant env.cores == old(env.cores)
      invariant forall j :: 0 <= j < i ==> env.cores[j].name != selected
    {
      if env.cores[i].name == selected {
        assert FirstNamed(env.cores, selected) == i;
        env.cores := env.cores[i := env.cores[i].(priority := 1)];
        return;
      }
      i := i + 1;
    }
    assert FirstNamed(env.cores, selected) == |env.cores|;
  }

  /** The third step: the in-place re-sort, by ascending priority. */
  method SortByPriority(env: SystemEnvData)
    modifies env`cores
    ensures multiset(env.cores) == multiset(old(env.cores)) && ByPriority(env.cores)
  {
    BeforeIsStrictWeakOrder();
    Sorting.OrderSpec(env.cores, Priority, Before, true, 0);
    env.cores := Sorting.Order(env.cores, Priority, Before, true);
    SortedIsByPriority(env.cores);
  }

  lemma SortedIsByPriority(cs: seq<CoreInfo>)
    requires Sorting.Sorted(cs, Priority, Before)
    ensures ByPriority(cs)
  {
    forall i, j | 0 <= i < j < |cs|
      ensures cs[i].priority <= cs[j].priority
    {
      assert !Before(Priority(cs[j]), Priority(cs[i]));
    }
  }

  /**
   * When the cores carry priorities 1, 2, … (any values of at least 1)
   * and the chosen core is listed, any order the save may produce starts
   * with that core at priority 1, the menu shows it as the current
   * default next time, and launching a game no core claims by extension
   * falls back to it.
   */
  lemma SelectedComesFirst(cs: seq<CoreInfo>, selected: string, r: seq<CoreInfo>)
    requires forall i :: 0 <= i < |cs| ==> cs[i].priority >= 1
    requires exists i :: 0 <= i < |cs| && cs[i].name == selected
    requires multiset(r) == multiset(Reprioritised(cs, selected)) && ByPriority(r)
    ensures |r| == |cs| && r[0].name == selected && r[0].priority == 1
    ensures CurrentDefault(r) == selected
    ensures forall ext :: FirstMatch(r, ext) == "" ==> ChosenCore(r, ext) == selected
  {
    var rp := Reprioritised(cs, selected);
    var k := FirstNamed(cs, selected);
    assert |r| == |cs| by {
      assert |multiset(r)| == |multiset(rp)|;
    }
    OnlyChosenIsFirst(cs, selected);
    SameMembers(r, rp);
    assert rp[k] in r;
    var p :| 0 <= p < |r| && r[p] == rp[k];
    assert r[0] in rp;
  }

  /** After the reprioritisation of cores whose priorities are at least 1, priority 1 belongs to the chosen core alone. */
  lemma OnlyChosenIsFirst(cs: seq<CoreInfo>, selected: string)
    requires forall i :: 0 <= i < |cs| ==> cs[i].priority >= 1
    ensures forall x :: x in Reprioritised(cs, selected) && x.priority <= 1 ==> x.name == selected && x.priority == 1
  {
    var rp := Reprioritised(cs, selected);
    var k := FirstNamed(cs, selected);
    forall x | x in rp && x.priority <= 1
      ensures x.name == selected && x.priority == 1
    {
      var p :| 0 <= p < |rp| && rp[p] == x;
      assert p == k;
    }
  }

  /**
   * Why OnlyChosenIsFirst needs priorities of at least 1: a core listed
   * at priority 0 reaches priority 1 with the bump and shares it with the
   * chosen core.
   */
  lemma ZeroPriorityShares()
    ensures var cs := [CoreInfo("a", "", [], 1), CoreInfo("b", "", [], 0)];
      Reprioritised(cs, "a")[0].priority == 1 && Reprioritised(cs, "a")[1] == CoreInfo("b", "", [], 1)
  {
    var cs := [CoreInfo("a", "", [], 1), CoreInfo("b", "", [], 0)];
    var r := Reprioritised(cs, "a");
    assert cs[1].name != "a";
    assert r[1].name == "b" && r[1].fullName == "" && r[1].extensions == [] && r[1].priority == 1;
  }

  lemma SameMembers<T>(a: seq<T>, b: seq<T>)
    requires multiset(a) == multiset(b)
    ensures forall x :: x in a <==> x in b
  {
    forall x
      ensures x in a <==> x in b
    {
      assert x in a <==> x in multiset(a);
      assert x in b <==> x in multiset(b);
    }
  }

  /**
   * An option list: the built-in entries in their order, then the user's
   * current setting when it is set and not one of them.
   */
  function WithCurrentSetting(builtins: seq<string>, current: string): (r: seq<string>)
    ensures |builtins| <= |r| <= |builtins| + 1 && r[..|builtins|] == builtins
    ensures |r| == |builtins| + 1 <==> current != "" && current !in builtins
    ensures current != "" ==> current in r
    ensures forall x :: x in r ==> x in builtins || x == current
    ensures (forall i, j :: 0 <= i < j < |builtins| ==> builtins[i] != builtins[j]) ==>
              forall i, j :: 0 <= i < j < |r| ==> r[i] != r[j]
  {
    if current != "" && current !in builtins then builtins + [current] else builtins
  }

  /** The menu's building of an option list: a search of the built-ins, then the append. */
  method OptionList(builtins: seq<string>, current: string) returns (options: seq<string>)
    ensures options == WithCurrentSetting(builtins, current)
  {
    options := builtins;
    if current != "" {
      var i := 0;
      while i < |options| && options[i] != current
        invariant 0 <= i <= |options|
        invariant current !in options[..i]
      {
        assert options[..i + 1] == options[..i] + [options[i]];
        i := i + 1;
      }
      if i == |options| {
        assert options[..i] == options;
        options := options + [current];
      }
    }
  }
}
