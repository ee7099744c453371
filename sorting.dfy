/**
 * Stable sorting of elements by a sort key under a comparator that is a
 * strict weak ordering (what `std::stable_sort` and `std::sort` require of
 * their comparator), and the descending variant the catalog obtains by
 * stable-sorting a reversed view.
 */
module Sorting {

  ghost predicate StrictWeakOrder<K(!new)>(less: (K, K) -> bool)
  {
    && (forall a :: !less(a, a))
    && (forall a, b, c :: less(a, b) && less(b, c) ==> less(a, c))
    && (forall a, b, c :: less(a, c) ==> less(a, b) || less(b, c))
  }

  /** Neither key is ordered before the other. */
  predicate Equiv<K>(a: K, b: K, less: (K, K) -> bool)
  {
    !less(a, b) && !less(b, a)
  }

  /** Non-decreasing: no element's key is less than that of one before it. */
  predicate Sorted<T, K>(s: seq<T>, key: T -> K, less: (K, K) -> bool)
  {
    forall i, j :: 0 <= i < j < |s| ==> !less(key(s[j]), key(s[i]))
  }

  /** Non-increasing: no element's key is less than that of one after it. */
  predicate SortedDescending<T, K>(s: seq<T>, key: T -> K, less: (K, K) -> bool)
  {
    forall i, j :: 0 <= i < j < |s| ==> !less(key(s[i]), key(s[j]))
  }

  /** The elements of `s` whose key is equivalent to `k`, in their order in `s`. */
  function Class<T, K>(s: seq<T>, k: K, key: T -> K, less: (K, K) -> bool): seq<T>
  {
    if s == [] then []
    else (if Equiv(key(s[0]), k, less) then [s[0]] else []) + Class(s[1..], k, key, less)
  }

  function Reverse<T>(s: seq<T>): (r: seq<T>)
    ensures |r| == |s| && forall i :: 0 <= i < |s| ==> r[i] == s[|s| - 1 - i]
  {
    if s == [] then [] else Reverse(s[1..]) + [s[0]]
  }

  /** Inserts `x` after every element whose key it is not less than: after its equals. */
  function Insert<T, K>(x: T, s: seq<T>, key: T -> K, less: (K, K) -> bool): (r: seq<T>)
    ensures multiset(r) == multiset(s) + multiset{x}
  {
    if s == [] then [x]
    else if less(key(x), key(s[0])) then [x] + s
    else
      assert s == [s[0]] + s[1..];
      [s[0]] + Insert(x, s[1..], key, less)
  }

  /** Insertion sort taking the elements in input order: a stable sort. */
  function StableSort<T, K>(s: seq<T>, key: T -> K, less: (K, K) -> bool): (r: seq<T>)
    ensures multiset(r) == multiset(s)
  {
    if s == [] then []
    else
      assert s == s[..|s| - 1] + [s[|s| - 1]];
      Insert(s[|s| - 1], StableSort(s[..|s| - 1], key, less), key, less)
  }

  /**
   * The order the catalog gives a folder's children: a stable sort, or for
   * descending order a stable sort of the reversed sequence, read backwards.
   */
  function Order<T, K>(s: seq<T>, key: T -> K, less: (K, K) -> bool, ascending: bool): (r: seq<T>)
    ensures multiset(r) == multiset(s)
  {
    if ascending then StableSort(s, key, less)
    else
      ReverseMultiset(s);
      ReverseMultiset(StableSort(Reverse(s), key, less));
      Reverse(StableSort(Reverse(s), key, less))
  }

  // ---------------------------------------------------------------------
  // Lemmas

  /** Ordering neither adds nor drops an element. */
  lemma OrderMembers<T, K>(s: seq<T>, key: T -> K, less: (K, K) -> bool, ascending: bool)
    ensures forall x :: x in Order(s, key, less, ascending) <==> x in s
  {
    var r := Order(s, key, less, ascending);
    assert forall x :: x in r <==> x in multiset(r);
    assert forall x :: x in s <==> x in multiset(s);
  }

  lemma {:induction false} ClassAppend<T, K>(a: seq<T>, b: seq<T>, k: K, key: T -> K, less: (K, K) -> bool)
    ensures Class(a + b, k, key, less) == Class(a, k, key, less) + Class(b, k, key, less)
  {
    if a != [] {
      assert (a + b)[0] == a[0];
      assert (a + b)[1..] == a[1..] + b;
      ClassAppend(a[1..], b, k, key, less);
    } else {
      assert a + b == b;
    }
  }

  lemma ClassSnoc<T, K>(s: seq<T>, k: K, key: T -> K, less: (K, K) -> bool)
    requires s != []
    ensures Class(s, k, key, less)
            == Class(s[..|s| - 1], k, key, less) + (if Equiv(key(s[|s| - 1]), k, less) then [s[|s| - 1]] else [])
  {
    var last := s[|s| - 1];
    assert s == s[..|s| - 1] + [last];
    ClassAppend(s[..|s| - 1], [last], k, key, less);
    assert Class([last], k, key, less)
           == (if Equiv(key(last), k, less) then [last] else []) + Class([], k, key, less);
  }

  lemma {:induction false} ClassNone<T, K>(s: seq<T>, k: K, key: T -> K, less: (K, K) -> bool)
    requires forall i :: 0 <= i < |s| ==> !Equiv(key(s[i]), k, less)
    ensures Class(s, k, key, less) == []
  {
    if s != [] {
      ClassNone(s[1..], k, key, less);
    }
  }

  lemma ReverseAppend<T>(a: seq<T>, b: seq<T>)
    ensures Reverse(a + b) == Reverse(b) + Reverse(a)
  {
  }

  lemma ReverseReverse<T>(s: seq<T>)
    ensures Reverse(Reverse(s)) == s
  {
  }

  lemma {:induction false} ReverseMultiset<T>(s: seq<T>)
    ensures multiset(Reverse(s)) == multiset(s)
  {
    if s != [] {
      ReverseMultiset(s[1..]);
      assert s == [s[0]] + s[1..];
    }
  }

  lemma {:induction false} ClassReverse<T, K>(s: seq<T>, k: K, key: T -> K, less: (K, K) -> bool)
    ensures Class(Reverse(s), k, key, less) == Reverse(Class(s, k, key, less))
  {
    if s != [] {
      ClassReverse(s[1..], k, key, less);
      ClassAppend(Reverse(s[1..]), [s[0]], k, key, less);
      var c0 := if Equiv(key(s[0]), k, less) then [s[0]] else [];
      assert Class([s[0]], k, key, less) == c0 + Class([], k, key, less);
      ReverseAppend(c0, Class(s[1..], k, key, less));
    }
  }

  /** A key strictly above `x` is not equivalent to anything `x` is equivalent to. */
  lemma EquivTransfer<K(!new)>(x: K, e: K, k: K, less: (K, K) -> bool)
    requires StrictWeakOrder(less)
    requires less(x, e) && Equiv(x, k, less)
    ensures !Equiv(e, k, less)
  {
    assert less(x, k) || less(k, e);
  }

  /** In a sorted sequence whose head is above `x`, every element is above `x`. */
  lemma AllAbove<T, K(!new)>(x: T, s: seq<T>, key: T -> K, less: (K, K) -> bool)
    requires StrictWeakOrder(less) && Sorted(s, key, less)
    requires s != [] && less(key(x), key(s[0]))
    ensures forall i :: 0 <= i < |s| ==> less(key(x), key(s[i]))
  {
    forall i | 0 <= i < |s|
      ensures less(key(x), key(s[i]))
    {
      if i > 0 {
        assert !less(key(s[i]), key(s[0]));
      }
    }
  }

  lemma {:induction false} InsertSorted<T, K(!new)>(x: T, s: seq<T>, key: T -> K, less: (K, K) -> bool)
    requires StrictWeakOrder(less) && Sorted(s, key, less)
    ensures Sorted(Insert(x, s, key, less), key, less)
  {
    if s == [] {
    } else if less(key(x), key(s[0])) {
      AllAbove(x, s, key, less);
      var r := [x] + s;
      assert Insert(x, s, key, less) == r;
      forall i, j | 0 <= i < j < |r|
        ensures !less(key(r[j]), key(r[i]))
      {
        if i > 0 {
          assert r[j] == s[j - 1] && r[i] == s[i - 1];
        } else {
          assert less(key(x), key(r[j]));
        }
      }
    } else {
      var t := Insert(x, s[1..], key, less);
      InsertSorted(x, s[1..], key, less);
      var r := [s[0]] + t;
      assert Insert(x, s, key, less) == r;
      forall i, j | 0 <= i < j < |r|
        ensures !less(key(r[j]), key(r[i]))
      {
        if i == 0 {
          assert r[j] in multiset(t);
          assert r[j] == x || r[j] in multiset(s[1..]);
          if r[j] != x {
            var m :| 0 <= m < |s[1..]| && s[1..][m] == r[j];
            assert r[j] == s[m + 1];
          }
        } else {
          assert r[j] == t[j - 1] && r[i] == t[i - 1];
        }
      }
    }
  }

  lemma {:induction false} InsertClass<T, K(!new)>(x: T, s: seq<T>, k: K, key: T -> K, less: (K, K) -> bool)
    requires StrictWeakOrder(less) && Sorted(s, key, less)
    ensures Class(Insert(x, s, key, less), k, key, less)
            == Class(s, k, key, less) + (if Equiv(key(x), k, less) then [x] else [])
  {
    var ex := if Equiv(key(x), k, less) then [x] else [];
    if s == [] {
      assert Insert(x, s, key, less) == [x];
      assert Class([x], k, key, less) == ex + Class([], k, key, less);
    } else if less(key(x), key(s[0])) {
      InsertFrontClass(x, s, k, key, less);
    } else {
      var t := Insert(x, s[1..], key, less);
      var r := [s[0]] + t;
      assert Insert(x, s, key, less) == r;
      assert r[1..] == t;
      var c0 := if Equiv(key(s[0]), k, less) then [s[0]] else [];
      assert Class(r, k, key, less) == c0 + Class(t, k, key, less);
      SortedTail(s, key, less);
      InsertClass(x, s[1..], k, key, less);
    }
  }

  /** Inserting below the head of a sorted sequence adds `x` to its class, in front of nothing of that class. */
  lemma InsertFrontClass<T, K(!new)>(x: T, s: seq<T>, k: K, key: T -> K, less: (K, K) -> bool)
    requires StrictWeakOrder(less) && Sorted(s, key, less)
    requires s != [] && less(key(x), key(s[0]))
    ensures Class(Insert(x, s, key, less), k, key, less)
            == Class(s, k, key, less) + (if Equiv(key(x), k, less) then [x] else [])
  {
    var ex := if Equiv(key(x), k, less) then [x] else [];
    var r := [x] + s;
    assert Insert(x, s, key, less) == r;
    assert r[1..] == s;
    assert Class(r, k, key, less) == ex + Class(s, k, key, less);
    if Equiv(key(x), k, less) {
      AllAbove(x, s, key, less);
      forall i | 0 <= i < |s|
        ensures !Equiv(key(s[i]), k, less)
      {
        EquivTransfer(key(x), key(s[i]), k, less);
      }
      ClassNone(s, k, key, less);
    }
  }

  lemma SortedTail<T, K>(s: seq<T>, key: T -> K, less: (K, K) -> bool)
    requires s != [] && Sorted(s, key, less)
    ensures Sorted(s[1..], key, less)
  {
    forall i, j | 0 <= i < j < |s| - 1
      ensures !less(key(s[1..][j]), key(s[1..][i]))
    {
      assert s[1..][j] == s[j + 1] && s[1..][i] == s[i + 1];
    }
  }

  lemma {:induction false} StableSortSorted<T, K(!new)>(s: seq<T>, key: T -> K, less: (K, K) -> bool)
    requires StrictWeakOrder(less)
    ensures Sorted(StableSort(s, key, less), key, less)
  {
    if s != [] {
      var sorted := StableSort(s[..|s| - 1], key, less);
      assert StableSort(s, key, less) == Insert(s[|s| - 1], sorted, key, less);
      StableSortSorted(s[..|s| - 1], key, less);
      InsertSorted(s[|s| - 1], sorted, key, less);
    }
  }

  /** Stability: the elements of each equivalence class keep their input order. */
  lemma {:induction false} StableSortStable<T, K(!new)>(s: seq<T>, k: K, key: T -> K, less: (K, K) -> bool)
    requires StrictWeakOrder(less)
    ensures Class(StableSort(s, key, less), k, key, less) == Class(s, k, key, less)
  {
    if s != [] {
      var init, last := s[..|s| - 1], s[|s| - 1];
      var sorted := StableSort(init, key, less);
      assert StableSort(s, key, less) == Insert(last, sorted, key, less);
      StableSortStable(init, k, key, less);
      StableSortSorted(init, key, less);
      InsertClass(last, sorted, k, key, less);
      ClassSnoc(s, k, key, less);
    }
  }

  /**
   * What the catalog's sort promises of one folder's children: a permutation,
   * in non-decreasing (ascending) or non-increasing (descending) key order,
   * with equivalent elements in their original relative order either way.
   */
  lemma OrderSpec<T, K(!new)>(s: seq<T>, key: T -> K, less: (K, K) -> bool, ascending: bool, k: K)
    requires StrictWeakOrder(less)
    ensures multiset(Order(s, key, less, ascending)) == multiset(s)
    ensures ascending ==> Sorted(Order(s, key, less, ascending), key, less)
    ensures !ascending ==> SortedDescending(Order(s, key, less, ascending), key, less)
    ensures Class(Order(s, key, less, ascending), k, key, less) == Class(s, k, key, less)
  {
    if ascending {
      StableSortSorted(s, key, less);
      StableSortStable(s, k, key, less);
    } else {
      var rs := StableSort(Reverse(s), key, less);
      ReverseMultiset(s);
      ReverseMultiset(rs);
      StableSortSorted(Reverse(s), key, less);
      StableSortStable(Reverse(s), k, key, less);
      ClassReverse(rs, k, key, less);
      ClassReverse(s, k, key, less);
      ReverseReverse(Class(s, k, key, less));
    }
  }
}
