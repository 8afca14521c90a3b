/** A stable sort driven by a comparator, in the manner of `Array.prototype.sort`:
    a negative comparison puts the first argument first, and elements that
    compare equal keep their input order. */
module Sorting {

  /** Places `x` in front of the first element it compares below, so it lands
      after every element it does not compare below. */
  function Insert<T>(x: T, s: seq<T>, cmp: (T, T) -> int): (r: seq<T>)
    ensures multiset(r) == multiset(s) + multiset{x}
    ensures |r| == |s| + 1
  {
    if |s| == 0 then [x]
    else if cmp(x, s[0]) < 0 then [x] + s
    else
      assert s == [s[0]] + s[1..];
      [s[0]] + Insert(x, s[1..], cmp)
  }

  /** Insertion sort: the elements are inserted in input order, so each one
      settles after the earlier elements it compares equal to. */
  function SortBy<T>(s: seq<T>, cmp: (T, T) -> int): (r: seq<T>)
    ensures multiset(r) == multiset(s)
    ensures |r| == |s|
  {
    if |s| == 0 then []
    else
      assert s == s[..|s| - 1] + [s[|s| - 1]];
      Insert(s[|s| - 1], SortBy(s[..|s| - 1], cmp), cmp)
  }

  /** `cmp` is the difference of an integer key, as `a.price - b.price` is. */
  ghost predicate KeyComparator<T(!new)>(cmp: (T, T) -> int, key: T -> int)
  {
    forall a, b :: cmp(a, b) == key(a) - key(b)
  }

  /** Keys never decrease along `s`. */
  ghost predicate SortedBy<T>(s: seq<T>, key: T -> int)
  {
    forall i, j :: 0 <= i < j < |s| ==> key(s[i]) <= key(s[j])
  }

  /** Inserting into a sorted sequence keeps it sorted. */
  lemma {:induction false} InsertKeepsSorted<T(!new)>(x: T, s: seq<T>, cmp: (T, T) -> int, key: T -> int)
    requires KeyComparator(cmp, key) && SortedBy(s, key)
    ensures SortedBy(Insert(x, s, cmp), key)
  {
    if |s| > 0 && cmp(x, s[0]) >= 0 {
      var rest := Insert(x, s[1..], cmp);
      InsertKeepsSorted(x, s[1..], cmp, key);
      forall k | 0 <= k < |rest|
        ensures key(s[0]) <= key(rest[k])
      {
        assert rest[k] in multiset(rest);
        if rest[k] != x {
          assert rest[k] in multiset(s[1..]);
          assert rest[k] in s[1..];
        }
      }
    }
  }

  /** With a key comparator the result is sorted by the key. */
  lemma {:induction false} SortBySorts<T(!new)>(s: seq<T>, cmp: (T, T) -> int, key: T -> int)
    requires KeyComparator(cmp, key)
    ensures SortedBy(SortBy(s, cmp), key)
  {
    if |s| > 0 {
      SortBySorts(s[..|s| - 1], cmp, key);
      InsertKeepsSorted(s[|s| - 1], SortBy(s[..|s| - 1], cmp), cmp, key);
    }
  }

  /** An element no smaller than everything present goes to the end. */
  lemma {:induction false} InsertAfterAll<T(!new)>(x: T, s: seq<T>, cmp: (T, T) -> int, key: T -> int)
    requires KeyComparator(cmp, key)
    requires forall k :: 0 <= k < |s| ==> key(s[k]) <= key(x)
    ensures Insert(x, s, cmp) == s + [x]
  {
    if |s| > 0 {
      InsertAfterAll(x, s[1..], cmp, key);
      assert [s[0]] + (s[1..] + [x]) == s + [x];
    }
  }

  /** Input already in key order comes out exactly as it went in: ties are
      never reordered. */
  lemma {:induction false} SortByKeepsSortedInput<T(!new)>(s: seq<T>, cmp: (T, T) -> int, key: T -> int)
    requires KeyComparator(cmp, key) && SortedBy(s, key)
    ensures SortBy(s, cmp) == s
  {
    if |s| > 0 {
      var init := s[..|s| - 1];
      var x := s[|s| - 1];
      assert s == init + [x];
      assert SortBy(s, cmp) == Insert(x, SortBy(init, cmp), cmp);
      assert SortedBy(init, key);
      assert forall k :: 0 <= k < |init| ==> key(init[k]) <= key(x);
      SortByKeepsSortedInput(init, cmp, key);
      InsertAfterAll(x, init, cmp, key);
    }
  }

  /** The elements whose key is `v`, in order. */
  function WithKey<T>(s: seq<T>, key: T -> int, v: int): seq<T>
  {
    if |s| == 0 then []
    else (if key(s[0]) == v then [s[0]] else []) + WithKey(s[1..], key, v)
  }

  /** Selecting by key distributes over concatenation. */
  lemma {:induction false} WithKeyAppend<T>(a: seq<T>, b: seq<T>, key: T -> int, v: int)
    ensures WithKey(a + b, key, v) == WithKey(a, key, v) + WithKey(b, key, v)
  {
    if |a| > 0 {
      assert (a + b)[1..] == a[1..] + b;
      WithKeyAppend(a[1..], b, key, v);
    } else {
      assert a + b == b;
    }
  }

  /** Two selections that pick out the same elements are equal. */
  lemma {:induction false} WithKeySameSelection<T(!new)>(s: seq<T>, k1: T -> int, v1: int, k2: T -> int, v2: int)
    requires forall x :: k1(x) == v1 <==> k2(x) == v2
    ensures WithKey(s, k1, v1) == WithKey(s, k2, v2)
  {
    if |s| > 0 {
      WithKeySameSelection(s[1..], k1, v1, k2, v2);
    }
  }

  /** Nothing is selected when no element has the key. */
  lemma {:induction false} WithKeyNone<T>(s: seq<T>, key: T -> int, v: int)
    requires forall k :: 0 <= k < |s| ==> key(s[k]) != v
    ensures WithKey(s, key, v) == []
  {
    if |s| > 0 {
      WithKeyNone(s[1..], key, v);
    }
  }

  /** Inserting into a sorted sequence puts the new element after every
      element with the same key. */
  lemma {:induction false} InsertIsStable<T(!new)>(x: T, s: seq<T>, cmp: (T, T) -> int, key: T -> int, v: int)
    requires KeyComparator(cmp, key) && SortedBy(s, key)
    ensures WithKey(Insert(x, s, cmp), key, v) == WithKey(s, key, v) + (if key(x) == v then [x] else [])
  {
    if |s| == 0 {
      assert Insert(x, s, cmp) == [x];
      WithKeySingle(x, key, v);
    } else if cmp(x, s[0]) < 0 {
      assert Insert(x, s, cmp) == [x] + s;
      InsertInFront(x, s, cmp, key, v);
    } else {
      var rest := Insert(x, s[1..], cmp);
      assert Insert(x, s, cmp) == [s[0]] + rest;
      assert SortedBy(s[1..], key);
      InsertIsStable(x, s[1..], cmp, key, v);
      InsertBehind(x, s, rest, key, v);
    }
  }

  /** Passing over the first element keeps it in front of the selection. */
  lemma InsertBehind<T>(x: T, s: seq<T>, rest: seq<T>, key: T -> int, v: int)
    requires |s| > 0
    requires WithKey(rest, key, v) == WithKey(s[1..], key, v) + (if key(x) == v then [x] else [])
    ensures WithKey([s[0]] + rest, key, v) == WithKey(s, key, v) + (if key(x) == v then [x] else [])
  {
    var h := if key(s[0]) == v then [s[0]] else [];
    var tail := if key(x) == v then [x] else [];
    var w := WithKey(s[1..], key, v);
    WithKeyCons(s[0], rest, key, v);
    WithKeyCons(s[0], s[1..], key, v);
    assert [s[0]] + s[1..] == s;
    calc {
      WithKey([s[0]] + rest, key, v);
      h + (w + tail);
      { assert h + (w + tail) == (h + w) + tail; }
      (h + w) + tail;
      WithKey(s, key, v) + tail;
    }
  }

  /** Selecting from a sequence with one element in front. */
  lemma WithKeyCons<T>(y: T, rest: seq<T>, key: T -> int, v: int)
    ensures WithKey([y] + rest, key, v) == (if key(y) == v then [y] else []) + WithKey(rest, key, v)
  {
    assert ([y] + rest)[0] == y && ([y] + rest)[1..] == rest;
  }

  /** An element placed in front of a sorted sequence has a key below all of
      it, so it is the only element of its key. */
  lemma InsertInFront<T(!new)>(x: T, s: seq<T>, cmp: (T, T) -> int, key: T -> int, v: int)
    requires KeyComparator(cmp, key) && SortedBy(s, key)
    requires |s| > 0 && cmp(x, s[0]) < 0
    ensures WithKey([x] + s, key, v) == WithKey(s, key, v) + (if key(x) == v then [x] else [])
  {
    var r := [x] + s;
    assert r[0] == x && r[1..] == s;
    if key(x) == v {
      assert forall k :: 0 <= k < |s| ==> key(s[0]) <= key(s[k]);
      WithKeyNone(s, key, v);
    }
  }

  /** The sort is stable: for every key, the elements with that key appear in
      the output in the order they had in the input. */
  lemma {:induction false} SortByIsStable<T(!new)>(s: seq<T>, cmp: (T, T) -> int, key: T -> int, v: int)
    requires KeyComparator(cmp, key)
    ensures WithKey(SortBy(s, cmp), key, v) == WithKey(s, key, v)
  {
    if |s| > 0 {
      var init := s[..|s| - 1];
      var x := s[|s| - 1];
      assert s == init + [x];
      assert SortBy(s, cmp) == Insert(x, SortBy(init, cmp), cmp);
      WithKeyAppend(init, [x], key, v);
      WithKeySingle(x, key, v);
      SortByIsStable(init, cmp, key, v);
      InsertIntoSorted(x, init, cmp, key, v);
    }
  }

  /** One step of the sort: inserting into the sorted prefix appends the new
      element to the selection of its key. */
  lemma InsertIntoSorted<T(!new)>(x: T, init: seq<T>, cmp: (T, T) -> int, key: T -> int, v: int)
    requires KeyComparator(cmp, key)
    ensures WithKey(Insert(x, SortBy(init, cmp), cmp), key, v)
         == WithKey(SortBy(init, cmp), key, v) + (if key(x) == v then [x] else [])
  {
    SortBySorts(init, cmp, key);
    InsertIsStable(x, SortBy(init, cmp), cmp, key, v);
  }

  /** The selection of a single element. */
  lemma WithKeySingle<T>(x: T, key: T -> int, v: int)
    ensures WithKey([x], key, v) == if key(x) == v then [x] else []
  {
    assert [x][1..] == [];
  }

  /** Stability read through any selection that picks out exactly the
      elements of one key: those elements keep their input order too. */
  lemma SortByIsStableFor<T(!new)>(s: seq<T>, cmp: (T, T) -> int, key: T -> int, w: int, sel: T -> int, v: int)
    requires KeyComparator(cmp, key)
    requires forall x :: key(x) == w <==> sel(x) == v
    ensures WithKey(SortBy(s, cmp), sel, v) == WithKey(s, sel, v)
  {
    SortByIsStable(s, cmp, key, w);
    WithKeySameSelection(SortBy(s, cmp), key, w, sel, v);
    WithKeySameSelection(s, key, w, sel, v);
  }
}
