/**
 * A stable sort by a natural-number key, as Python's `list.sort(key=...)`
 * performs it: the reference definition, its properties, and an in-place
 * version on an array proved equal to it.
 */
module Sorting {

  ghost predicate SortedBy<T>(key: T -> nat, s: seq<T>) {
    forall i, j :: 0 <= i < j < |s| ==> key(s[i]) <= key(s[j])
  }

  /** The subsequence of `s` whose key is `k`; a stable sort leaves it unchanged for every `k`. */
  function WithKey<T>(key: T -> nat, s: seq<T>, k: nat): seq<T> {
    if s == [] then []
    else (if key(s[0]) == k then [s[0]] else []) + WithKey(key, s[1..], k)
  }

  /** Puts `x` in front of the first element whose key is not smaller, so `x` stays ahead of equal keys. */
  function Insert<T>(key: T -> nat, x: T, t: seq<T>): seq<T> {
    if t == [] || key(x) <= key(t[0]) then [x] + t
    else [t[0]] + Insert(key, x, t[1..])
  }

  /** The reference stable sort, ascending by `key`. */
  function StableSort<T>(key: T -> nat, s: seq<T>): seq<T> {
    if s == [] then []
    else Insert(key, s[0], StableSort(key, s[1..]))
  }

  lemma {:induction false} InsertPermutes<T>(key: T -> nat, x: T, t: seq<T>)
    ensures multiset(Insert(key, x, t)) == multiset(t) + multiset{x}
  {
    if t != [] && key(x) > key(t[0]) {
      InsertPermutes(key, x, t[1..]);
      assert t == [t[0]] + t[1..];
    }
  }

  /** The sort rearranges its input: it neither loses nor duplicates an element. */
  lemma {:induction false} StableSortPermutes<T>(key: T -> nat, s: seq<T>)
    ensures multiset(StableSort(key, s)) == multiset(s)
  {
    if s != [] {
      StableSortPermutes(key, s[1..]);
      InsertPermutes(key, s[0], StableSort(key, s[1..]));
      assert s == [s[0]] + s[1..];
    }
  }

  lemma {:induction false} InsertSorted<T>(key: T -> nat, x: T, t: seq<T>)
    requires SortedBy(key, t)
    ensures SortedBy(key, Insert(key, x, t))
  {
    if t != [] && key(x) > key(t[0]) {
      InsertSorted(key, x, t[1..]);
      var r := Insert(key, x, t[1..]);
      InsertPermutes(key, x, t[1..]);
      forall y | y in r ensures key(t[0]) <= key(y) {
        assert y in multiset(r);
      }
    }
  }

  lemma {:induction false} StableSortSorted<T>(key: T -> nat, s: seq<T>)
    ensures SortedBy(key, StableSort(key, s))
  {
    if s != [] {
      StableSortSorted(key, s[1..]);
      InsertSorted(key, s[0], StableSort(key, s[1..]));
    }
  }

  lemma {:induction false} WithKeyConcat<T>(key: T -> nat, s: seq<T>, t: seq<T>, k: nat)
    ensures WithKey(key, s + t, k) == WithKey(key, s, k) + WithKey(key, t, k)
  {
    if s != [] {
      var head := if key(s[0]) == k then [s[0]] else [];
      assert (s + t)[0] == s[0];
      assert (s + t)[1..] == s[1..] + t;
      WithKeyConcat(key, s[1..], t, k);
      calc {
        WithKey(key, s + t, k);
        head + WithKey(key, s[1..] + t, k);
        head + (WithKey(key, s[1..], k) + WithKey(key, t, k));
        (head + WithKey(key, s[1..], k)) + WithKey(key, t, k);
      }
    } else {
      assert s + t == t;
    }
  }

  lemma WithKeySingle<T>(key: T -> nat, x: T, k: nat)
    ensures WithKey(key, [x], k) == if key(x) == k then [x] else []
  {
    assert [x][1..] == [];
  }

  lemma SwapHeads<T>(a: seq<T>, b: seq<T>, w: seq<T>)
    requires a == [] || b == []
    ensures a + (b + w) == b + (a + w)
  {
  }

  lemma {:induction false} InsertWithKey<T>(key: T -> nat, x: T, t: seq<T>, k: nat)
    ensures WithKey(key, Insert(key, x, t), k) == WithKey(key, [x], k) + WithKey(key, t, k)
  {
    if t == [] || key(x) <= key(t[0]) {
      WithKeyConcat(key, [x], t, k);
    } else {
      var rest := Insert(key, x, t[1..]);
      assert Insert(key, x, t) == [t[0]] + rest;
      InsertWithKey(key, x, t[1..], k);
      WithKeyConcat(key, [t[0]], rest, k);
      WithKeyConcat(key, [t[0]], t[1..], k);
      assert [t[0]] + t[1..] == t;
      // t[0] and x have different keys, so at most one of them has key k
      WithKeySingle(key, x, k);
      WithKeySingle(key, t[0], k);
      SwapHeads(WithKey(key, [t[0]], k), WithKey(key, [x], k), WithKey(key, t[1..], k));
    }
  }

  /** Stability: for every key, the elements with that key keep their input order. */
  lemma {:induction false} StableSortKeepsTies<T>(key: T -> nat, s: seq<T>, k: nat)
    ensures WithKey(key, StableSort(key, s), k) == WithKey(key, s, k)
  {
    if s != [] {
      StableSortKeepsTies(key, s[1..], k);
      InsertWithKey(key, s[0], StableSort(key, s[1..]), k);
    }
  }

  lemma {:induction false} WithKeyOccurs<T>(key: T -> nat, s: seq<T>, k: nat)
    requires WithKey(key, s, k) != []
    ensures exists i :: 0 <= i < |s| && key(s[i]) == k
  {
    if key(s[0]) != k {
      WithKeyOccurs(key, s[1..], k);
      var i :| 0 <= i < |s[1..]| && key(s[1..][i]) == k;
      assert key(s[i + 1]) == k;
    }
  }

  lemma DropCommonHead<T>(h: seq<T>, x: seq<T>, y: seq<T>)
    requires h + x == h + y
    ensures x == y
  {
    assert x == (h + x)[|h|..];
    assert y == (h + y)[|h|..];
  }

  lemma {:induction false} SortedUnique<T>(key: T -> nat, u: seq<T>, v: seq<T>)
    requires SortedBy(key, u) && SortedBy(key, v)
    requires forall k :: WithKey(key, u, k) == WithKey(key, v, k)
    ensures u == v
  {
    if u == [] || v == [] {
      assert u != [] ==> WithKey(key, u, key(u[0])) != [];
      assert v != [] ==> WithKey(key, v, key(v[0])) != [];
    } else {
      var m := key(u[0]);
      assert WithKey(key, v, key(v[0])) != [];
      WithKeyOccurs(key, u, key(v[0]));
      assert WithKey(key, u, m) != [];
      WithKeyOccurs(key, v, m);
      assert key(v[0]) == m;
      var wu, wv := WithKey(key, u, m), WithKey(key, v, m);
      assert wu == [u[0]] + WithKey(key, u[1..], m);
      assert wv == [v[0]] + WithKey(key, v[1..], m);
      assert wu == wv;
      assert u[0] == wu[0] == wv[0] == v[0];
      forall k ensures WithKey(key, u[1..], k) == WithKey(key, v[1..], k) {
        var head := if key(u[0]) == k then [u[0]] else [];
        assert WithKey(key, u, k) == head + WithKey(key, u[1..], k);
        assert WithKey(key, v, k) == head + WithKey(key, v[1..], k);
        DropCommonHead(head, WithKey(key, u[1..], k), WithKey(key, v[1..], k));
      }
      SortedUnique(key, u[1..], v[1..]);
      assert u == [u[0]] + u[1..];
      assert v == [v[0]] + v[1..];
    }
  }

  /**
   * Any sorted arrangement of `s` that keeps ties in input order is
   * `StableSort(key, s)`: the result does not depend on the algorithm.
   */
  lemma StableSortUnique<T>(key: T -> nat, s: seq<T>, t: seq<T>)
    requires SortedBy(key, t)
    requires forall k :: WithKey(key, t, k) == WithKey(key, s, k)
    ensures t == StableSort(key, s)
  {
    StableSortSorted(key, s);
    forall k ensures WithKey(key, t, k) == WithKey(key, StableSort(key, s), k) {
      StableSortKeepsTies(key, s, k);
    }
    SortedUnique(key, t, StableSort(key, s));
  }

  /** `x` lands after every smaller element and in front of the rest. */
  lemma {:induction false} InsertAt<T>(key: T -> nat, x: T, smaller: seq<T>, rest: seq<T>)
    requires forall y :: y in smaller ==> key(y) < key(x)
    requires rest == [] || key(x) <= key(rest[0])
    ensures Insert(key, x, smaller + rest) == smaller + [x] + rest
  {
    if smaller == [] {
      assert smaller + rest == rest;
    } else {
      var t := smaller + rest;
      assert t[0] == smaller[0] && t[0] in smaller;
      assert t[1..] == smaller[1..] + rest;
      assert forall y :: y in smaller[1..] ==> y in smaller;
      InsertAt(key, x, smaller[1..], rest);
      assert smaller == [smaller[0]] + smaller[1..];
    }
  }

  /** The state `SiftRight` ends in, read as sequences: `x` has been inserted into the sorted part. */
  lemma SiftedIsInsert<T>(key: T -> nat, before: seq<T>, after: seq<T>, i: nat, j: nat)
    requires |before| == |after| && i <= j < |before|
    requires forall m :: 0 <= m < i ==> after[m] == before[m]
    requires forall m :: i <= m < j ==> after[m] == before[m + 1]
    requires after[j] == before[i]
    requires forall m :: j < m < |after| ==> after[m] == before[m]
    requires forall m :: i < m <= j ==> key(before[m]) < key(before[i])
    requires j + 1 == |before| || key(before[i]) <= key(before[j + 1])
    ensures after[..i] == before[..i]
    ensures after[i..] == Insert(key, before[i], before[i + 1..])
  {
    var sorted, p := before[i + 1..], j - i;
    var smaller, rest := sorted[..p], sorted[p..];
    assert sorted == smaller + rest;
    forall y | y in smaller ensures key(y) < key(before[i]) {
      var m :| 0 <= m < p && smaller[m] == y;
      assert y == before[i + 1 + m];
    }
    InsertAt(key, before[i], smaller, rest);
    assert after[i..] == smaller + [before[i]] + rest;
  }

  /**
   * One step of the in-place sort: `a[i]` moves right past the elements of
   * the sorted part `a[i + 1..]` whose key is smaller.
   */
  method SiftRight<T>(key: T -> nat, a: array<T>, i: nat)
    requires i < a.Length
    modifies a
    ensures a[..i] == old(a[..i])
    ensures a[i..] == Insert(key, old(a[i]), old(a[i + 1..]))
  {
    var x := a[i];
    var j := i;
    while j + 1 < a.Length && key(a[j + 1]) < key(x)
      invariant i <= j < a.Length
      invariant forall m :: 0 <= m < i ==> a[m] == old(a[m])
      invariant forall m :: i <= m < j ==> a[m] == old(a[m + 1])
      invariant forall m :: j < m < a.Length ==> a[m] == old(a[m])
      invariant forall m :: i < m <= j ==> key(old(a[m])) < key(x)
    {
      a[j] := a[j + 1];
      j := j + 1;
    }
    a[j] := x;
    SiftedIsInsert(key, old(a[..]), a[..], i, j);
  }

  /** Sorts `a` in place, stably, by `key`. */
  method SortInPlace<T>(key: T -> nat, a: array<T>)
    modifies a
    ensures a[..] == StableSort(key, old(a[..]))
  {
    ghost var input := a[..];
    var i := a.Length;
    while i > 0
      invariant 0 <= i <= a.Length
      invariant a[..i] == input[..i]
      invariant a[i..] == StableSort(key, input[i..])
    {
      i := i - 1;
      assert input[i..] == [input[i]] + input[i + 1..];
      SiftRight(key, a, i);
    }
    assert a[..] == a[0..];
    assert input == input[0..];
  }

  /** The elements of `s` that satisfy `keep`, in order. */
  function Filter<T>(keep: T -> bool, s: seq<T>): (r: seq<T>)
    ensures forall y :: y in r ==> y in s && keep(y)
    ensures forall y :: y in s && keep(y) ==> y in r
  {
    if s == [] then []
    else (if keep(s[0]) then [s[0]] else []) + Filter(keep, s[1..])
  }

  lemma {:induction false} FilterConcat<T>(keep: T -> bool, s: seq<T>, t: seq<T>)
    ensures Filter(keep, s + t) == Filter(keep, s) + Filter(keep, t)
  {
    if s == [] {
      assert s + t == t;
    } else {
      assert (s + t)[0] == s[0];
      assert (s + t)[1..] == s[1..] + t;
      FilterConcat(keep, s[1..], t);
    }
  }

  lemma InsertBelowAll<T>(key: T -> nat, x: T, u: seq<T>)
    requires forall y :: y in u ==> key(x) <= key(y)
    ensures Insert(key, x, u) == [x] + u
  {
    if u != [] {
      assert u[0] in u;
    }
  }

  lemma FilterSingle<T>(keep: T -> bool, x: T)
    ensures Filter(keep, [x]) == if keep(x) then [x] else []
  {
    assert [x][1..] == [];
  }

  lemma FilterInsertFront<T>(key: T -> nat, keep: T -> bool, x: T, t: seq<T>)
    requires SortedBy(key, t)
    requires t == [] || key(x) <= key(t[0])
    ensures Filter(keep, Insert(key, x, t))
         == if keep(x) then Insert(key, x, Filter(keep, t)) else Filter(keep, t)
  {
    var kept := Filter(keep, t);
    assert Insert(key, x, t) == [x] + t;
    FilterConcat(keep, [x], t);
    FilterSingle(keep, x);
    if keep(x) {
      forall y | y in kept ensures key(x) <= key(y) {
        var i :| 0 <= i < |t| && t[i] == y;
        assert key(t[0]) <= key(t[i]);
      }
      InsertBelowAll(key, x, kept);
    }
  }

  lemma {:induction false} FilterInsert<T>(key: T -> nat, keep: T -> bool, x: T, t: seq<T>)
    requires SortedBy(key, t)
    ensures Filter(keep, Insert(key, x, t))
         == if keep(x) then Insert(key, x, Filter(keep, t)) else Filter(keep, t)
  {
    if t == [] || key(x) <= key(t[0]) {
      FilterInsertFront(key, keep, x, t);
    } else {
      var rest, rf := Insert(key, x, t[1..]), Filter(keep, t[1..]);
      var head := if keep(t[0]) then [t[0]] else [];
      assert Insert(key, x, t) == [t[0]] + rest;
      FilterInsert(key, keep, x, t[1..]);
      FilterConcat(keep, [t[0]], rest);
      FilterSingle(keep, t[0]);
      assert Filter(keep, Insert(key, x, t)) == head + Filter(keep, rest);
      assert Filter(keep, t) == head + rf;
      if !keep(x) {
        assert Filter(keep, rest) == rf;
      } else if !keep(t[0]) {
        assert head + rf == rf;
        assert Filter(keep, Insert(key, x, t)) == Insert(key, x, rf);
      } else {
        assert ([t[0]] + rf)[0] == t[0];
        assert ([t[0]] + rf)[1..] == rf;
        calc {
          Filter(keep, Insert(key, x, t));
          [t[0]] + Insert(key, x, rf);
          Insert(key, x, [t[0]] + rf);
          Insert(key, x, Filter(keep, t));
        }
      }
    }
  }

  /** Filtering a stably sorted sequence is the same as stably sorting the filtered one. */
  lemma {:induction false} FilterCommutesWithSort<T>(key: T -> nat, keep: T -> bool, s: seq<T>)
    ensures Filter(keep, StableSort(key, s)) == StableSort(key, Filter(keep, s))
  {
    if s != [] {
      var rf := Filter(keep, s[1..]);
      FilterCommutesWithSort(key, keep, s[1..]);
      StableSortSorted(key, s[1..]);
      FilterInsert(key, keep, s[0], StableSort(key, s[1..]));
      if keep(s[0]) {
        assert Filter(keep, s) == [s[0]] + rf;
        assert ([s[0]] + rf)[0] == s[0];
        assert ([s[0]] + rf)[1..] == rf;
      } else {
        assert Filter(keep, s) == rf;
      }
    }
  }
}
