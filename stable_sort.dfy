/** Stable sorting by an integer key, as `slice::sort_by(|a, b| key(a).cmp(&key(b)))`
    does. `Sort` is insertion sort; `StableSortIsUnique` shows that every sort
    that is stable gives this same sequence, whatever its algorithm. */
module StableSort {

  predicate SortedBy<T>(s: seq<T>, key: T -> int) {
    forall i, j :: 0 <= i < j < |s| ==> key(s[i]) <= key(s[j])
  }

  /** The elements whose key is `k`, in their order in `s`. */
  function WithKey<T>(s: seq<T>, key: T -> int, k: int): seq<T> {
    if s == [] then []
    else WithKey(s[..|s| - 1], key, k) + (if key(s[|s| - 1]) == k then [s[|s| - 1]] else [])
  }

  /** Places `x` after every element whose key is not greater, scanning from the back. */
  function Insert<T>(x: T, s: seq<T>, key: T -> int): seq<T> {
    if s == [] then [x]
    else if key(s[|s| - 1]) <= key(x) then s + [x]
    else Insert(x, s[..|s| - 1], key) + [s[|s| - 1]]
  }

  function Sort<T>(s: seq<T>, key: T -> int): seq<T> {
    if s == [] then [] else Insert(s[|s| - 1], Sort(s[..|s| - 1], key), key)
  }

  lemma WithKeySnoc<T>(s: seq<T>, x: T, key: T -> int, k: int)
    ensures WithKey(s + [x], key, k) == WithKey(s, key, k) + (if key(x) == k then [x] else [])
  {
    assert (s + [x])[..|s|] == s;
  }

  lemma {:induction false} WithKeyMembers<T>(s: seq<T>, key: T -> int, k: int, x: T)
    ensures x in WithKey(s, key, k) <==> x in s && key(x) == k
    decreases |s|
  {
    if s != [] {
      var s' := s[..|s| - 1];
      WithKeyMembers(s', key, k, x);
      assert s == s' + [s[|s| - 1]];
    }
  }

  lemma {:induction false} InsertMembers<T>(x: T, s: seq<T>, key: T -> int)
    ensures multiset(Insert(x, s, key)) == multiset(s) + multiset{x}
    ensures forall y :: y in Insert(x, s, key) ==> y == x || y in s
    decreases |s|
  {
    if s != [] && key(s[|s| - 1]) > key(x) {
      var s', l := s[..|s| - 1], s[|s| - 1];
      assert s == s' + [l];
      InsertMembers(x, s', key);
    }
  }

  lemma {:induction false} InsertSorted<T>(x: T, s: seq<T>, key: T -> int)
    requires SortedBy(s, key)
    ensures SortedBy(Insert(x, s, key), key)
    decreases |s|
  {
    if s != [] && key(s[|s| - 1]) > key(x) {
      var s', l := s[..|s| - 1], s[|s| - 1];
      assert s == s' + [l];
      InsertSorted(x, s', key);
      InsertMembers(x, s', key);
      var r' := Insert(x, s', key);
      assert Insert(x, s, key) == r' + [l];
      forall i, j | 0 <= i < j < |r' + [l]| ensures key((r' + [l])[i]) <= key((r' + [l])[j]) {
        if j == |r'| {
          var y := r'[i];
          assert y in r';
          if y != x {
            var m :| 0 <= m < |s'| && s'[m] == y;
            assert key(s[m]) <= key(s[|s| - 1]);
          }
        }
      }
    }
  }

  lemma {:induction false} InsertWithKey<T>(x: T, s: seq<T>, key: T -> int, k: int)
    requires SortedBy(s, key)
    ensures WithKey(Insert(x, s, key), key, k) == WithKey(s, key, k) + (if key(x) == k then [x] else [])
    decreases |s|
  {
    if s == [] {
      WithKeySnoc([], x, key, k);
    } else if key(s[|s| - 1]) <= key(x) {
      WithKeySnoc(s, x, key, k);
    } else {
      var s', l := s[..|s| - 1], s[|s| - 1];
      assert s == s' + [l];
      InsertWithKey(x, s', key, k);
      var r' := Insert(x, s', key);
      assert Insert(x, s, key) == r' + [l];
      WithKeySnoc(r', l, key, k);
      WithKeySnoc(s', l, key, k);
    }
  }

  /** Insertion sort gives a sorted permutation that keeps the relative order
      of the elements with equal keys. */
  lemma {:induction false} SortFacts<T>(s: seq<T>, key: T -> int)
    ensures SortedBy(Sort(s, key), key)
    ensures multiset(Sort(s, key)) == multiset(s)
    ensures forall k :: WithKey(Sort(s, key), key, k) == WithKey(s, key, k)
    decreases |s|
  {
    if s != [] {
      var s', x := s[..|s| - 1], s[|s| - 1];
      assert s == s' + [x];
      SortFacts(s', key);
      InsertSorted(x, Sort(s', key), key);
      InsertMembers(x, Sort(s', key), key);
      forall k ensures WithKey(Sort(s, key), key, k) == WithKey(s, key, k) {
        InsertWithKey(x, Sort(s', key), key, k);
        WithKeySnoc(s', x, key, k);
      }
    }
  }

  lemma KeyAtMostLast<T>(s: seq<T>, y: T, key: T -> int)
    requires SortedBy(s, key) && y in s
    ensures key(y) <= key(s[|s| - 1])
  {
    var m :| 0 <= m < |s| && s[m] == y;
    assert m == |s| - 1 || key(s[m]) <= key(s[|s| - 1]);
  }

  /** An element of `r` with key `k` is also in `t` when their per-key subsequences agree. */
  lemma SharedMember<T>(r: seq<T>, t: seq<T>, key: T -> int, x: T)
    requires x in r
    requires WithKey(r, key, key(x)) == WithKey(t, key, key(x))
    ensures x in t
  {
    WithKeyMembers(r, key, key(x), x);
    WithKeyMembers(t, key, key(x), x);
  }

  /** Equal per-key subsequences mean equal keys at the back of two sorted sequences. */
  lemma LastKeysAgree<T>(r: seq<T>, t: seq<T>, key: T -> int)
    requires SortedBy(r, key) && SortedBy(t, key) && r != []
    requires forall k :: WithKey(r, key, k) == WithKey(t, key, k)
    ensures t != [] && key(r[|r| - 1]) == key(t[|t| - 1])
  {
    var x := r[|r| - 1];
    SharedMember(r, t, key, x);
    KeyAtMostLast(t, x, key);
    var y := t[|t| - 1];
    SharedMember(t, r, key, y);
    KeyAtMostLast(r, y, key);
  }

  /** Dropping the same last element from both sides keeps the per-key subsequences equal. */
  lemma DropLastAgrees<T>(r': seq<T>, t': seq<T>, x: T, key: T -> int)
    requires forall k :: WithKey(r' + [x], key, k) == WithKey(t' + [x], key, k)
    ensures forall k :: WithKey(r', key, k) == WithKey(t', key, k)
  {
    forall k ensures WithKey(r', key, k) == WithKey(t', key, k) {
      assert WithKey(r' + [x], key, k) == WithKey(t' + [x], key, k);
      WithKeySnoc(r', x, key, k);
      WithKeySnoc(t', x, key, k);
      var e := if key(x) == k then [x] else [];
      var a, b := WithKey(r', key, k), WithKey(t', key, k);
      assert a == (a + e)[..|a|] && b == (b + e)[..|b|];
    }
  }

  /** A sorted sequence is fixed by the elements it holds for each key, in
      their order: two stable sorts of one input agree. */
  lemma {:induction false} StableSortIsUnique<T>(r: seq<T>, t: seq<T>, key: T -> int)
    requires SortedBy(r, key) && SortedBy(t, key)
    requires forall k :: WithKey(r, key, k) == WithKey(t, key, k)
    ensures r == t
    decreases |r|
  {
    if t != [] && r == [] {
      LastKeysAgree(t, r, key);
    } else if r != [] {
      LastKeysAgree(r, t, key);
      var r', x := r[..|r| - 1], r[|r| - 1];
      var t', y := t[..|t| - 1], t[|t| - 1];
      assert r == r' + [x] && t == t' + [y];
      WithKeySnoc(r', x, key, key(x));
      WithKeySnoc(t', y, key, key(x));
      var wr, wt := WithKey(r, key, key(x)), WithKey(t, key, key(x));
      assert wr == wt;
      assert wr[|wr| - 1] == x && wt[|wt| - 1] == y;
      DropLastAgrees(r', t', x, key);
      StableSortIsUnique(r', t', key);
    }
  }

  /** Inserting into a prefix that ends in a greater key puts `x` before that element. */
  lemma InsertPrefixStep<T>(x: T, s: seq<T>, j: nat, key: T -> int)
    requires 0 < j <= |s| && key(s[j - 1]) > key(x)
    ensures Insert(x, s[..j], key) + s[j..] == Insert(x, s[..j - 1], key) + s[j - 1..]
  {
    assert s[..j][..j - 1] == s[..j - 1];
    assert s[j - 1..] == [s[j - 1]] + s[j..];
  }

  /** Copying the element before the hole into the hole moves the hole back by one. */
  lemma ShiftHole<T>(prev: seq<T>, next: seq<T>, sorted: seq<T>, rest: seq<T>, j: nat)
    requires 0 < j <= |sorted| && j < |prev|
    requires prev == sorted[..j] + [prev[j]] + sorted[j..] + rest
    requires next == prev[j := prev[j - 1]]
    ensures next == sorted[..j - 1] + [next[j - 1]] + sorted[j - 1..] + rest
  {
    assert prev[j - 1] == sorted[j - 1];
    assert sorted[j - 1..] == [sorted[j - 1]] + sorted[j..];
  }

  /** Filling the hole with `x`, then splitting off the untouched tail. */
  lemma FillHole<T>(prev: seq<T>, next: seq<T>, sorted: seq<T>, rest: seq<T>, j: nat, x: T)
    requires j <= |sorted| && j < |prev|
    requires prev == sorted[..j] + [prev[j]] + sorted[j..] + rest
    requires next == prev[j := x]
    ensures next[..|sorted| + 1] == sorted[..j] + [x] + sorted[j..]
    ensures next[|sorted| + 1..] == rest
  {
    assert next == (sorted[..j] + [x] + sorted[j..]) + rest;
  }

  /** One pass of the outer loop: moves `a[i]` back past the greater keys. */
  method InsertLast<T>(a: array<T>, i: nat, key: T -> int)
    requires i < a.Length
    modifies a
    ensures a[..i + 1] == Insert(old(a[i]), old(a[..i]), key)
    ensures a[i + 1..] == old(a[i + 1..])
  {
    var x := a[i];
    ghost var sorted := a[..i];
    ghost var rest := a[i + 1..];
    assert sorted[..i] == sorted && sorted[i..] == [];
    assert a[..] == sorted[..i] + [a[i]] + sorted[i..] + rest;
    var j := i;
    while j > 0 && key(a[j - 1]) > key(x)
      invariant 0 <= j <= i
      invariant a[..] == sorted[..j] + [a[j]] + sorted[j..] + rest
      invariant Insert(x, sorted, key) == Insert(x, sorted[..j], key) + sorted[j..]
    {
      InsertPrefixStep(x, sorted, j, key);
      ghost var prev := a[..];
      a[j] := a[j - 1];
      ShiftHole(prev, a[..], sorted, rest, j);
      j := j - 1;
    }
    assert Insert(x, sorted[..j], key) == sorted[..j] + [x];
    ghost var prev := a[..];
    a[j] := x;
    FillHole(prev, a[..], sorted, rest, j, x);
  }

  /** `sort_by` on a slice: stable, in place. */
  method SortInPlace<T>(a: array<T>, key: T -> int)
    modifies a
    ensures a[..] == Sort(old(a[..]), key)
  {
    ghost var orig := a[..];
    var i := 0;
    while i < a.Length
      invariant 0 <= i <= a.Length
      invariant a[..i] == Sort(orig[..i], key)
      invariant a[i..] == orig[i..]
    {
      InsertLast(a, i, key);
      assert orig[..i + 1] == orig[..i] + [orig[i]];
      i := i + 1;
    }
    assert orig[..a.Length] == orig;
  }
}
