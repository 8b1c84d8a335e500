/** Counting the elements of a sequence by a key, and how the counts of a sorted sequence locate its
    order statistics. */
module Counting {

  ghost predicate Sorted(s: seq<nat>) {
    forall i, j :: 0 <= i < j < |s| ==> s[i] <= s[j]
  }

  ghost predicate Monotone(key: nat -> nat) {
    forall a, b :: a <= b ==> key(a) <= key(b)
  }

  /** How many elements have key b. */
  function Count<T>(key: T -> nat, s: seq<T>, b: nat): nat {
    if |s| == 0 then 0
    else Count(key, s[..|s| - 1], b) + if key(s[|s| - 1]) == b then 1 else 0
  }

  /** How many elements have a key below k. */
  function CountBelow(key: nat -> nat, s: seq<nat>, k: nat): nat {
    if |s| == 0 then 0
    else CountBelow(key, s[..|s| - 1], k) + if key(s[|s| - 1]) < k then 1 else 0
  }

  lemma CountSnoc<T>(key: T -> nat, s: seq<T>, x: T, b: nat)
    ensures Count(key, s + [x], b) == Count(key, s, b) + if key(x) == b then 1 else 0
  {
    assert (s + [x])[..|s|] == s;
  }

  lemma {:induction false} CountBelowStep(key: nat -> nat, s: seq<nat>, k: nat)
    ensures CountBelow(key, s, 0) == 0
    ensures CountBelow(key, s, k + 1) == CountBelow(key, s, k) + Count(key, s, k)
  {
    if |s| > 0 { CountBelowStep(key, s[..|s| - 1], k); }
  }

  /** In sorted order, the r-th element has a key below k exactly when r elements do. */
  lemma {:induction false} CountBelowSorted(key: nat -> nat, s: seq<nat>, k: nat, r: nat)
    requires Monotone(key) && Sorted(s) && 0 < r <= |s|
    ensures r <= CountBelow(key, s, k) <==> key(s[r - 1]) < k
    ensures CountBelow(key, s, k) <= |s|
  {
    var rest, x := s[..|s| - 1], s[|s| - 1];
    if r < |s| {
      CountBelowSorted(key, rest, k, r);
      assert s[r - 1] <= x;
    } else if |rest| > 0 {
      CountBelowSorted(key, rest, k, |rest|);
      assert rest[|rest| - 1] <= x;
    }
  }

  lemma {:induction false} CountRemove<T>(key: T -> nat, s: seq<T>, i: nat, b: nat)
    requires i < |s|
    ensures Count(key, s, b) == Count(key, s[..i] + s[i + 1..], b) + if key(s[i]) == b then 1 else 0
  {
    var rest := s[..|s| - 1];
    var t := s[..i] + s[i + 1..];
    if i == |s| - 1 {
      assert t == rest;
    } else {
      CountRemove(key, rest, i, b);
      assert t[..|t| - 1] == rest[..i] + rest[i + 1..];
      assert t[|t| - 1] == s[|s| - 1];
    }
  }

  /** Counts do not depend on the order of the elements. */
  lemma {:induction false} CountPermuted<T>(key: T -> nat, s: seq<T>, t: seq<T>, b: nat)
    requires multiset(s) == multiset(t)
    ensures Count(key, s, b) == Count(key, t, b)
    decreases |s|
  {
    if |s| == 0 {
      assert |multiset(t)| == 0;
    } else {
      var x := s[|s| - 1];
      assert x in multiset(t);
      var i :| 0 <= i < |t| && t[i] == x;
      var t' := t[..i] + t[i + 1..];
      assert s == s[..|s| - 1] + [x];
      assert t == t[..i] + [x] + t[i + 1..];
      assert multiset(s[..|s| - 1]) == multiset(s) - multiset{x} == multiset(t) - multiset{x} == multiset(t');
      CountPermuted(key, s[..|s| - 1], t', b);
      CountRemove(key, t, i, b);
    }
  }
}
