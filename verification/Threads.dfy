/** Threads that interleave atomic operations: each has a program counter, and conserved quantities are stated by
    counting the threads whose program counter satisfies a predicate. */
module Threads {

  /** The threads whose program counter satisfies p. */
  ghost function Where<P>(pcs: map<nat, P>, p: P -> bool): set<nat> {
    set t | t in pcs && p(pcs[t])
  }

  ghost function CountIf<P>(pcs: map<nat, P>, p: P -> bool): nat {
    |Where(pcs, p)|
  }

  /** Moving one thread changes the count by that thread alone. */
  lemma CountMove<P>(pcs: map<nat, P>, t: nat, q: P, p: P -> bool)
    requires t in pcs
    ensures CountIf(pcs[t := q], p)
         == CountIf(pcs, p) - (if p(pcs[t]) then 1 else 0) + (if p(q) then 1 else 0)
  {
    var others := Where(pcs, p) - {t};
    assert Where(pcs, p) == if p(pcs[t]) then others + {t} else others;
    assert Where(pcs[t := q], p) == if p(q) then others + {t} else others;
  }

  lemma CountNone<P>(pcs: map<nat, P>, p: P -> bool)
    requires forall t :: t in pcs ==> !p(pcs[t])
    ensures CountIf(pcs, p) == 0
  {
    assert Where(pcs, p) == {};
  }

  /** A stronger predicate counts no more threads. */
  lemma CountMonotone<P>(pcs: map<nat, P>, p: P -> bool, q: P -> bool)
    requires forall x :: p(x) ==> q(x)
    ensures CountIf(pcs, p) <= CountIf(pcs, q)
  {
    SubsetSize(Where(pcs, p), Where(pcs, q));
  }

  lemma {:induction false} SubsetSize(a: set<nat>, b: set<nat>)
    requires a <= b
    ensures |a| <= |b|
  {
    if a != {} {
      var x :| x in a;
      SubsetSize(a - {x}, b - {x});
    }
  }
}
