/** The elements of a sequence that satisfy a condition, in order. */
module Filters {

  function Filter<T>(q: seq<T>, f: T -> bool): seq<T> {
    if q == [] then []
    else Filter(q[..|q| - 1], f) + if f(q[|q| - 1]) then [q[|q| - 1]] else []
  }

  // The positions that a filter keeps.
  function Kept<T>(q: seq<T>, f: T -> bool): seq<nat> {
    if q == [] then []
    else Kept(q[..|q| - 1], f) + if f(q[|q| - 1]) then [|q| - 1] else []
  }

  // They are exactly those that satisfy the condition, in increasing order.
  lemma FilterMeaning<T>(q: seq<T>, f: T -> bool)
    ensures |Kept(q, f)| == |Filter(q, f)|
    ensures forall i | 0 <= i < |Kept(q, f)| ::
              Kept(q, f)[i] < |q| && f(q[Kept(q, f)[i]]) && Filter(q, f)[i] == q[Kept(q, f)[i]]
    ensures forall i, j | 0 <= i < j < |Kept(q, f)| :: Kept(q, f)[i] < Kept(q, f)[j]
    ensures forall k: nat | k < |q| && f(q[k]) :: k in Kept(q, f)
  {
    KeptInOrder(q, f);
    hide Kept, Filter;
    forall k: nat | k < |q| && f(q[k])
      ensures k in Kept(q, f)
    {
      KeptWhenever(q, f, k);
    }
  }

  lemma {:induction false} KeptInOrder<T>(q: seq<T>, f: T -> bool)
    ensures |Kept(q, f)| == |Filter(q, f)|
    ensures forall i | 0 <= i < |Kept(q, f)| ::
              Kept(q, f)[i] < |q| && f(q[Kept(q, f)[i]]) && Filter(q, f)[i] == q[Kept(q, f)[i]]
    ensures forall i, j | 0 <= i < j < |Kept(q, f)| :: Kept(q, f)[i] < Kept(q, f)[j]
  {
    if q != [] {
      KeptInOrder(q[..|q| - 1], f);
    }
  }

  lemma {:induction false} KeptWhenever<T>(q: seq<T>, f: T -> bool, k: nat)
    requires k < |q| && f(q[k])
    ensures k in Kept(q, f)
  {
    if k < |q| - 1 {
      KeptWhenever(q[..|q| - 1], f, k);
    }
  }

  lemma {:induction false} FilterMembers<T>(q: seq<T>, f: T -> bool)
    ensures forall x :: x in Filter(q, f) <==> x in q && f(x)
  {
    if q != [] {
      FilterMembers(q[..|q| - 1], f);
      assert q == q[..|q| - 1] + [q[|q| - 1]];
    }
  }
}
