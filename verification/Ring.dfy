/** Circular arrays seen as sequences, and the bounded drop-oldest queue they implement. */
module Ring {

  // Position of the i-th element of a ring of n slots that starts at head.
  function Slot(head: nat, i: nat, n: nat): nat {
    if head + i < n then head + i else head + i - n
  }

  // The source writes (head + i) % n.
  lemma SlotIsMod(head: nat, i: nat, n: nat)
    requires head < n && i <= n
    ensures (head + i) % n == Slot(head, i, n) < n
  {
    QuotientIs(head + i, n, if head + i < n then 0 else 1);
  }

  lemma QuotientIs(x: nat, n: nat, q: nat)
    requires 0 < n && q * n <= x < q * n + n
    ensures x / n == q && x % n == x - q * n
  {
    MultipleOutside(x / n - q, n);
    assert (x / n - q) * n == x / n * n - q * n;
  }

  lemma MultipleOutside(d: int, n: nat)
    ensures d >= 1 ==> d * n >= n
    ensures d <= -1 ==> d * n <= 0 - n
  {}

  lemma SlotAtStart(head: nat, n: nat)
    requires head < n
    ensures Slot(head, 0, n) == head
  {}

  lemma NextSlot(head: nat, i: nat, n: nat)
    requires head < n && i < n
    ensures (Slot(head, i, n) + 1) % n == Slot(head, i + 1, n)
  {
    SlotIsMod(head, i, n);
    SlotIsMod(Slot(head, i, n), 1, n);
  }

  predicate WellFormed(n: nat, head: nat, tail: nat, count: nat) {
    head < n && count <= n && tail == Slot(head, count, n)
  }

  ghost function View<T>(ring: seq<T>, head: nat, count: nat): (q: seq<T>)
    requires head < |ring| && count <= |ring|
  {
    seq(count, i requires 0 <= i < count => ring[Slot(head, i, |ring|)])
  }

  lemma SlotInjective(head: nat, i: nat, j: nat, n: nat)
    requires head < n && i < n && j < n && i != j
    ensures Slot(head, i, n) != Slot(head, j, n)
  {}

  // A queue that forgets its oldest element when it is full.
  function PushBounded<T>(q: seq<T>, x: T, capacity: nat): seq<T>
    requires capacity > 0
  {
    if |q| >= capacity then q[1..] + [x] else q + [x]
  }

  function PushAll<T>(q: seq<T>, xs: seq<T>, capacity: nat): seq<T>
    requires capacity > 0
    decreases |xs|
  {
    if xs == [] then q else PushAll(PushBounded(q, xs[0], capacity), xs[1..], capacity)
  }

  function Last<T>(s: seq<T>, n: nat): seq<T> {
    if |s| <= n then s else s[|s| - n..]
  }

  lemma PushThenLast<T>(q: seq<T>, x: T, rest: seq<T>, capacity: nat)
    requires 0 < capacity && |q| <= capacity
    ensures Last(PushBounded(q, x, capacity) + rest, capacity) == Last(q + [x] + rest, capacity)
  {}

  // Pushing one by one keeps exactly the newest `capacity` elements.
  lemma {:induction false} PushAllKeepsNewest<T>(q: seq<T>, xs: seq<T>, capacity: nat)
    requires 0 < capacity && |q| <= capacity
    ensures PushAll(q, xs, capacity) == Last(q + xs, capacity)
    decreases |xs|
  {
    if xs == [] {
      assert q + xs == q;
    } else {
      PushThenLast(q, xs[0], xs[1..], capacity);
      assert q + xs == q + [xs[0]] + xs[1..];
      hide Last;
      PushAllKeepsNewest(PushBounded(q, xs[0], capacity), xs[1..], capacity);
    }
  }

  // Advancing the head drops the first element.
  lemma DropFront<T>(ring: seq<T>, head: nat, count: nat)
    requires head < |ring| && 0 < count <= |ring|
    ensures View(ring, Slot(head, 1, |ring|), count - 1) == View(ring, head, count)[1..]
    ensures Slot(Slot(head, 1, |ring|), count - 1, |ring|) == Slot(head, count, |ring|)
  {}

  // Writing the slot at the tail appends.
  lemma WriteBack<T>(ring: seq<T>, head: nat, count: nat, x: T)
    requires head < |ring| && count < |ring|
    ensures View(ring[Slot(head, count, |ring|) := x], head, count + 1) == View(ring, head, count) + [x]
    ensures Slot(Slot(head, count, |ring|), 1, |ring|) == Slot(head, count + 1, |ring|)
  {
    forall i | 0 <= i < count
      ensures Slot(head, i, |ring|) != Slot(head, count, |ring|)
    {
      SlotInjective(head, i, count, |ring|);
    }
  }

  // In a full ring the tail is the head: overwriting it and advancing the head forgets the first element.
  lemma OverwriteFront<T>(ring: seq<T>, head: nat, x: T)
    requires head < |ring|
    ensures Slot(head, |ring|, |ring|) == head
    ensures View(ring[head := x], Slot(head, 1, |ring|), |ring|) == View(ring, head, |ring|)[1..] + [x]
  {}

  // ---- Compaction in place ----

  // A walk over the ring has read the first k elements of q, moved `kept` of them to the front, and
  // not yet touched the others.
  ghost predicate Compacted<T>(ring: seq<T>, head: nat, q: seq<T>, k: nat, kept: seq<T>) {
    && head < |ring| && |kept| <= k <= |q| <= |ring|
    && (forall j | 0 <= j < |kept| :: ring[Slot(head, j, |ring|)] == kept[j])
    && (forall j | k <= j < |q| :: ring[Slot(head, j, |ring|)] == q[j])
  }

  // The write position never overtakes the read position: an unread element is not overwritten.
  lemma CompactKeep<T>(ring: seq<T>, head: nat, q: seq<T>, k: nat, kept: seq<T>)
    requires Compacted(ring, head, q, k, kept) && k < |q|
    ensures Compacted(ring[Slot(head, |kept|, |ring|) := q[k]], head, q, k + 1, kept + [q[k]])
    ensures Slot(head, |kept|, |ring|) == Slot(head, k, |ring|) <==> |kept| == k
    ensures |kept| == k ==> ring[Slot(head, |kept|, |ring|) := q[k]] == ring
  {}

  lemma CompactSkip<T>(ring: seq<T>, head: nat, q: seq<T>, k: nat, kept: seq<T>)
    requires Compacted(ring, head, q, k, kept) && k < |q|
    ensures Compacted(ring, head, q, k + 1, kept)
  {}

  lemma CompactDone<T>(ring: seq<T>, head: nat, q: seq<T>, kept: seq<T>)
    requires Compacted(ring, head, q, |q|, kept)
    ensures View(ring, head, |kept|) == kept
  {}
}
