/** When a released port is handed out again: runs of the allocator on one bitset and its hint. */
module PoolRuns {
  import opened BsdTypes
  import opened PortPool

  datatype Op = OpAllocate | OpReserve(index: nat) | OpRelease(index: nat) | OpReleaseAll

  predicate OpValid(op: Op) {
    op.OpAllocate? || op.OpReleaseAll? || op.index < EPHEMERAL_PORT_COUNT
  }

  predicate OpsValid(ops: seq<Op>) {
    forall i | 0 <= i < |ops| :: OpValid(ops[i])
  }

  const EMPTY_SIDE := Side({}, 0)

  function Step(s: Side, op: Op): Side {
    match op
    case OpAllocate => Allocate(s).0
    case OpReserve(index) => Reserve(s, index).0
    case OpRelease(index) => Release(s, index)
    case OpReleaseAll => EMPTY_SIDE
  }

  // The index that this step takes, by allocation or by reservation.
  function Taken(s: Side, op: Op): set<nat> {
    match op
    case OpAllocate => var r := Allocate(s).1; if r.Some? then {r.value} else {}
    case OpReserve(index) => if Reserve(s, index).1 then {index} else {}
    case OpRelease(_) => {}
    case OpReleaseAll => {}
  }

  function Run(s: Side, ops: seq<Op>): Side
    decreases |ops|
  {
    if ops == [] then s else Run(Step(s, ops[0]), ops[1..])
  }

  function TakenIn(s: Side, ops: seq<Op>): set<nat>
    decreases |ops|
  {
    if ops == [] then {} else Taken(s, ops[0]) + TakenIn(Step(s, ops[0]), ops[1..])
  }

  lemma StepValid(s: Side, op: Op)
    requires s.Valid() && OpValid(op)
    ensures Step(s, op).Valid()
  {
    AllocateIsNearestFree(s);
  }

  // After a step, an index that stays free and came before r in search order still does.
  lemma StepKeepsOrder(s: Side, op: Op, p: nat, r: nat)
    requires s.Valid() && OpValid(op) && r < EPHEMERAL_PORT_COUNT
    requires s.Free(p) && Distance(s.hint, p) < Distance(s.hint, r)
    requires p !in Taken(s, op) && (op.OpReleaseAll? ==> p < r)
    ensures Step(s, op).Free(p)
    ensures Distance(Step(s, op).hint, p) < Distance(Step(s, op).hint, r)
  {
    AllocateIsNearestFree(s);
  }

  // If p is free and comes before r, no later run reaches r by allocation without having taken p; a run
  // that releases all ports starts its search over, so there p must be the lower one as well.
  lemma {:induction false} EarlierIsTakenFirst(s: Side, ops: seq<Op>, p: nat, r: nat)
    requires s.Valid() && OpsValid(ops) && r < EPHEMERAL_PORT_COUNT
    requires s.Free(p) && Distance(s.hint, p) < Distance(s.hint, r)
    requires Allocate(Run(s, ops)).1 == Some(r) && (OpReleaseAll in ops ==> p < r)
    ensures p in TakenIn(s, ops)
    decreases |ops|
  {
    if ops == [] {
      AllocateIsNearestFree(s);
    } else if p !in Taken(s, ops[0]) {
      StepKeepsOrder(s, ops[0], p, r);
      StepValid(s, ops[0]);
      EarlierIsTakenFirst(Step(s, ops[0]), ops[1..], p, r);
    }
  }

  // When r is allocated again after `ops`, every other port that was free has been taken meanwhile.
  ghost predicate OthersFirst(s: Side, r: nat, ops: seq<Op>) {
    OpsValid(ops) && Allocate(Run(s, ops)).1 == Some(r) ==>
      forall p: nat | s.Free(p) && p != r :: p in TakenIn(s, ops)
  }

  // Every other free port lies between the hint and r, going upwards.
  ghost predicate HintPast(s: Side, r: nat) {
    forall p: nat | s.Free(p) && p != r :: Distance(s.hint, p) < Distance(s.hint, r)
  }

  // Allocations alone reach a free r, and never take a port that lies beyond it.
  lemma {:induction false} ReachByAllocating(s: Side, r: nat, p: nat) returns (ops: seq<Op>)
    requires s.Valid() && s.Free(r) && p < EPHEMERAL_PORT_COUNT && Distance(s.hint, r) < Distance(s.hint, p)
    ensures OpsValid(ops) && OpReleaseAll !in ops && Allocate(Run(s, ops)).1 == Some(r) && p !in TakenIn(s, ops)
    decreases Distance(s.hint, r)
  {
    AllocateIsNearestFree(s);
    if Allocate(s).1 == Some(r) {
      ops := [];
    } else {
      var q := Allocate(s).1.value;
      var rest := ReachByAllocating(Allocate(s).0, r, p);
      ops := [OpAllocate] + rest;
      assert ops[1..] == rest;
    }
  }

  // A released port r waits for all other free ports, whatever else is allocated, reserved and
  // released, exactly when the hint has not moved beyond the first of them.
  lemma ReuseWaitsExactlyWhenHintPast(s: Side, r: nat)
    requires s.Valid() && s.Free(r)
    ensures (forall ops | OpReleaseAll !in ops :: OthersFirst(s, r, ops)) <==> HintPast(s, r)
  {
    if HintPast(s, r) {
      forall ops, p: nat | OpsValid(ops) && OpReleaseAll !in ops && Allocate(Run(s, ops)).1 == Some(r) && s.Free(p) && p != r
        ensures p in TakenIn(s, ops)
      {
        EarlierIsTakenFirst(s, ops, p, r);
      }
    } else {
      var p: nat :| s.Free(p) && p != r && Distance(s.hint, p) >= Distance(s.hint, r);
      var ops := ReachByAllocating(s, r, p);
      assert !OthersFirst(s, r, ops);
    }
  }

  // In addition every other free port is lower than r.
  ghost predicate LastInBothOrders(s: Side, r: nat) {
    HintPast(s, r) && forall p: nat | s.Free(p) && p != r :: p < r
  }

  // Over all runs, with ReleaseAll among the steps, r must be last in index order too.
  lemma ReuseWaitsExactlyWhenLast(s: Side, r: nat)
    requires s.Valid() && s.Free(r)
    ensures (forall ops :: OthersFirst(s, r, ops)) <==> LastInBothOrders(s, r)
  {
    if LastInBothOrders(s, r) {
      forall ops, p: nat | OpsValid(ops) && Allocate(Run(s, ops)).1 == Some(r) && s.Free(p) && p != r
        ensures p in TakenIn(s, ops)
      {
        EarlierIsTakenFirst(s, ops, p, r);
      }
    } else if !HintPast(s, r) {
      ReuseWaitsExactlyWhenHintPast(s, r);
    } else {
      var p: nat :| s.Free(p) && p != r && p >= r;
      StartOver(s, r, p);
    }
  }

  // After ReleaseAll a lower port is reached without passing a higher one.
  lemma StartOver(s: Side, r: nat, p: nat)
    requires s.Valid() && s.Free(r) && s.Free(p) && r < p
    ensures exists ops :: !OthersFirst(s, r, ops)
  {
    var rest := ReachByAllocating(EMPTY_SIDE, r, p);
    var ops := [OpReleaseAll] + rest;
    assert ops[1..] == rest;
    assert !OthersFirst(s, r, ops);
  }

  // Released straight after it was allocated, a port is the last one to be handed out again; a
  // ReleaseAll changes that exactly when a higher port is free.
  lemma AllocateThenReleaseWaits(s: Side)
    requires s.Valid() && Allocate(s).1.Some?
    ensures var r := Allocate(s).1.value;
            var t := Release(Allocate(s).0, r);
            && (forall ops | OpReleaseAll !in ops :: OthersFirst(t, r, ops))
            && ((forall ops :: OthersFirst(t, r, ops)) <==> forall p: nat | s.Free(p) :: p <= r)
  {
    AllocateIsNearestFree(s);
    var r := Allocate(s).1.value;
    var t := Release(Allocate(s).0, r);
    assert forall p: nat :: t.Free(p) <==> s.Free(p);
    assert HintPast(t, r);
    ReuseWaitsExactlyWhenHintPast(t, r);
    ReuseWaitsExactlyWhenLast(t, r);
  }

  // In particular it comes back at once when port 0 is allocated and released and then all are released.
  lemma ReleaseAllForgetsTheOrder()
    ensures var t := Release(Allocate(EMPTY_SIDE).0, 0);
      && Allocate(EMPTY_SIDE).1 == Some(0) && t.Free(0) && t.Free(1) && HintPast(t, 0)
      && Allocate(Run(t, [OpReleaseAll])).1 == Some(0) && 1 !in TakenIn(t, [OpReleaseAll])
  {
    AllocateIsNearestFree(EMPTY_SIDE);
    assert Allocate(EMPTY_SIDE).1 == Some(0) by {
      assert EMPTY_SIDE.Free(0) && Distance(0, 0) == 0;
    }
  }

  lemma TwoAllocated()
    ensures Run(EMPTY_SIDE, [OpAllocate, OpAllocate, OpRelease(1), OpRelease(0)])
         == Release(Release(Side({0, 1}, 2), 1), 0)
  {
    var s1, s2 := Side({0}, 1), Side({0, 1}, 2);
    FirstAtHint(EMPTY_SIDE);
    FirstAtHint(s1);
    assert Allocate(EMPTY_SIDE).0 == s1 && Allocate(s1).0 == s2;
    assert [OpAllocate, OpAllocate, OpRelease(1), OpRelease(0)][1..] == [OpAllocate, OpRelease(1), OpRelease(0)];
    assert [OpAllocate, OpRelease(1), OpRelease(0)][1..] == [OpRelease(1), OpRelease(0)];
    assert [OpRelease(1), OpRelease(0)][1..] == [OpRelease(0)] && [OpRelease(0)][1..] == [];
  }

  // A free port at the hint is the one that is allocated.
  lemma FirstAtHint(s: Side)
    requires s.Valid() && s.Free(s.hint)
    ensures Allocate(s) == (Side(s.held + {s.hint}, Advance(s.hint)), Some(s.hint))
  {
    AllocateIsNearestFree(s);
    assert Distance(s.hint, s.hint) == 0;
  }

  // With allocations in between it can come back early: indices 0 and 1 are allocated, both are
  // released, and after 16382 allocations index 0 comes back although 1 was free all the time.
  lemma ReleasedPortCanJumpTheQueue()
    ensures var s := Run(EMPTY_SIDE, [OpAllocate, OpAllocate, OpRelease(1), OpRelease(0)]);
            s.Valid() && s.Free(0) && s.Free(1) && exists ops :: !OthersFirst(s, 0, ops)
  {
    var s := Release(Release(Side({0, 1}, 2), 1), 0);
    TwoAllocated();
    assert Distance(s.hint, 0) < Distance(s.hint, 1);
    assert !HintPast(s, 0);
    ReuseWaitsExactlyWhenHintPast(s, 0);
  }
}
