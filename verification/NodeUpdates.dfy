/** Reporting which LDN nodes came and went since the last query. */
module NodeUpdates {
  const NODE_COUNT_MAX: nat := 8

  // The code's fourth value, DisconnectAndConnect, is never reported.
  datatype StateChange = NoChange | Connect | Disconnect

  function Change(previous: bool, current: bool): StateChange {
    if current && !previous then Connect else if !current && previous then Disconnect else NoChange
  }

  // One query: the connected flags of the eight nodes, and how many entries the caller's array has.
  datatype Query = Query(connected: seq<bool>, size: nat) {
    predicate Valid() {
      |connected| == NODE_COUNT_MAX
    }

    predicate Covers(i: nat) {
      i < size && i < NODE_COUNT_MAX
    }
  }

  function Reported(previous: seq<bool>, q: Query): seq<StateChange>
    requires |previous| == NODE_COUNT_MAX && q.Valid()
  {
    seq(q.size, i requires 0 <= i < q.size => if i < NODE_COUNT_MAX then Change(previous[i], q.connected[i]) else NoChange)
  }

  function Remembered(previous: seq<bool>, q: Query): seq<bool>
    requires |previous| == NODE_COUNT_MAX && q.Valid()
  {
    seq(NODE_COUNT_MAX, i requires 0 <= i < NODE_COUNT_MAX => if q.Covers(i) then q.connected[i] else previous[i])
  }

  // One report: Connect for a node that came, Disconnect for one that went, nothing for the others and
  // beyond the eight nodes. A node that is not reported on is remembered as it was.
  lemma ReportInFlags(previous: seq<bool>, q: Query, i: nat)
    requires |previous| == 8 && q.Valid()
    ensures |Reported(previous, q)| == q.size && |Remembered(previous, q)| == 8
    ensures i < q.size ==> (Reported(previous, q)[i] == Connect <==> i < 8 && !previous[i] && q.connected[i])
    ensures i < q.size ==> (Reported(previous, q)[i] == Disconnect <==> i < 8 && previous[i] && !q.connected[i])
    ensures i < 8 ==> Remembered(previous, q)[i] == if i < q.size then q.connected[i] else previous[i]
  {}

  // ---- Runs of queries ----

  ghost predicate AllValid(qs: seq<Query>) {
    forall k | 0 <= k < |qs| :: qs[k].Valid()
  }

  // The changes reported for node i over a run, without the entries that report nothing.
  ghost function Deltas(previous: seq<bool>, qs: seq<Query>, i: nat): seq<StateChange>
    requires |previous| == NODE_COUNT_MAX && AllValid(qs)
    decreases |qs|
  {
    if qs == [] then []
    else
      var q := qs[0];
      var here := if q.Covers(i) && Reported(previous, q)[i] != NoChange then [Reported(previous, q)[i]] else [];
      here + Deltas(Remembered(previous, q), qs[1..], i)
  }

  // The flag of node i in the last query that covered it.
  function LastSeen(initially: bool, qs: seq<Query>, i: nat): bool
    requires i < NODE_COUNT_MAX && forall k | 0 <= k < |qs| :: qs[k].Valid()
  {
    if qs == [] then initially
    else
      var last := qs[|qs| - 1];
      assert last.Valid();
      if last.Covers(i) then last.connected[i] else LastSeen(initially, qs[..|qs| - 1], i)
  }

  function Replay(connected: bool, deltas: seq<StateChange>): bool
    decreases |deltas|
  {
    if deltas == [] then connected
    else Replay(if deltas[0] == Connect then true else if deltas[0] == Disconnect then false else connected, deltas[1..])
  }

  // Connect and Disconnect take turns, and the first one changes the starting state.
  predicate Alternates(connected: bool, deltas: seq<StateChange>)
    decreases |deltas|
  {
    deltas != [] ==>
      deltas[0] == (if connected then Disconnect else Connect) && Alternates(!connected, deltas[1..])
  }

  lemma {:induction false} LastSeenFromFront(initially: bool, qs: seq<Query>, i: nat)
    requires i < NODE_COUNT_MAX && AllValid(qs) && qs != []
    ensures LastSeen(initially, qs, i) == LastSeen(if qs[0].Covers(i) then qs[0].connected[i] else initially, qs[1..], i)
  {
    var n := |qs| - 1;
    if n > 0 {
      LastSeenFromFront(initially, qs[..n], i);
      assert qs[1..][..n - 1] == qs[..n][1..];
    }
  }

  // For every run and every node: replaying the reported changes over the remembered state gives the
  // node's flag as of the last query that covered it, and the changes alternate.
  lemma {:induction false} DeltasTelescope(previous: seq<bool>, qs: seq<Query>, i: nat)
    requires |previous| == NODE_COUNT_MAX && AllValid(qs) && i < NODE_COUNT_MAX
    ensures Replay(previous[i], Deltas(previous, qs, i)) == LastSeen(previous[i], qs, i)
    ensures Alternates(previous[i], Deltas(previous, qs, i))
    decreases |qs|
  {
    if qs != [] {
      LastSeenFromFront(previous[i], qs, i);
      DeltasTelescope(Remembered(previous, qs[0]), qs[1..], i);
      var rest := Deltas(Remembered(previous, qs[0]), qs[1..], i);
      assert [] + rest == rest;
      assert ([Connect] + rest)[1..] == rest && ([Disconnect] + rest)[1..] == rest;
    }
  }

  // After a cleanup the first change reported for a node is Connect.
  lemma FirstChangeIsConnect(qs: seq<Query>, i: nat)
    requires AllValid(qs) && i < NODE_COUNT_MAX
    ensures var deltas := Deltas(seq(NODE_COUNT_MAX, _ => false), qs, i);
            (deltas != [] ==> deltas[0] == Connect) && Replay(false, deltas) == LastSeen(false, qs, i)
  {
    DeltasTelescope(seq(NODE_COUNT_MAX, _ => false), qs, i);
  }

  class NodeTracker {
    const prevConnected: array<bool>

    ghost predicate Valid() {
      prevConnected.Length == NODE_COUNT_MAX
    }

    constructor ()
      ensures Valid() && fresh(prevConnected) && prevConnected[..] == seq(NODE_COUNT_MAX, _ => false)
    {
      prevConnected := new bool[NODE_COUNT_MAX](_ => false);
    }

    method Cleanup()
      requires Valid()
      modifies prevConnected
      ensures prevConnected[..] == seq(NODE_COUNT_MAX, _ => false)
    {
      forall i | 0 <= i < NODE_COUNT_MAX {
        prevConnected[i] := false;
      }
    }

    method GetNetworkInfoLatestUpdate(connected: seq<bool>, updates: array<StateChange>)
      requires Valid() && |connected| == NODE_COUNT_MAX
      modifies prevConnected, updates
      ensures updates[..] == old(Reported(prevConnected[..], Query(connected, updates.Length)))
      ensures prevConnected[..] == old(Remembered(prevConnected[..], Query(connected, updates.Length)))
    {
      var updateCount := if updates.Length < NODE_COUNT_MAX then updates.Length else NODE_COUNT_MAX;
      ghost var previous := prevConnected[..];
      ghost var q := Query(connected, updates.Length);
      for i := 0 to updateCount
        invariant forall j | 0 <= j < i :: updates[j] == Reported(previous, q)[j] && prevConnected[j] == connected[j]
        invariant forall j | i <= j < NODE_COUNT_MAX :: prevConnected[j] == previous[j]
      {
        var current := connected[i];
        var prev := prevConnected[i];
        if current && !prev {
          updates[i] := Connect;
        } else if !current && prev {
          updates[i] := Disconnect;
        } else {
          updates[i] := NoChange;
        }
        prevConnected[i] := current;
      }
      for i := updateCount to updates.Length
        invariant prevConnected[..] == Remembered(previous, q)
        invariant forall j | 0 <= j < i :: updates[j] == Reported(previous, q)[j]
      {
        updates[i] := NoChange;
      }
    }
  }
}
