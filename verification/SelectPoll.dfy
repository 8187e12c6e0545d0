/** Readiness queries: the part of Select and Poll that looks at the proxy sockets. */
module SelectPoll {
  import opened ProxySocket
  import opened Manager

  // ---- fd_set: one bit per descriptor ----

  function Mask(bit: nat): bv8
    requires bit < 8
  {
    if bit == 0 then 0x01 else if bit == 1 then 0x02 else if bit == 2 then 0x04 else if bit == 3 then 0x08
    else if bit == 4 then 0x10 else if bit == 5 then 0x20 else if bit == 6 then 0x40 else 0x80
  }

  predicate FdIsSet(fd: int, fds: seq<bv8>) {
    0 <= fd && fd / 8 < |fds| && fds[fd / 8] & Mask(fd % 8) != 0
  }

  lemma MaskBits(b: bv8, i: nat, j: nat)
    requires i < 8 && j < 8
    ensures (b | Mask(i)) & Mask(j) != 0 <==> i == j || b & Mask(j) != 0
  {}

  lemma SameBit(fd: int, other: int)
    requires 0 <= fd && 0 <= other && fd / 8 == other / 8 && fd % 8 == other % 8
    ensures fd == other
  {}

  method FdSetBit(fd: int, fds: array<bv8>)
    modifies fds
    ensures forall other: int ::
              FdIsSet(other, fds[..]) <==> FdIsSet(other, old(fds[..])) || (other == fd && 0 <= fd && fd / 8 < fds.Length)
  {
    if fd < 0 || fd / 8 >= fds.Length {
      return;
    }
    fds[fd / 8] := fds[fd / 8] | Mask(fd % 8);
    forall other: int | 0 <= other && other / 8 == fd / 8
      ensures FdIsSet(other, fds[..]) <==> FdIsSet(other, old(fds[..])) || other == fd
    {
      MaskBits(old(fds[fd / 8]), fd % 8, other % 8);
      if fd % 8 == other % 8 {
        SameBit(fd, other);
      }
    }
  }

  // ---- Select ----

  // The requested descriptors below n that are proxy sockets and ready in one of the three senses.
  ghost function Answer(fdsIn: seq<bv8>, ready: set<int>, n: int): set<int> {
    set fd | fd in ready && 0 <= fd < n && FdIsSet(fd, fdsIn)
  }

  ghost function Readable(views: map<int, SocketView>): set<int> {
    set fd | fd in views && views[fd].queue != []
  }

  ghost function Closed(views: map<int, SocketView>): set<int> {
    set fd | fd in views && views[fd].state == SocketState.Closed
  }

  // The bits of `fds` are the answer, as far as the set is long enough to hold them.
  ghost predicate Holds(fds: seq<bv8>, answer: set<int>) {
    forall fd: int :: FdIsSet(fd, fds) <==> fd in answer && fd / 8 < |fds|
  }

  ghost predicate AskedFor(fd: int, readIn: seq<bv8>, writeIn: seq<bv8>, errorIn: seq<bv8>) {
    FdIsSet(fd, readIn) || FdIsSet(fd, writeIn) || FdIsSet(fd, errorIn)
  }

  datatype SelectOutcome = ReturnedEarly(count: int) | AskRealService

  lemma AnswerGrows(fdsIn: seq<bv8>, ready: set<int>, n: int)
    requires 0 <= n
    ensures Answer(fdsIn, ready, n + 1) == Answer(fdsIn, ready, n) + (if n in ready && FdIsSet(n, fdsIn) then {n} else {})
    ensures n !in Answer(fdsIn, ready, n)
  {}

  // Adds one descriptor to an answer, if `ready`.
  method Mark(ready: bool, fd: int, fds: array<bv8>, ghost answer: set<int>) returns (count: int)
    requires 0 <= fd && Holds(fds[..], answer)
    modifies fds
    ensures Holds(fds[..], answer + if ready then {fd} else {})
    ensures count == if ready then 1 else 0
  {
    hide FdIsSet;
    if ready {
      FdSetBit(fd, fds);
      return 1;
    }
    assert answer + {} == answer;
    return 0;
  }

  method Clear(fds: array<bv8>)
    modifies fds
    ensures Holds(fds[..], {})
  {
    forall i | 0 <= i < fds.Length {
      fds[i] := 0;
    }
  }

  method Select(manager: ProxySocketManager, nfds: int, readIn: seq<bv8>, writeIn: seq<bv8>, errorIn: seq<bv8>,
                readOut: array<bv8>, writeOut: array<bv8>, errorOut: array<bv8>) returns (outcome: SelectOutcome)
    requires manager.Valid()
    requires readOut != writeOut && readOut != errorOut && writeOut != errorOut
    requires {readOut, writeOut, errorOut} !! manager.Repr()
    modifies readOut, writeOut, errorOut
    ensures var views := old(manager.SocketViews());
      var r, w, e := Answer(readIn, Readable(views), nfds), Answer(writeIn, views.Keys, nfds), Answer(errorIn, Closed(views), nfds);
      && Holds(readOut[..], r) && Holds(writeOut[..], w) && Holds(errorOut[..], e)
      && (outcome.ReturnedEarly? <==>
            && (exists fd | 0 <= fd < nfds :: AskedFor(fd, readIn, writeIn, errorIn) && fd in views)
            && (r + w + e != {} || forall fd | 0 <= fd < nfds && AskedFor(fd, readIn, writeIn, errorIn) :: fd in views))
      && (outcome.ReturnedEarly? ==> outcome.count == |r| + |w| + |e|)
  {
    hide Holds, Answer, AskedFor, Readable, Closed, Progress, ProxySocketManager.Valid, ProxySocketManager.SocketViews;
    ghost var views := manager.SocketViews();
    ClearAll(manager, views, readOut, writeOut, errorOut);
    var hasProxySockets, hasRealSockets, readyCount, fd :=
      Scan(manager, nfds, views, readIn, writeIn, errorIn, readOut, writeOut, errorOut);
    ProgressDone(views, FdSets(readIn, writeIn, errorIn), FdSets(readOut[..], writeOut[..], errorOut[..]),
                 nfds, fd, hasProxySockets, hasRealSockets, readyCount);
    if hasProxySockets && !hasRealSockets {
      return ReturnedEarly(readyCount);
    }
    if hasProxySockets && readyCount > 0 {
      return ReturnedEarly(readyCount);
    }
    return AskRealService;
  }

  method ClearAll(manager: ProxySocketManager, ghost views: map<int, SocketView>,
                  readOut: array<bv8>, writeOut: array<bv8>, errorOut: array<bv8>)
    requires manager.Valid() && manager.SocketViews() == views
    requires readOut != writeOut && readOut != errorOut && writeOut != errorOut
    requires {readOut, writeOut, errorOut} !! manager.Repr()
    modifies readOut, writeOut, errorOut
    ensures manager.Valid() && manager.SocketViews() == views
    ensures Holds(readOut[..], {}) && Holds(writeOut[..], {}) && Holds(errorOut[..], {})
  {
    hide Holds, ProxySocketManager.Valid, ProxySocketManager.SocketViews;
    Clear(readOut);
    Clear(writeOut);
    Clear(errorOut);
  }

  // The loop over the descriptors below nfds.
  method Scan(manager: ProxySocketManager, nfds: int, ghost views: map<int, SocketView>,
              readIn: seq<bv8>, writeIn: seq<bv8>, errorIn: seq<bv8>,
              readOut: array<bv8>, writeOut: array<bv8>, errorOut: array<bv8>)
    returns (hasProxySockets: bool, hasRealSockets: bool, readyCount: int, fd: int)
    requires manager.Valid() && manager.SocketViews() == views
    requires readOut != writeOut && readOut != errorOut && writeOut != errorOut
    requires {readOut, writeOut, errorOut} !! manager.Repr()
    requires Holds(readOut[..], {}) && Holds(writeOut[..], {}) && Holds(errorOut[..], {})
    modifies readOut, writeOut, errorOut
    ensures fd == nfds || (fd == 0 && nfds <= 0)
    ensures Progress(views, FdSets(readIn, writeIn, errorIn), FdSets(readOut[..], writeOut[..], errorOut[..]),
                     fd, hasProxySockets, hasRealSockets, readyCount)
  {
    hide Holds, Answer, AskedFor, Readable, Closed, Progress, ProxySocketManager.Valid, ProxySocketManager.SocketViews;
    hasProxySockets, hasRealSockets, readyCount, fd := false, false, 0, 0;
    ghost var ins := FdSets(readIn, writeIn, errorIn);
    ProgressStart(views, ins, FdSets(readOut[..], writeOut[..], errorOut[..]));
    while fd < nfds
      invariant 0 <= fd && (fd <= nfds || fd == 0)
      invariant manager.Valid() && manager.SocketViews() == views
      invariant Progress(views, ins, FdSets(readOut[..], writeOut[..], errorOut[..]),
                         fd, hasProxySockets, hasRealSockets, readyCount)
      decreases nfds - fd
    {
      ghost var before := FdSets(readOut[..], writeOut[..], errorOut[..]);
      ProgressHolds(views, ins, before, fd, hasProxySockets, hasRealSockets, readyCount);
      var asked, isProxy, count := SelectOne(manager, fd, views, readIn, writeIn, errorIn, readOut, writeOut, errorOut,
                                             Answer(readIn, Readable(views), fd), Answer(writeIn, views.Keys, fd),
                                             Answer(errorIn, Closed(views), fd));
      ProgressNext(views, ins, before, FdSets(readOut[..], writeOut[..], errorOut[..]),
                   fd, hasProxySockets, hasRealSockets, readyCount, asked, isProxy, count);
      hasProxySockets := hasProxySockets || (asked && isProxy);
      hasRealSockets := hasRealSockets || (asked && !isProxy);
      readyCount := readyCount + count;
      fd := fd + 1;
    }
  }

  // The three descriptor sets of one call.
  datatype FdSets = FdSets(read: seq<bv8>, write: seq<bv8>, error: seq<bv8>)

  // Among descriptors 0 to fd - 1 one was asked for that is (or is not) a proxy socket.
  ghost predicate Saw(views: map<int, SocketView>, ins: FdSets, fd: int, proxy: bool) {
    exists f | 0 <= f < fd :: AskedFor(f, ins.read, ins.write, ins.error) && (f in views) == proxy
  }

  lemma SawNext(views: map<int, SocketView>, ins: FdSets, fd: int, proxy: bool)
    requires 0 <= fd
    ensures Saw(views, ins, fd + 1, proxy) <==>
            Saw(views, ins, fd, proxy) || (AskedFor(fd, ins.read, ins.write, ins.error) && (fd in views) == proxy)
  {
    hide AskedFor;
  }

  // Descriptors 0 to fd - 1 have been looked at.
  ghost predicate Progress(views: map<int, SocketView>, ins: FdSets, outs: FdSets, fd: int,
                           hasProxy: bool, hasReal: bool, count: int)
  {
    && Holds(outs.read, Answer(ins.read, Readable(views), fd))
    && Holds(outs.write, Answer(ins.write, views.Keys, fd))
    && Holds(outs.error, Answer(ins.error, Closed(views), fd))
    && hasProxy == Saw(views, ins, fd, true)
    && hasReal == Saw(views, ins, fd, false)
    && count == |Answer(ins.read, Readable(views), fd)| + |Answer(ins.write, views.Keys, fd)|
              + |Answer(ins.error, Closed(views), fd)|
  }

  lemma ProgressStart(views: map<int, SocketView>, ins: FdSets, outs: FdSets)
    requires Holds(outs.read, {}) && Holds(outs.write, {}) && Holds(outs.error, {})
    ensures Progress(views, ins, outs, 0, false, false, 0)
  {
    hide Holds;
    assert forall fdsIn, ready :: Answer(fdsIn, ready, 0) == {};
  }

  lemma ProgressHolds(views: map<int, SocketView>, ins: FdSets, outs: FdSets, fd: int,
                      hasProxy: bool, hasReal: bool, count: int)
    requires Progress(views, ins, outs, fd, hasProxy, hasReal, count)
    ensures Holds(outs.read, Answer(ins.read, Readable(views), fd))
    ensures Holds(outs.write, Answer(ins.write, views.Keys, fd))
    ensures Holds(outs.error, Answer(ins.error, Closed(views), fd))
  {}

  lemma ProgressNext(views: map<int, SocketView>, ins: FdSets, before: FdSets, after: FdSets, fd: int,
                     hasProxy: bool, hasReal: bool, count: int, asked: bool, isProxy: bool, more: int)
    requires 0 <= fd && Progress(views, ins, before, fd, hasProxy, hasReal, count)
    requires asked <==> AskedFor(fd, ins.read, ins.write, ins.error)
    requires asked ==> (isProxy <==> fd in views)
    requires Holds(after.read, Answer(ins.read, Readable(views), fd) + if fd in Readable(views) && FdIsSet(fd, ins.read) then {fd} else {})
    requires Holds(after.write, Answer(ins.write, views.Keys, fd) + if fd in views.Keys && FdIsSet(fd, ins.write) then {fd} else {})
    requires Holds(after.error, Answer(ins.error, Closed(views), fd) + if fd in Closed(views) && FdIsSet(fd, ins.error) then {fd} else {})
    requires more == (if fd in Readable(views) && FdIsSet(fd, ins.read) then 1 else 0)
                   + (if fd in views.Keys && FdIsSet(fd, ins.write) then 1 else 0)
                   + (if fd in Closed(views) && FdIsSet(fd, ins.error) then 1 else 0)
    ensures Progress(views, ins, after, fd + 1, hasProxy || (asked && isProxy), hasReal || (asked && !isProxy), count + more)
  {
    hide Holds, FdIsSet, Readable, Closed, AskedFor, Saw, Answer;
    SawNext(views, ins, fd, true);
    SawNext(views, ins, fd, false);
    AnswerNext(ins.read, Readable(views), fd);
    AnswerNext(ins.write, views.Keys, fd);
    AnswerNext(ins.error, Closed(views), fd);
  }

  lemma AnswerNext(fdsIn: seq<bv8>, ready: set<int>, n: int)
    requires 0 <= n
    ensures Answer(fdsIn, ready, n + 1) == Answer(fdsIn, ready, n) + (if n in ready && FdIsSet(n, fdsIn) then {n} else {})
    ensures |Answer(fdsIn, ready, n + 1)| == |Answer(fdsIn, ready, n)| + (if n in ready && FdIsSet(n, fdsIn) then 1 else 0)
  {
    AnswerGrows(fdsIn, ready, n);
    hide Answer, FdIsSet;
  }

  lemma ProgressDone(views: map<int, SocketView>, ins: FdSets, outs: FdSets, nfds: int, fd: int,
                     hasProxy: bool, hasReal: bool, count: int)
    requires Progress(views, ins, outs, fd, hasProxy, hasReal, count)
    requires fd == nfds || (fd == 0 && nfds <= 0)
    ensures var r, w, e := Answer(ins.read, Readable(views), nfds), Answer(ins.write, views.Keys, nfds),
                           Answer(ins.error, Closed(views), nfds);
      && Holds(outs.read, r) && Holds(outs.write, w) && Holds(outs.error, e)
      && count == |r| + |w| + |e| && (count > 0 <==> r + w + e != {})
    ensures hasProxy <==> exists f | 0 <= f < nfds :: AskedFor(f, ins.read, ins.write, ins.error) && f in views
    ensures !hasReal <==> forall f | 0 <= f < nfds && AskedFor(f, ins.read, ins.write, ins.error) :: f in views
  {
    hide Holds, FdIsSet, Readable, Closed, AskedFor;
    AnswerBelowZero(ins.read, Readable(views), nfds, fd);
    AnswerBelowZero(ins.write, views.Keys, nfds, fd);
    AnswerBelowZero(ins.error, Closed(views), nfds, fd);
  }

  // nfds may be negative, and then the loop does not run.
  lemma AnswerBelowZero(fdsIn: seq<bv8>, ready: set<int>, nfds: int, fd: int)
    requires fd == nfds || (fd == 0 && nfds <= 0)
    ensures Answer(fdsIn, ready, nfds) == Answer(fdsIn, ready, fd)
  {}

  // One descriptor: `r`, `w`, `e` are the answers for the descriptors before it.
  method SelectOne(manager: ProxySocketManager, fd: int, ghost views: map<int, SocketView>,
                   readIn: seq<bv8>, writeIn: seq<bv8>, errorIn: seq<bv8>,
                   readOut: array<bv8>, writeOut: array<bv8>, errorOut: array<bv8>,
                   ghost r: set<int>, ghost w: set<int>, ghost e: set<int>)
    returns (asked: bool, isProxy: bool, count: int)
    requires manager.Valid() && manager.SocketViews() == views && 0 <= fd
    requires readOut != writeOut && readOut != errorOut && writeOut != errorOut
    requires {readOut, writeOut, errorOut} !! manager.Repr()
    requires Holds(readOut[..], r) && Holds(writeOut[..], w) && Holds(errorOut[..], e)
    modifies readOut, writeOut, errorOut
    ensures manager.Valid() && manager.SocketViews() == views
    ensures asked <==> AskedFor(fd, readIn, writeIn, errorIn)
    ensures asked ==> (isProxy <==> fd in views)
    ensures Holds(readOut[..], r + if fd in Readable(views) && FdIsSet(fd, readIn) then {fd} else {})
    ensures Holds(writeOut[..], w + if fd in views.Keys && FdIsSet(fd, writeIn) then {fd} else {})
    ensures Holds(errorOut[..], e + if fd in Closed(views) && FdIsSet(fd, errorIn) then {fd} else {})
    ensures count == (if fd in Readable(views) && FdIsSet(fd, readIn) then 1 else 0)
                   + (if fd in views.Keys && FdIsSet(fd, writeIn) then 1 else 0)
                   + (if fd in Closed(views) && FdIsSet(fd, errorIn) then 1 else 0)
  {
    hide Holds, FdIsSet, ProxySocketManager.SocketViews, ProxySocketManager.Valid;
    var inRead, inWrite, inError := FdIsSet(fd, readIn), FdIsSet(fd, writeIn), FdIsSet(fd, errorIn);
    asked, isProxy, count := inRead || inWrite || inError, false, 0;
    assert r + {} == r && w + {} == w && e + {} == e;
    if !asked {
      return;
    }
    var pending, closed;
    pending, closed, isProxy := QueryProxy(manager, fd, views);
    if isProxy {
      hide Readable, Closed;
      count := MarkAll(manager, fd, views, inRead && pending, inWrite, inError && closed, readOut, writeOut, errorOut, r, w, e);
    }
  }

  method MarkAll(manager: ProxySocketManager, fd: int, ghost views: map<int, SocketView>,
                 canRead: bool, canWrite: bool, failed: bool,
                 readOut: array<bv8>, writeOut: array<bv8>, errorOut: array<bv8>,
                 ghost r: set<int>, ghost w: set<int>, ghost e: set<int>) returns (count: int)
    requires manager.Valid() && manager.SocketViews() == views && 0 <= fd
    requires readOut != writeOut && readOut != errorOut && writeOut != errorOut
    requires {readOut, writeOut, errorOut} !! manager.Repr()
    requires Holds(readOut[..], r) && Holds(writeOut[..], w) && Holds(errorOut[..], e)
    modifies readOut, writeOut, errorOut
    ensures manager.Valid() && manager.SocketViews() == views
    ensures Holds(readOut[..], r + if canRead then {fd} else {})
    ensures Holds(writeOut[..], w + if canWrite then {fd} else {})
    ensures Holds(errorOut[..], e + if failed then {fd} else {})
    ensures count == (if canRead then 1 else 0) + (if canWrite then 1 else 0) + (if failed then 1 else 0)
  {
    hide Holds, ProxySocketManager.SocketViews, ProxySocketManager.Valid;
    var readReady := Mark(canRead, fd, readOut, r);
    var writeReady := Mark(canWrite, fd, writeOut, w);
    var errorReady := Mark(failed, fd, errorOut, e);
    count := readReady + writeReady + errorReady;
  }

  // What the manager says about one descriptor.
  method QueryProxy(manager: ProxySocketManager, fd: int, ghost views: map<int, SocketView>)
    returns (pending: bool, closed: bool, isProxy: bool)
    requires manager.Valid() && manager.SocketViews() == views
    ensures isProxy <==> fd in views
    ensures pending <==> fd in Readable(views)
    ensures closed <==> fd in Closed(views)
  {
    var proxy := manager.GetProxySocket(fd);
    if proxy == null {
      return false, false, false;
    }
    pending := proxy.HasPendingData();
    return pending, proxy.state == SocketState.Closed, true;
  }

  ghost function SetBits(fds: seq<bv8>): set<int> {
    set fd | 0 <= fd < 8 * |fds| && FdIsSet(fd, fds)
  }

  // One output set: it has as many set bits as were counted for it exactly when every counted
  // descriptor fits into it, which is so whenever it is at least as long as its input set.
  lemma CountIsExact(fdsIn: seq<bv8>, fdsOut: seq<bv8>, ready: set<int>, nfds: int)
    requires Holds(fdsOut, Answer(fdsIn, ready, nfds))
    ensures var answer := Answer(fdsIn, ready, nfds);
      && (|SetBits(fdsOut)| == |answer| <==> forall fd | fd in answer :: fd / 8 < |fdsOut|)
      && |SetBits(fdsOut)| <= |answer|
      && (|fdsOut| >= |fdsIn| ==> SetBits(fdsOut) == answer)
  {
    var answer, bits := Answer(fdsIn, ready, nfds), SetBits(fdsOut);
    hide Mask;
    assert forall fd: int :: FdIsSet(fd, fdsOut) <==> fd in answer && fd / 8 < |fdsOut|;
    assert bits <= answer;
    assert answer == bits + (answer - bits);
    if |bits| == |answer| {
      assert bits == answer;
    }
  }

  // ---- Poll ----

  const POLLIN: bv16 := 0x0001
  const POLLOUT: bv16 := 0x0004
  const POLLHUP: bv16 := 0x0010

  datatype PollFd = PollFd(fd: int, events: bv16, revents: bv16)

  // What one entry reports; nothing for a descriptor that is no proxy socket.
  ghost function Revents(views: map<int, SocketView>, e: PollFd): bv16 {
    if e.fd !in views then 0
    else
      (if e.events & POLLIN != 0 && e.fd in Readable(views) then POLLIN else 0)
      | (if e.events & POLLOUT != 0 then POLLOUT else 0)
      | (if e.fd in Closed(views) then POLLHUP else 0)
  }

  ghost function Polled(views: map<int, SocketView>, es: seq<PollFd>): seq<PollFd> {
    seq(|es|, i requires 0 <= i < |es| => es[i].(revents := Revents(views, es[i])))
  }

  function CountReady(es: seq<PollFd>): nat {
    if es == [] then 0 else CountReady(es[..|es| - 1]) + if es[|es| - 1].revents != 0 then 1 else 0
  }

  method PollOne(manager: ProxySocketManager, ghost views: map<int, SocketView>, e: PollFd)
    returns (answered: PollFd, isProxy: bool)
    requires manager.Valid() && manager.SocketViews() == views
    ensures answered == e.(revents := Revents(views, e))
    ensures isProxy <==> e.fd in views
  {
    hide Readable, Closed;
    var revents: bv16 := 0;
    var pending, closed;
    pending, closed, isProxy := QueryProxy(manager, e.fd, views);
    if isProxy {
      if e.events & POLLIN != 0 && pending {
        revents := revents | POLLIN;
      }
      if e.events & POLLOUT != 0 {
        revents := revents | POLLOUT;
      }
      if closed {
        revents := revents | POLLHUP;
      }
    }
    answered := e.(revents := revents);
  }

  // Buffers are counted in whole entries. The input is copied only if the output buffer can hold it;
  // otherwise the entries are what the output buffer held before the call.
  method Poll(manager: ProxySocketManager, fdsIn: seq<PollFd>, fdsOut: array<PollFd>, nfds: int)
    returns (outcome: SelectOutcome)
    requires manager.Valid() && fdsOut !in manager.Repr()
    modifies fdsOut
    ensures var views := old(manager.SocketViews());
      var copied := if fdsOut.Length >= |fdsIn| then fdsIn + old(fdsOut[|fdsIn|..]) else old(fdsOut[..]);
      var n := if 0 <= nfds < fdsOut.Length then nfds else fdsOut.Length;
      && |copied| == fdsOut.Length
      && fdsOut[..] == Polled(views, copied[..n]) + copied[n..]
      && (outcome.ReturnedEarly? <==>
            && (exists i | 0 <= i < n :: copied[i].fd in views)
            && (CountReady(fdsOut[..n]) > 0 || forall i | 0 <= i < n :: copied[i].fd in views))
      && (outcome.ReturnedEarly? ==> outcome.count == CountReady(fdsOut[..n]))
  {
    hide ProxySocketManager.Valid, ProxySocketManager.SocketViews, Revents, CountReady;
    ghost var views := manager.SocketViews();
    CopyIn(manager, views, fdsIn, fdsOut);
    ghost var copied := fdsOut[..];
    // A negative nfds becomes a huge size_t.
    var n := if 0 <= nfds < fdsOut.Length then nfds else fdsOut.Length;
    var hasProxySockets, hasRealSockets, readyCount := PollScan(manager, views, fdsOut, n);
    if hasProxySockets && !hasRealSockets {
      return ReturnedEarly(readyCount);
    }
    if hasProxySockets && readyCount > 0 {
      ClearRealSockets(manager, views, fdsOut, n, copied);
      return ReturnedEarly(readyCount);
    }
    return AskRealService;
  }

  method CopyIn(manager: ProxySocketManager, ghost views: map<int, SocketView>, fdsIn: seq<PollFd>, fdsOut: array<PollFd>)
    requires manager.Valid() && manager.SocketViews() == views && fdsOut !in manager.Repr()
    modifies fdsOut
    ensures manager.Valid() && manager.SocketViews() == views
    ensures fdsOut[..] == if fdsOut.Length >= |fdsIn| then fdsIn + old(fdsOut[|fdsIn|..]) else old(fdsOut[..])
  {
    hide ProxySocketManager.Valid, ProxySocketManager.SocketViews;
    if fdsOut.Length >= |fdsIn| {
      forall i | 0 <= i < |fdsIn| {
        fdsOut[i] := fdsIn[i];
      }
    }
  }

  method Store(manager: ProxySocketManager, ghost views: map<int, SocketView>, fdsOut: array<PollFd>, i: nat, e: PollFd)
    requires manager.Valid() && manager.SocketViews() == views && fdsOut !in manager.Repr() && i < fdsOut.Length
    modifies fdsOut
    ensures manager.Valid() && manager.SocketViews() == views
    ensures fdsOut[..] == old(fdsOut[..])[i := e]
  {
    hide ProxySocketManager.Valid, ProxySocketManager.SocketViews;
    fdsOut[i] := e;
  }

  lemma StoreNext(done: seq<PollFd>, es: seq<PollFd>, i: nat, e: PollFd)
    requires i == |done| < |es|
    ensures (done + es[i..])[i] == es[i]
    ensures (done + es[i..])[i := e] == done + [e] + es[i + 1..]
  {}

  method PollScan(manager: ProxySocketManager, ghost views: map<int, SocketView>, fdsOut: array<PollFd>, n: nat)
    returns (hasProxySockets: bool, hasRealSockets: bool, readyCount: int)
    requires manager.Valid() && manager.SocketViews() == views && fdsOut !in manager.Repr() && n <= fdsOut.Length
    modifies fdsOut
    ensures manager.Valid() && manager.SocketViews() == views
    ensures fdsOut[..] == Polled(views, old(fdsOut[..n])) + old(fdsOut[n..])
    ensures hasProxySockets <==> exists j | 0 <= j < n :: old(fdsOut[..n])[j].fd in views
    ensures hasRealSockets <==> exists j | 0 <= j < n :: old(fdsOut[..n])[j].fd !in views
    ensures readyCount == CountReady(fdsOut[..n])
  {
    hide ProxySocketManager.Valid, ProxySocketManager.SocketViews, Revents;
    ghost var copied := fdsOut[..];
    hasProxySockets, hasRealSockets, readyCount := false, false, 0;
    assert Polled(views, copied[..0]) == [];
    hide Polled, CountReady;
    ScanStart(views);
    for i := 0 to n
      invariant manager.Valid() && manager.SocketViews() == views
      invariant fdsOut[..] == Polled(views, copied[..i]) + copied[i..]
      invariant Scanned(views, copied[..i], hasProxySockets, hasRealSockets, readyCount)
    {
      PolledNext(views, copied, i);
      assert fdsOut[i] == copied[i];
      var answered, isProxy := PollOne(manager, views, fdsOut[i]);
      Store(manager, views, fdsOut, i, answered);
      StoreNext(Polled(views, copied[..i]), copied, i, answered);
      ScanNext(views, copied, i, hasProxySockets, hasRealSockets, readyCount);
      if isProxy {
        hasProxySockets := true;
        if answered.revents != 0 {
          readyCount := readyCount + 1;
        }
      } else {
        hasRealSockets := true;
      }
    }
    PolledLength(views, copied[..n]);
    assert fdsOut[..n] == Polled(views, copied[..n]);
  }

  // The flags and the count after the given entries.
  ghost predicate Scanned(views: map<int, SocketView>, es: seq<PollFd>, hasProxy: bool, hasReal: bool, count: int) {
    && (hasProxy <==> exists j | 0 <= j < |es| :: es[j].fd in views)
    && (hasReal <==> exists j | 0 <= j < |es| :: es[j].fd !in views)
    && count == CountReady(Polled(views, es))
  }

  lemma ScanStart(views: map<int, SocketView>)
    ensures Scanned(views, [], false, false, 0)
  {
    assert Polled(views, []) == [];
  }

  lemma PolledLength(views: map<int, SocketView>, es: seq<PollFd>)
    ensures |Polled(views, es)| == |es|
  {}

  lemma PolledNext(views: map<int, SocketView>, es: seq<PollFd>, i: nat)
    requires i < |es|
    ensures |Polled(views, es[..i])| == i
    ensures Polled(views, es[..i + 1]) == Polled(views, es[..i]) + [es[i].(revents := Revents(views, es[i]))]
  {
    hide Revents;
  }

  lemma ScanNext(views: map<int, SocketView>, es: seq<PollFd>, i: nat, hasProxy: bool, hasReal: bool, count: int)
    requires i < |es| && Scanned(views, es[..i], hasProxy, hasReal, count)
    ensures var isProxy := es[i].fd in views;
            Scanned(views, es[..i + 1], hasProxy || isProxy, hasReal || !isProxy,
                    count + if isProxy && Revents(views, es[i]) != 0 then 1 else 0)
  {
    PolledNext(views, es, i);
    var before := Polled(views, es[..i]);
    assert Polled(views, es[..i + 1])[..i] == before;
    if es[i].fd !in views {
      NoAnswer(views, es[i]);
    }
    hide Revents, Polled;
    assert forall j | 0 <= j < i :: es[..i + 1][j] == es[..i][j];
  }

  // Entries of real sockets are cleared once more; they are zero already.
  method ClearRealSockets(manager: ProxySocketManager, ghost views: map<int, SocketView>, fdsOut: array<PollFd>, n: nat,
                          ghost copied: seq<PollFd>)
    requires manager.Valid() && manager.SocketViews() == views && fdsOut !in manager.Repr() && n <= fdsOut.Length <= |copied|
    requires fdsOut[..n] == Polled(views, copied[..n])
    modifies fdsOut
    ensures fdsOut[..] == old(fdsOut[..])
  {
    hide ProxySocketManager.Valid, ProxySocketManager.SocketViews, Revents;
    for i := 0 to n
      invariant manager.Valid() && manager.SocketViews() == views
      invariant fdsOut[..] == old(fdsOut[..])
    {
      assert fdsOut[i] == fdsOut[..n][i];
      var proxy := manager.GetProxySocket(fdsOut[i].fd);
      if proxy == null {
        NoAnswer(views, copied[i]);
        fdsOut[i] := fdsOut[i].(revents := 0);
      }
    }
  }

  lemma NoAnswer(views: map<int, SocketView>, e: PollFd)
    requires e.fd !in views
    ensures Revents(views, e) == 0
  {}
}
