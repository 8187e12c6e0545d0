/** Select and Poll bit by bit: which bits of the answers are set, and what is counted. */
module ReadinessLaws {
  import opened ProxySocket
  import opened SelectPoll

  // Bit fd % 8 of byte fd / 8, the lowest bit first.
  predicate Bit(fds: seq<bv8>, fd: int) {
    0 <= fd < 8 * |fds| && fds[fd / 8] & (1 << (fd % 8)) != 0
  }

  lemma MaskIsShift(bit: nat)
    requires bit < 8
    ensures Mask(bit) == 1 << bit
  {}

  lemma SetIsBit(fd: int, fds: seq<bv8>)
    ensures FdIsSet(fd, fds) <==> Bit(fds, fd)
  {
    if 0 <= fd {
      MaskIsShift(fd % 8);
    }
  }

  // An output set has the bit of a descriptor exactly when it has room for it, the input set has it, the
  // descriptor is below nfds, and a proxy socket is registered for it that has a packet queued (to read),
  // whatever its state (to write), or that is closed (for errors).
  lemma SelectedBits(views: map<int, SocketView>, fdsIn: seq<bv8>, fdsOut: seq<bv8>, nfds: int, fd: int)
    ensures var asked := Bit(fdsIn, fd) && fd < nfds && fd < 8 * |fdsOut| && fd in views;
      && (Holds(fdsOut, Answer(fdsIn, Readable(views), nfds)) ==> (Bit(fdsOut, fd) <==> asked && |views[fd].queue| > 0))
      && (Holds(fdsOut, Answer(fdsIn, views.Keys, nfds)) ==> (Bit(fdsOut, fd) <==> asked))
      && (Holds(fdsOut, Answer(fdsIn, SelectPoll.Closed(views), nfds)) ==>
            (Bit(fdsOut, fd) <==> asked && views[fd].state == SocketState.Closed))
  {
    SetIsBit(fd, fdsIn);
    SetIsBit(fd, fdsOut);
    hide FdIsSet;
    assert Bit(fdsIn, fd) ==> 0 <= fd;
    assert Bit(fdsOut, fd) ==> 0 <= fd < 8 * |fdsOut|;
    hide Bit;
  }

  // A descriptor is looked at when any of the three sets has its bit.
  lemma AskedBits(fd: int, readIn: seq<bv8>, writeIn: seq<bv8>, errorIn: seq<bv8>)
    ensures AskedFor(fd, readIn, writeIn, errorIn) <==> Bit(readIn, fd) || Bit(writeIn, fd) || Bit(errorIn, fd)
  {
    SetIsBit(fd, readIn);
    SetIsBit(fd, writeIn);
    SetIsBit(fd, errorIn);
  }

  // The three bits of an answer of Poll, and no others: POLLIN has value 1, POLLOUT 4, POLLHUP 16.
  lemma PolledBits(views: map<int, SocketView>, e: PollFd)
    ensures var r := Revents(views, e);
      && (r & 1 != 0 <==> e.fd in views && e.events & 1 != 0 && |views[e.fd].queue| > 0)
      && (r & 4 != 0 <==> e.fd in views && e.events & 4 != 0)
      && (r & 16 != 0 <==> e.fd in views && views[e.fd].state == SocketState.Closed)
      && r & 0xFFEA == 0
  {}

  // The count of Poll is the number of entries that report something.
  lemma {:induction false} CountIsNumber(es: seq<PollFd>)
    ensures CountReady(es) == |set i | 0 <= i < |es| && es[i].revents != 0|
  {
    if es != [] {
      var n := |es| - 1;
      CountIsNumber(es[..n]);
      var before := set i | 0 <= i < n && es[..n][i].revents != 0;
      var all := set i | 0 <= i < |es| && es[i].revents != 0;
      assert all == before + if es[n].revents != 0 then {n} else {};
    }
  }
}
