/** The packet queue object between the network thread and the game thread. */
module LdnProxyBuffer {
  import opened BsdTypes
  import P = PacketRegion
  import Ring

  class LdnProxyBuffer {
    const packets: array<P.Entry>
    const dataBuffer: array<byte>
    var packetReadIdx: nat
    var packetWriteIdx: nat
    var packetCount: nat
    var dataReadPos: nat
    var dataWritePos: nat

    ghost predicate Valid()
      reads this, packets, dataBuffer
    {
      && packets.Length == P.MAX_QUEUED_PACKETS && dataBuffer.Length == P.BUFFER_SIZE
      && Ring.WellFormed(P.MAX_QUEUED_PACKETS, packetReadIdx, packetWriteIdx, packetCount)
      && dataReadPos <= P.BUFFER_SIZE && dataWritePos <= P.BUFFER_SIZE
      && forall i | 0 <= i < packetCount :: Ring.View(packets[..], packetReadIdx, packetCount)[i].InBounds()
    }

    ghost function View(): (b: P.BufferView)
      requires Valid()
      reads this, packets, dataBuffer
      ensures P.InBounds(b)
    {
      P.BufferView(Ring.View(packets[..], packetReadIdx, packetCount), dataBuffer[..], dataReadPos, dataWritePos)
    }

    constructor ()
      ensures Valid() && fresh(this) && fresh(packets) && fresh(dataBuffer) && View() == P.EMPTY_BUFFER
    {
      packets := new P.Entry[P.MAX_QUEUED_PACKETS](_ => P.Entry([], 0, 0));
      dataBuffer := new byte[P.BUFFER_SIZE](_ => 0);
      packetReadIdx, packetWriteIdx, packetCount := 0, 0, 0;
      dataReadPos, dataWritePos := 0, 0;
    }

    method Write(header: P.Header, payload: seq<byte>) returns (ok: bool)
      requires Valid()
      modifies this, packets, dataBuffer
      ensures Valid()
      ensures (View(), ok) == P.Write(old(View()), header, payload)
    {
      ghost var before := View();
      var size := |payload|;
      if size > P.MAX_PACKET_DATA_SIZE {
        return false;
      }
      if packetCount >= P.MAX_QUEUED_PACKETS {
        return false;
      }
      var available := P.BUFFER_SIZE - dataWritePos;
      if available < size {
        if dataReadPos > size {
          dataWritePos := 0;
        } else {
          return false;
        }
      }
      hide P.Blit, Ring.View;
      Store(P.Entry(header, size, dataWritePos), payload);
      return true;
    }

    // Queues an entry and copies its bytes to where it says they are.
    method Store(entry: P.Entry, payload: seq<byte>)
      requires Valid() && packetCount < P.MAX_QUEUED_PACKETS
      requires entry.InBounds() && entry.size == |payload| && entry.offset == dataWritePos
      modifies this`dataWritePos, this`packetWriteIdx, this`packetCount, packets, dataBuffer
      ensures Valid()
      ensures View() == P.BufferView(old(View()).entries + [entry], P.Blit(old(View()).data, entry.offset, payload),
                                     dataReadPos, entry.offset + entry.size)
    {
      ghost var before := View();
      Ring.WriteBack(packets[..], packetReadIdx, packetCount, entry);
      packets[packetWriteIdx] := entry;
      forall i | 0 <= i < entry.size {
        dataBuffer[dataWritePos + i] := payload[i];
      }
      assert dataBuffer[..] == P.Blit(before.data, dataWritePos, payload);
      dataWritePos := dataWritePos + entry.size;
      packetWriteIdx := (packetWriteIdx + 1) % P.MAX_QUEUED_PACKETS;
      packetCount := packetCount + 1;
      assert Ring.View(packets[..], packetReadIdx, packetCount) == before.entries + [entry];
    }

    method Read(maxSize: nat) returns (packet: Option<P.Packet>)
      requires Valid()
      modifies this
      ensures Valid()
      ensures (View(), packet) == P.Read(old(View()), maxSize)
    {
      if packetCount == 0 {
        return None;
      }
      ghost var before := View();
      var entry := packets[packetReadIdx];
      assert entry == before.entries[0];
      var size := if entry.size <= maxSize then entry.size else maxSize;
      var data := dataBuffer[entry.offset..entry.offset + size];
      P.PayloadPrefix(before, entry, size);
      dataReadPos := entry.offset + entry.size;
      PopEntry();
      if packetCount == 0 {
        dataReadPos := 0;
        dataWritePos := 0;
      }
      return Some(P.Packet(entry.header, data));
    }

    method PopEntry()
      requires Valid() && packetCount > 0
      modifies this`packetReadIdx, this`packetCount
      ensures Valid() && packetCount == old(packetCount) - 1
      ensures View() == old(View()).(entries := old(View()).entries[1..])
    {
      ghost var before := View();
      Ring.DropFront(packets[..], packetReadIdx, packetCount);
      packetReadIdx := (packetReadIdx + 1) % P.MAX_QUEUED_PACKETS;
      packetCount := packetCount - 1;
      hide Ring.View;
      forall i | 0 <= i < packetCount
        ensures before.entries[1..][i].InBounds()
      {
        assert before.entries[i + 1].InBounds();
      }
    }

    method Peek() returns (next: Option<(P.Header, nat)>)
      requires Valid()
      ensures next == if View().entries == [] then None else Some((View().entries[0].header, View().entries[0].size))
    {
      if packetCount == 0 {
        return None;
      }
      var entry := packets[packetReadIdx];
      return Some((entry.header, entry.size));
    }

    method GetPendingCount() returns (count: nat)
      requires Valid()
      ensures count == |P.Contents(View())|
    {
      count := packetCount;
    }

    method Reset()
      requires Valid()
      modifies this
      ensures Valid() && View() == P.Step(old(View()), P.OpReset)
    {
      packetReadIdx := 0;
      packetWriteIdx := 0;
      packetCount := 0;
      dataReadPos := 0;
      dataWritePos := 0;
    }
  }
}
