/** The ring of the latest log messages. */
module LogBuffer {
  import opened BsdTypes
  import opened CStrings
  import Ring

  const MAX_LOG_MESSAGE_LENGTH: nat := 256
  const MAX_LOG_BUFFER_ENTRIES: nat := 64

  function Stored(message: string): string {
    Copied(message, MAX_LOG_MESSAGE_LENGTH - 1)
  }

  function StoredAll(messages: seq<string>): seq<string> {
    seq(|messages|, i requires 0 <= i < |messages| => Stored(messages[i]))
  }

  // The messages, oldest first, each followed by a newline.
  function Joined(messages: seq<string>): string {
    if messages == [] then []
    else Joined(messages[..|messages| - 1]) + messages[|messages| - 1] + ['\n']
  }

  datatype LogView = LogView(capacity: nat, messages: seq<string>) {
    function Add(message: Option<string>): LogView {
      if message == None || capacity == 0 then this
      else this.(messages := Ring.PushBounded(messages, Stored(message.value), capacity))
    }

    function AddAll(adds: seq<string>): LogView
      decreases |adds|
    {
      if adds == [] then this else Add(Some(adds[0])).AddAll(adds[1..])
    }
  }

  // After any run of adds the buffer holds the last `capacity` messages, cut to 255 characters.
  lemma RunKeepsNewest(v: LogView, adds: seq<string>)
    requires |v.messages| <= v.capacity
    ensures v.AddAll(adds) == v.(messages := Ring.Last(v.messages + StoredAll(adds), v.capacity))
  {
    if v.capacity == 0 {
      NothingFits(v, adds);
    } else {
      AddAllPushes(v, adds);
      Ring.PushAllKeepsNewest(v.messages, StoredAll(adds), v.capacity);
    }
  }

  // `kept` are the characters of the message up to its first NUL, at most 255 of them.
  predicate KeptOf(kept: string, message: string) {
    && |kept| <= 255 && |kept| <= |message|
    && (forall j | 0 <= j < |kept| :: kept[j] == message[j] && message[j] != '\0')
    && (|kept| < 255 && |kept| < |message| ==> message[|kept|] == '\0')
  }

  // After any run on an empty buffer message j is the j-th of the last `capacity` ones, in characters.
  lemma RunInCharacters(capacity: nat, adds: seq<string>)
    ensures var messages := LogView(capacity, []).AddAll(adds).messages;
      && |messages| == (if |adds| < capacity then |adds| else capacity)
      && forall j | 0 <= j < |messages| :: KeptOf(messages[j], adds[|adds| - |messages| + j])
  {
    RunKeepsNewest(LogView(capacity, []), adds);
    hide LogView.AddAll, KeptOf, Stored, Ring.Last, StoredAll;
    assert [] + StoredAll(adds) == StoredAll(adds);
    LastInCharacters(capacity, adds);
  }

  lemma LastInCharacters(capacity: nat, adds: seq<string>)
    ensures var messages := Ring.Last(StoredAll(adds), capacity);
      && |messages| == (if |adds| < capacity then |adds| else capacity)
      && forall j | 0 <= j < |messages| :: KeptOf(messages[j], adds[|adds| - |messages| + j])
  {
    hide KeptOf, Stored;
    forall i | 0 <= i < |adds|
      ensures KeptOf(StoredAll(adds)[i], adds[i])
    {
      StoredInCharacters(adds[i]);
    }
  }

  lemma StoredInCharacters(message: string)
    ensures KeptOf(Stored(message), message)
  {
    CopiedInCharacters(message, 255);
  }

  lemma JoinedSnoc(front: seq<string>, message: string)
    ensures Joined(front + [message]) == Joined(front) + (message + "\n")
  {
    assert (front + [message])[..|front|] == front;
  }

  // In the joined text a message stands between the ones before it and a line feed.
  lemma JoinedAt(messages: seq<string>, k: nat)
    requires k < |messages|
    ensures Joined(messages[..k]) + (messages[k] + "\n") <= Joined(messages)
  {
    hide Joined;
    assert messages[..k + 1] == messages[..k] + [messages[k]];
    JoinedSnoc(messages[..k], messages[k]);
    JoinedPrefix(messages, k + 1);
  }

  lemma {:induction false} NothingFits(v: LogView, adds: seq<string>)
    requires v.capacity == 0
    ensures v.AddAll(adds) == v
    decreases |adds|
  {
    if adds != [] {
      NothingFits(v, adds[1..]);
    }
  }

  lemma {:induction false} AddAllPushes(v: LogView, adds: seq<string>)
    requires v.capacity > 0
    ensures v.AddAll(adds) == v.(messages := Ring.PushAll(v.messages, StoredAll(adds), v.capacity))
    decreases |adds|
  {
    hide Stored;
    if adds != [] {
      AddAllPushes(v.Add(Some(adds[0])), adds[1..]);
      assert StoredAll(adds)[1..] == StoredAll(adds[1..]);
    }
  }

  lemma {:induction false} JoinedPrefix(messages: seq<string>, k: nat)
    requires k <= |messages|
    ensures Joined(messages[..k]) <= Joined(messages)
    decreases |messages|
  {
    var n := |messages|;
    if k == n {
      assert messages[..n] == messages;
    } else {
      JoinedPrefix(messages[..n - 1], k);
      assert messages[..n - 1][..k] == messages[..k];
    }
  }

  // Cutting before or after appending the next message makes no difference.
  lemma JoinStep(messages: seq<string>, i: nat, max: nat)
    requires i < |messages|
    ensures Take(Take(Joined(messages[..i]), max) + messages[i] + ['\n'], max) == Take(Joined(messages[..i + 1]), max)
  {
    assert messages[..i + 1][..i] == messages[..i];
    var all := Joined(messages[..i]);
    assert Joined(messages[..i + 1]) == all + messages[i] + ['\n'];
  }

  // Once the buffer is full, or all messages are in, the rest does not matter.
  lemma JoinDone(messages: seq<string>, i: nat, max: nat)
    requires i <= |messages| && (i == |messages| || |Take(Joined(messages[..i]), max)| == max)
    ensures Take(Joined(messages[..i]), max) == Take(Joined(messages), max)
  {
    JoinedPrefix(messages, i);
    assert messages[..|messages|] == messages;
  }

  class LogBuffer {
    const slots: array<string>
    var capacity: nat
    var head: nat
    var tail: nat
    var count: nat

    ghost predicate Valid()
      reads this
    {
      && slots.Length == MAX_LOG_BUFFER_ENTRIES && capacity <= MAX_LOG_BUFFER_ENTRIES
      && (if capacity == 0 then head == tail == count == 0 else Ring.WellFormed(capacity, head, tail, count))
    }

    ghost function View(): LogView
      requires Valid()
      reads this, slots
    {
      LogView(capacity, if capacity == 0 then [] else Ring.View(slots[..capacity], head, count))
    }

    constructor ()
      ensures Valid() && fresh(this) && fresh(slots) && View() == LogView(MAX_LOG_BUFFER_ENTRIES, [])
    {
      slots := new string[MAX_LOG_BUFFER_ENTRIES](_ => "");
      capacity := MAX_LOG_BUFFER_ENTRIES;
      head, tail, count := 0, 0, 0;
    }

    method Init(capacity: nat)
      requires slots.Length == MAX_LOG_BUFFER_ENTRIES
      modifies this
      ensures Valid()
      ensures View() == LogView(if capacity > MAX_LOG_BUFFER_ENTRIES then MAX_LOG_BUFFER_ENTRIES else capacity, [])
    {
      this.capacity := if capacity > MAX_LOG_BUFFER_ENTRIES then MAX_LOG_BUFFER_ENTRIES else capacity;
      count := 0;
      head := 0;
      tail := 0;
    }

    method Add(message: Option<string>)
      requires Valid()
      modifies this, slots
      ensures Valid()
      ensures View() == old(View()).Add(message)
    {
      if message == None || capacity == 0 {
        return;
      }
      hide Stored;
      ghost var ring := slots[..capacity];
      var text := Stored(message.value);
      if count == capacity {
        Ring.OverwriteFront(ring, head, text);
      } else {
        Ring.WriteBack(ring, head, count, text);
      }
      Ring.SlotIsMod(tail, 1, capacity);
      Ring.SlotIsMod(head, 1, capacity);
      slots[tail] := text;
      assert slots[..capacity] == ring[tail := text];
      tail := (tail + 1) % capacity;
      if count == capacity {
        head := (head + 1) % capacity;
      } else {
        count := count + 1;
      }
    }

    method Get(index: nat) returns (message: Option<string>)
      requires Valid()
      ensures message == if index < |View().messages| then Some(View().messages[index]) else None
    {
      if index >= count {
        return None;
      }
      Ring.SlotIsMod(head, index, capacity);
      return Some(slots[(head + index) % capacity]);
    }

    method GetAll(buffer: array<char>)
      requires Valid()
      modifies buffer
      ensures buffer.Length > 0 ==>
                var text := Take(Joined(View().messages), buffer.Length - 1);
                buffer[..|text|] == text && buffer[|text|] == '\0'
    {
      if buffer.Length == 0 {
        return;
      }
      ghost var q := View().messages;
      buffer[0] := '\0';
      var offset := Fill(buffer, q);
      buffer[offset] := '\0';
    }

    // The copying loop.
    method Fill(buffer: array<char>, ghost q: seq<string>) returns (offset: nat)
      requires Valid() && buffer.Length > 0 && q == View().messages
      modifies buffer
      ensures offset < buffer.Length
      ensures buffer[..offset] == Take(Joined(q), buffer.Length - 1)
    {
      assert |q| == count;
      offset := 0;
      var i := 0;
      assert q[..0] == [] && buffer[..0] == [];
      assert Take(Joined([]), buffer.Length - 1) == [];
      hide Joined, Take, Ring.View, Ring.Slot, Ring.WellFormed;
      while i < count && offset < buffer.Length - 1
        invariant 0 <= i <= count && 0 <= offset < buffer.Length
        invariant buffer[..offset] == Take(Joined(q[..i]), buffer.Length - 1)
        decreases count - i
      {
        offset := AppendEntry(buffer, offset, q, i);
        i := i + 1;
      }
      JoinDone(q, i, buffer.Length - 1);
    }

    method AppendEntry(buffer: array<char>, offset: nat, ghost q: seq<string>, i: nat) returns (newOffset: nat)
      requires Valid() && q == View().messages && i < |q|
      requires offset < buffer.Length - 1 && buffer[..offset] == Take(Joined(q[..i]), buffer.Length - 1)
      modifies buffer
      ensures newOffset < buffer.Length
      ensures buffer[..newOffset] == Take(Joined(q[..i + 1]), buffer.Length - 1)
    {
      hide Joined, Take, Ring.View, Ring.Slot, Ring.WellFormed;
      var message := Get(i);
      JoinStep(q, i, buffer.Length - 1);
      newOffset := Append(buffer, offset, message.value);
    }

    // Copies as much of the message, and then a newline, as fits before the last place of the buffer.
    method Append(buffer: array<char>, offset: nat, message: string) returns (newOffset: nat)
      requires offset < buffer.Length - 1
      modifies buffer
      ensures newOffset < buffer.Length
      ensures buffer[..newOffset] == Take(old(buffer[..offset]) + message + ['\n'], buffer.Length - 1)
    {
      var remaining := buffer.Length - offset - 1;
      var length := if |message| > remaining then remaining else |message|;
      forall k | 0 <= k < length {
        buffer[offset + k] := message[k];
      }
      newOffset := offset + length;
      if newOffset < buffer.Length - 1 {
        buffer[newOffset] := '\n';
        newOffset := newOffset + 1;
      }
    }
  }
}
