/** History (lib/history.js): stores messages up to a capacity, overwrites the
    oldest once full, and returns them newest to oldest. It hides that it is
    backed by a RingBuffer. */
module Histories {
  import opened Wrappers
  import opened Snapshots
  import opened RingBuffers

  class History {
    /** The ring buffer all operations delegate to. */
    const buffer: RingBuffer<string>

    ghost predicate Valid()
      reads this, buffer, buffer.items
    {
      buffer.Valid()
    }

    /** Every message pushed so far, oldest first. */
    ghost function Messages(): seq<string>
      reads this, buffer
    {
      buffer.pushed
    }

    ghost function Capacity(): nat
      reads this, buffer, buffer.items
    {
      buffer.items.Length
    }

    /** The messages held, newest first. */
    ghost function Contents(): seq<string>
      reads this, buffer, buffer.items
    {
      Snapshot(Messages(), Capacity())
    }

    /** `new History(capacity)` for a capacity that passed validation. */
    constructor (capacity: nat)
      requires capacity > 0
      ensures Valid() && fresh(buffer) && fresh(buffer.items)
      ensures Capacity() == capacity && Messages() == [] && Contents() == []
    {
      buffer := new RingBuffer<string>(capacity);
    }

    /** `push(message)`: records `message` as the newest entry; once at capacity
        the single oldest message is discarded. */
    method Push(message: string)
      requires Valid()
      modifies buffer, buffer.items
      ensures Valid()
      ensures Messages() == old(Messages()) + [message]
      ensures Contents() == [message] + (if |old(Messages())| < Capacity() then old(Contents())
                                         else old(Contents())[..Capacity() - 1])
    {
      SnapshotPush(buffer.pushed, message, buffer.items.Length);
      buffer.Push(message);
    }

    /** `toArray()`: the messages held, newest first; it only reads. */
    method ToArray() returns (s: seq<string>)
      requires Valid()
      ensures s == Contents()
      ensures |s| == Min(|Messages()|, Capacity()) && |s| <= Capacity()
      ensures forall age :: 0 <= age < |s| ==> s[age] == Messages()[|Messages()| - 1 - age]
    {
      s := buffer.ToArray();
    }
  }

  /** `new History(capacity)` with the buffer's validation: no capacity gives
      the default, an invalid one raises the capacity error. */
  method NewHistory(requested: Option<int>) returns (r: Result<History, string>)
    ensures r.Err? <==> CheckCapacity(requested).Err?
    ensures r.Err? ==> r.error == CheckCapacity(requested).error
    ensures r.Ok? ==> fresh(r.value) && fresh(r.value.buffer) && fresh(r.value.buffer.items)
    ensures r.Ok? ==> r.value.Valid() && r.value.Capacity() == CheckCapacity(requested).value
    ensures r.Ok? ==> r.value.Messages() == [] && r.value.Contents() == []
  {
    match CheckCapacity(requested)
    case Ok(c) =>
      var h := new History(c);
      r := Ok(h);
    case Err(e) =>
      r := Err(e);
  }
}
