/** RingBuffer<T>: a fixed-capacity circular container that overwrites its
    oldest element once full. The text of lib/util/ringbuffer.js is not
    available; the class is built from the behaviour that the ring buffer test
    suite, test/test.js:10-154, fixes. */
module RingBuffers {
  import opened Wrappers
  import opened Snapshots

  /** The capacity used when none is given. */
  const DefaultCapacity: nat := 100

  /** Message of the error raised for a capacity that is not positive. */
  const CapacityError: string := "capacity must be a positive integer"

  /** Validation done when a buffer is constructed: no capacity means the default,
      a positive one is kept, anything else throws an error whose message starts
      with "capacity". */
  function CheckCapacity(requested: Option<int>): (r: Result<nat, string>)
    ensures r.Ok? <==> (requested.None? || requested.value > 0)
    ensures r.Ok? ==> r.value > 0
    ensures requested.None? ==> r == Ok(DefaultCapacity)
    ensures requested.Some? && requested.value > 0 ==> r == Ok(requested.value)
    ensures r.Err? ==> "capacity" <= r.error
  {
    match requested
    case None => Ok(DefaultCapacity)
    case Some(c) => if c > 0 then Ok(c) else Err(CapacityError)
  }

  /** Slot of the element `age` pushes older than the newest in a buffer of
      capacity `cap` whose write cursor is `w`: (w - 1 - age) mod cap, with the
      wrap written out. */
  function Slot(w: nat, age: nat, cap: nat): (k: nat)
    requires w < cap && age < cap
    ensures k < cap && k == (w - 1 - age) % cap
  {
    if age < w then w - 1 - age else w - 1 - age + cap
  }

  /** The cursor after a write at `w`. */
  function Advance(w: nat, cap: nat): (w': nat)
    requires w < cap
    ensures w' < cap && w' == (w + 1) % cap
  {
    if w + 1 == cap then 0 else w + 1
  }

  /** The storage `slots` with write cursor `w` and `count` elements holds the
      newest `count` of `pushed`: counting back from the slot before the cursor,
      age by age. While filling, the cursor equals the count. */
  ghost predicate Holds<T>(slots: seq<T>, w: nat, count: nat, pushed: seq<T>)
  {
    0 < |slots| && w < |slots| &&
    count == Min(|pushed|, |slots|) &&
    (count < |slots| ==> w == count) &&
    forall age :: 0 <= age < count ==> slots[Slot(w, age, |slots|)] == pushed[|pushed| - 1 - age]
  }

  /** Writing at the cursor and advancing it keeps the storage holding the newest
      pushes, now including `x`. Once full, the slot overwritten held the oldest
      item retained, the one the push discards. */
  lemma PushKeepsHolds<T>(slots: seq<T>, w: nat, count: nat, pushed: seq<T>, x: T)
    requires Holds(slots, w, count, pushed)
    ensures Holds(slots[w := x], Advance(w, |slots|),
                  if count < |slots| then count + 1 else count, pushed + [x])
    ensures count == |slots| ==> slots[w] == pushed[|pushed| - count]
  {
    var cap := |slots|;
    if count == cap {
      assert Slot(w, count - 1, cap) == w;
    }
    var slots', w', count', pushed' := slots[w := x], Advance(w, cap),
      (if count < cap then count + 1 else count), pushed + [x];
    forall age | 0 <= age < count'
      ensures slots'[Slot(w', age, cap)] == pushed'[|pushed'| - 1 - age]
    {
      if age > 0 {
        // older elements keep their slots, one age further from the cursor
        assert Slot(w', age, cap) == Slot(w, age - 1, cap) != w;
      }
    }
  }

  class RingBuffer<T(0)> {
    /** Backing storage; its length is the capacity. */
    const items: array<T>
    /** Write cursor: the slot the next push writes. */
    var w: nat
    /** Number of elements held. */
    var count: nat
    /** Every element ever pushed, oldest first. */
    ghost var pushed: seq<T>

    ghost predicate Valid()
      reads this, items
    {
      Holds(items[..], w, count, pushed)
    }

    /** The elements held, newest first. */
    ghost function Contents(): seq<T>
      reads this, items
    {
      Snapshot(pushed, items.Length)
    }

    /** `new RingBuffer(capacity)` for a capacity that passed validation. */
    constructor (capacity: nat)
      requires capacity > 0
      ensures Valid() && fresh(items)
      ensures items.Length == capacity && pushed == [] && Contents() == []
    {
      items := new T[capacity];
      w, count := 0, 0;
      pushed := [];
    }

    /** `capacity()`: the capacity fixed at construction. */
    method Capacity() returns (c: nat)
      requires Valid()
      ensures c == items.Length && c > 0
    {
      c := items.Length;
    }

    /** `size()`: how many of the pushed elements are held. */
    method Size() returns (n: nat)
      requires Valid()
      ensures n == Min(|pushed|, items.Length) && n == |Contents()|
    {
      n := count;
    }

    /** `push(item)`: `item` becomes the newest element; once full, the oldest
        one is overwritten. */
    method Push(item: T)
      requires Valid()
      modifies this, items
      ensures Valid()
      ensures pushed == old(pushed) + [item]
      ensures count == if old(count) < items.Length then old(count) + 1 else items.Length
    {
      PushKeepsHolds(items[..], w, count, pushed, item);
      items[w] := item;
      w := Advance(w, items.Length);
      count := if count < items.Length then count + 1 else count;
      pushed := pushed + [item];
    }

    /** `peek(age)`: the element pushed `age` pushes before the newest one. */
    method Peek(age: nat) returns (x: T)
      requires Valid() && age < count
      ensures x == pushed[|pushed| - 1 - age]
    {
      x := items[Slot(w, age, items.Length)];
    }

    /** `head()`: the newest element, or null when empty. */
    method Head() returns (x: Option<T>)
      requires Valid()
      ensures x.None? <==> pushed == []
      ensures x.Some? ==> x.value == pushed[|pushed| - 1]
    {
      if count == 0 {
        x := None;
      } else {
        x := Some(items[Slot(w, 0, items.Length)]);
      }
    }

    /** `tail()`: the oldest element still held, or null when empty. It sits at
        the write cursor once the buffer is full and at slot 0 while filling. */
    method Tail() returns (x: Option<T>)
      requires Valid()
      ensures x.None? <==> pushed == []
      ensures x.Some? ==> x.value == pushed[|pushed| - count]
    {
      if count == 0 {
        x := None;
      } else {
        assert Slot(w, count - 1, items.Length) == if count == items.Length then w else 0;
        x := Some(if count == items.Length then items[w] else items[0]);
      }
    }

    /** `toArray()`: the elements held, newest first, read by walking `count`
        slots backward from the newest one. */
    method ToArray() returns (s: seq<T>)
      requires Valid()
      ensures s == Contents()
      ensures |s| == count
      ensures forall age :: 0 <= age < |s| ==> s[age] == pushed[|pushed| - 1 - age]
    {
      s := [];
      var k := if w == 0 then items.Length - 1 else w - 1;
      var age := 0;
      while age < count
        invariant age <= count && |s| == age
        invariant k < items.Length
        invariant age < count ==> k == Slot(w, age, items.Length)
        invariant forall j :: 0 <= j < age ==> s[j] == pushed[|pushed| - 1 - j]
      {
        s := s + [items[k]];
        k := if k == 0 then items.Length - 1 else k - 1;
        age := age + 1;
      }
      SnapshotByEntries(pushed, items.Length, s);
    }
  }

  /** `new RingBuffer(capacity)` with validation: no capacity gives the default,
      an invalid one raises the capacity error. */
  method NewRingBuffer<T(0)>(requested: Option<int>) returns (r: Result<RingBuffer<T>, string>)
    ensures r.Err? <==> CheckCapacity(requested).Err?
    ensures r.Err? ==> r.error == CheckCapacity(requested).error
    ensures r.Ok? ==> fresh(r.value) && fresh(r.value.items) && r.value.Valid()
    ensures r.Ok? ==> r.value.items.Length == CheckCapacity(requested).value
    ensures r.Ok? ==> r.value.pushed == [] && r.value.Contents() == []
  {
    match CheckCapacity(requested)
    case Ok(c) =>
      var rb := new RingBuffer<T>(c);
      r := Ok(rb);
    case Err(e) =>
      r := Err(e);
  }
}
