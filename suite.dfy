/** The ring buffer test suite and the history-size check of test/test.js,
    written as client programs whose postconditions are the expected outcomes.
    Where the suite writes `assert(actual, expected)` (which only tests that
    `actual` is truthy) the postcondition states the comparison its comments
    describe. */
module RingBufferSuite {
  import opened Wrappers
  import opened Snapshots
  import opened RingBuffers
  import opened Histories

  /** `_.each(a, value => rb.push(value))`. */
  method PushAll<T(0)>(rb: RingBuffer<T>, a: seq<T>)
    requires rb.Valid()
    modifies rb, rb.items
    ensures rb.Valid()
    ensures rb.pushed == old(rb.pushed) + a
  {
    var i := 0;
    while i < |a|
      invariant i <= |a|
      invariant rb.Valid()
      invariant rb.pushed == old(rb.pushed) + a[..i]
    {
      rb.Push(a[i]);
      assert a[..i + 1] == a[..i] + [a[i]];
      i := i + 1;
    }
  }

  /** The loop `for (i = 0; i < rb.size(); i++) rb.peek(i)`. */
  method PeekAll<T(0)>(rb: RingBuffer<T>) returns (peeks: seq<T>)
    requires rb.Valid()
    ensures |peeks| == rb.count
    ensures forall i :: 0 <= i < |peeks| ==> peeks[i] == rb.pushed[|rb.pushed| - 1 - i]
  {
    var size := rb.Size();
    peeks := [];
    var i := 0;
    while i < size
      invariant i <= size && |peeks| == i
      invariant forall j :: 0 <= j < i ==> peeks[j] == rb.pushed[|rb.pushed| - 1 - j]
    {
      var x := rb.Peek(i);
      peeks := peeks + [x];
      i := i + 1;
    }
  }

  /** The client sending every message of `messages`, each recorded in `h`. */
  method RecordAll(h: History, messages: seq<string>)
    requires h.Valid()
    modifies h.buffer, h.buffer.items
    ensures h.Valid()
    ensures h.Messages() == old(h.Messages()) + messages
  {
    ghost var before := h.Messages();
    var i := 0;
    while i < |messages|
      invariant i <= |messages|
      invariant h.Valid()
      invariant h.Messages() == before + messages[..i]
    {
      ghost var recorded := h.Messages();
      h.Push(messages[i]);
      assert h.Messages() == recorded + [messages[i]];
      assert messages[..i + 1] == messages[..i] + [messages[i]];
      i := i + 1;
    }
    assert messages[..i] == messages;
  }

  /** "should create a ring buffer with a default capacity of 100" */
  method DefaultCapacityCase() returns (c: nat)
    ensures c == 100
  {
    var r := NewRingBuffer<string>(None);
    c := r.value.Capacity();
  }

  /** "should throw when specifying an invalid capacity" */
  method InvalidCapacityCase() returns (threw: bool, message: string)
    ensures threw && "capacity" <= message
  {
    var r := NewRingBuffer<string>(Some(0));
    threw := r.Err?;
    message := if r.Err? then r.error else "";
  }

  /** "should create a ring buffer with the specified capacity" */
  method SpecifiedCapacityCase() returns (c: nat)
    ensures c == 50
  {
    var r := NewRingBuffer<string>(Some(50));
    c := r.value.Capacity();
  }

  /** "should increase size as elements are pushed (but not greater than
      capacity)": the size before any push and after each of five pushes into
      capacity 3, and head and tail of the fresh buffer. */
  method SizeCase() returns (sizes: seq<nat>, head: Option<string>, tail: Option<string>)
    ensures sizes == [0, 1, 2, 3, 3, 3]
    ensures head == None && tail == None
  {
    var rb := new RingBuffer<string>(3);
    var n0 := rb.Size();
    head := rb.Head();
    tail := rb.Tail();
    rb.Push("element-1");
    assert |rb.pushed| == 1;
    var n1 := rb.Size();
    rb.Push("element-2");
    assert |rb.pushed| == 2;
    var n2 := rb.Size();
    rb.Push("element-3");
    assert |rb.pushed| == 3;
    var n3 := rb.Size();
    rb.Push("element-4");
    assert |rb.pushed| == 4;
    var n4 := rb.Size();
    rb.Push("element-5");
    assert |rb.pushed| == 5;
    var n5 := rb.Size();
    sizes := [n0, n1, n2, n3, n4, n5];
  }

  /** "should return last pushed element for head": head after each push. */
  method HeadCase() returns (heads: seq<Option<string>>)
    ensures heads == [Some("element-1"), Some("element-2"), Some("element-3"),
                      Some("element-4"), Some("element-5")]
  {
    var rb := new RingBuffer<string>(3);
    rb.Push("element-1");
    assert |rb.pushed| == 1;
    var h1 := rb.Head();
    rb.Push("element-2");
    assert |rb.pushed| == 2;
    var h2 := rb.Head();
    rb.Push("element-3");
    assert |rb.pushed| == 3;
    var h3 := rb.Head();
    rb.Push("element-4");
    assert |rb.pushed| == 4;
    var h4 := rb.Head();
    rb.Push("element-5");
    assert |rb.pushed| == 5;
    var h5 := rb.Head();
    heads := [h1, h2, h3, h4, h5];
  }

  /** "should return oldest element for tail": tail after each push; the
      fourth push purges element-1, the fifth element-2. */
  method TailCase() returns (tails: seq<Option<string>>)
    ensures tails == [Some("element-1"), Some("element-1"), Some("element-1"),
                      Some("element-2"), Some("element-3")]
  {
    var rb := new RingBuffer<string>(3);
    rb.Push("element-1");
    assert |rb.pushed| == 1;
    var t1 := rb.Tail();
    rb.Push("element-2");
    assert |rb.pushed| == 2;
    var t2 := rb.Tail();
    rb.Push("element-3");
    assert |rb.pushed| == 3;
    var t3 := rb.Tail();
    rb.Push("element-4");
    assert |rb.pushed| == 4;
    var t4 := rb.Tail();
    rb.Push("element-5");
    assert |rb.pushed| == 5;
    var t5 := rb.Tail();
    tails := [t1, t2, t3, t4, t5];
  }

  /** "should be able to peek at previous elements": ten pushes into capacity
      3; size reaches the capacity and peek(i) is the i-th newest push. */
  method PeekCase(a: seq<string>) returns (size: nat, capacity: nat, peeks: seq<string>)
    requires |a| == 10
    ensures size == capacity == 3 && |peeks| == size
    ensures forall i :: 0 <= i < size ==> peeks[i] == a[|a| - 1 - i]
  {
    var rb := new RingBuffer<string>(3);
    PushAll(rb, a);
    size := rb.Size();
    capacity := rb.Capacity();
    peeks := PeekAll(rb);
  }

  /** "should be able to return array in last-to-first order (buffer not
      full)": three pushes into capacity 10. */
  method ToArrayNotFullCase(a: seq<string>) returns (history: seq<string>)
    requires |a| == 3
    ensures |history| == 3
    ensures forall i :: 0 <= i < |history| ==> history[i] == a[|a| - 1 - i]
  {
    var rb := new RingBuffer<string>(10);
    PushAll(rb, a);
    history := rb.ToArray();
  }

  /** "should be able to return array in last-to-first order (buffer full)":
      ten pushes into capacity 3. */
  method ToArrayFullCase(a: seq<string>) returns (history: seq<string>)
    requires |a| == 10
    ensures |history| == 3
    ensures forall i :: 0 <= i < |history| ==> history[i] == a[|a| - 1 - i]
  {
    var rb := new RingBuffer<string>(3);
    PushAll(rb, a);
    history := rb.ToArray();
  }

  /** "should process HISTORY command to return message history", on the
      history itself: 200 messages into a default-capacity history leave a
      snapshot of the last 100, newest first. */
  method HistoryCommandCase(messages: seq<string>) returns (history: seq<string>)
    requires |messages| == 200
    ensures |history| == 100
    ensures forall i :: 0 <= i < |history| ==> history[i] == messages[|messages| - 1 - i]
  {
    var r := NewHistory(None);
    var h := r.value;
    RecordAll(h, messages);
    history := h.ToArray();
  }

  /** Two reads of a history with no push between them agree. */
  method RepeatedReadCase(h: History) returns (first: seq<string>, second: seq<string>)
    requires h.Valid()
    ensures first == second == h.Contents()
  {
    first := h.ToArray();
    second := h.ToArray();
  }
}
