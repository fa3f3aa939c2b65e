# Fixed-capacity message history of echo.io

The echo.io server keeps a rolling history of the messages it has seen.
`History` (lib/history.js) stores messages up to a capacity, overwrites the
oldest once full, and returns them newest to oldest. It delegates everything to
a `RingBuffer`: a fixed-size circular container with a write cursor that
supports `capacity()`, `size()`, `head()`, `tail()`, `peek(age)` and
`toArray()`. The text of lib/util/ringbuffer.js is not available, so the
`RingBuffer` class here is built from the behaviour that the ring buffer test
suite fixes (test/test.js:10-154).

The abstract meaning (module `Snapshots`): after pushing the sequence `pushed`
into a buffer of capacity `cap`, the buffer holds the last `min(|pushed|, cap)`
items. `toArray()` returns them newest first as `Snapshot(pushed, cap)`.

- `wrappers.dfy`: `Option` (JavaScript's `null` from `head()`/`tail()`) and
  `Result` (the error thrown by the constructor).
- `snapshots.dfy`: the snapshot functions and the lemmas about them.
- `ringbuffer.dfy`: capacity validation, with a default of 100 and an error
  whose message starts with `capacity`. Then `class RingBuffer<T>` over a
  `const` `array<T>` whose length is the capacity. It has a write cursor `w`, a `count`, and a ghost `pushed`
  that records every push. `Valid()` ties the slot `(w - 1 - age) mod
  capacity` to the item pushed `age` pushes before the newest (predicate
  `Holds`, which is stated on the storage's values). `toArray()`
  walks `count` slots backward from the newest.
- `history.dfy`: `class History`, which owns one `RingBuffer<string>`. Its
  contracts are lifted from the buffer's.
- `suite.dfy`: the test cases of test/test.js written as client methods. Their
  postconditions are the outcomes the tests expect. Several assertions in the
  suite are written `assert(actual, expected)`, which only checks that
  `actual` is truthy (test/test.js:41-55, 63-75, 83-97, 244). For those, the
  postcondition states the equality that the comments and the neighbouring
  `assert.equal` checks intend. The invalid-capacity test (test/test.js:18-24)
  also passes when nothing is thrown. `InvalidCapacityCase` states the throw
  that the test's title intends, which makes it stronger than the test.

## Model

| member | source | states |
|---|---|---|
| `RingBuffers.CheckCapacity` | test/test.js:13-30 | No capacity gives 100. A positive capacity is kept. Any other capacity is an error, and its message starts with "capacity". The result succeeds exactly when the request is absent or positive, and a successful capacity is always positive. |
| `Snapshots.Snapshot` | lib/history.js:3-5 | A snapshot holds `min(pushes, capacity)` messages, so it holds at most the capacity. |
| `Snapshots.SnapshotAt` | test/test.js:100-117 | Entry `age` of the snapshot is the item pushed `age` pushes before the newest one. This holds for every age below the size, including after wrap-around. |
| `Snapshots.SnapshotPush` | lib/history.js:13-17 | After a push, the pushed item is the newest entry. Below capacity nothing is lost. At capacity, exactly the single oldest entry is discarded. |
| `Snapshots.SnapshotIsNewestPrefix` | lib/history.js:22-25 | The snapshot equals the whole push sequence read newest first, cut to the capacity. |
| `RingBuffers.RingBuffer.constructor` | test/test.js:26-38 | A new buffer has the requested capacity, is valid, and is empty. |
| `RingBuffers.RingBuffer.Capacity` | test/test.js:26-30 | Returns the capacity of the backing storage, which is positive. The storage is a `const` field set by the constructor, so the capacity never changes. |
| `RingBuffers.RingBuffer.Size` | test/test.js:32-56 | Returns `min(pushes, capacity)`, which is the length of the contents. |
| `RingBuffers.PushKeepsHolds` | lib/history.js:3-5 | Writing the new item at the cursor and advancing the cursor with wrap-around has two effects. The storage still holds the newest `min(pushes, capacity)` items, age by age. The one slot that was overwritten held the oldest item, which is no longer retained. |
| `RingBuffers.RingBuffer.Push` | test/test.js:40-55 | Records the item and keeps the buffer valid, so every later read sees the item as the newest. Size grows by one until it reaches the capacity and then stays there. The storage is not replaced. |
| `RingBuffers.RingBuffer.Peek` | test/test.js:100-117 | For an age below the size, returns the item pushed that many pushes before the newest one. |
| `RingBuffers.RingBuffer.Head` | test/test.js:58-76 | Returns null exactly when nothing has been pushed, and otherwise the most recently pushed item. |
| `RingBuffers.RingBuffer.Tail` | test/test.js:78-98 | Returns null exactly when nothing has been pushed, and otherwise the oldest item still held, which is `size` pushes back from the end. |
| `RingBuffers.RingBuffer.ToArray` | test/test.js:119-153 | Returns the contents newest first. Its length is the size, and entry `i` is the item pushed `i` pushes before the newest. This holds both before and after the buffer fills. |
| `RingBuffers.NewRingBuffer` | test/test.js:13-24 | Construction fails exactly when capacity validation fails, with the same message. Otherwise it returns a fresh, empty, valid buffer of the validated capacity. |
| `Histories.History.constructor` | lib/history.js:9-11 | A new history owns a fresh buffer of exactly the given capacity and holds no messages. |
| `Histories.NewHistory` | lib/history.js:9-11 | History construction fails exactly when the buffer's capacity validation fails. Otherwise the new history is empty and has the validated capacity (100 when none is given). |
| `Histories.History.Push` | lib/history.js:13-20 | The message is recorded as the newest entry. Once at capacity, the single oldest message is discarded. The buffer is a `const` field, so a history keeps one buffer for its lifetime. |
| `Histories.History.ToArray` | lib/history.js:22-28 | Returns the messages newest first. The length is `min(messages pushed, capacity)`, never more than the capacity. It only reads. |
| `RingBufferSuite.PushAll` | test/test.js:106 | Pushing a list in order appends it to the buffer's push record. |
| `RingBufferSuite.PeekAll` | test/test.js:112-116 | The loop over `peek(i)` yields, for each `i` below the size, the item pushed `i` pushes before the newest. |
| `RingBufferSuite.RecordAll` | test/test.js:252-255 | Sending a list of messages appends them, in order, to the history's record, and keeps it valid. |
| `RingBufferSuite.DefaultCapacityCase` | test/test.js:13-16 | `new RingBuffer()` has capacity 100. |
| `RingBufferSuite.InvalidCapacityCase` | test/test.js:18-24 | `new RingBuffer(0)` throws an error whose message starts with "capacity". |
| `RingBufferSuite.SpecifiedCapacityCase` | test/test.js:26-30 | `new RingBuffer(50)` has capacity 50. |
| `RingBufferSuite.SizeCase` | test/test.js:32-56 | With capacity 3, the sizes are 0, 1, 2, 3, 3, 3 across five pushes. A fresh buffer has a null head and a null tail. |
| `RingBufferSuite.HeadCase` | test/test.js:58-76 | After each of the pushes of element-1 to element-5, head is the element just pushed. |
| `RingBufferSuite.TailCase` | test/test.js:78-98 | With capacity 3, the tail is element-1 three times, then element-2, then element-3. |
| `RingBufferSuite.PeekCase` | test/test.js:100-117 | Ten pushes into capacity 3 leave size equal to capacity. `peek(i)` equals `a[a.length - 1 - i]` for every `i` below the size. |
| `RingBufferSuite.ToArrayNotFullCase` | test/test.js:119-135 | Three pushes into capacity 10 give a snapshot of length 3 whose entry `i` is `a[a.length - 1 - i]`. |
| `RingBufferSuite.ToArrayFullCase` | test/test.js:137-153 | Ten pushes into capacity 3 give a snapshot of length 3 whose entry `i` is `a[a.length - 1 - i]`. |
| `RingBufferSuite.HistoryCommandCase` | test/test.js:211-245 | 200 messages into a default-capacity history give a snapshot of exactly 100 entries. Entry `i` is `messages[messages.length - i - 1]`. |
| `RingBufferSuite.RepeatedReadCase` | lib/history.js:26-28 | Two `toArray()` calls with no push between them return equal sequences, both equal to the history's contents. |

## Left out

- The text of lib/util/ringbuffer.js is not available. `RingBuffers.RingBuffer` is built from the behaviour that test/test.js:10-154 fixes, on the circular array design (write cursor, count, modulo indexing). The exact text of its capacity error is unknown. The model uses "capacity must be a positive integer", of which only the prefix "capacity" is fixed.
- Non-integer capacities (JavaScript values such as `1.5` or strings) cannot be written in the model. Capacity is requested as an optional `int`.
- RingBuffers.RingBuffer.Peek: `peek(age)` for `age >= size()` is defined neither by lib/history.js nor by test/test.js. It is a precondition. Negative ages are excluded too, by the `nat` type of the argument.
- `toArray()` returns a JavaScript array. The model returns an immutable `seq`, which is a copy by construction, so aliasing between the returned array and the buffer is not modelled.
- RingBufferSuite.PeekCase, ToArrayNotFullCase, ToArrayFullCase, HistoryCommandCase: these are stated for every list of the test's length, not only for the generated `'element-' + i` / `'message-' + i` strings. The `_.range`/`_.each` helpers are scaffolding.
- The echo server and client, their WebSocket transport, `EADDRINUSE`/`ECONNREFUSED` handling, event callbacks and `responseTime` (test/test.js:156-321) are I/O and clock-dependent, so they are not modelled.
- Routing of the HISTORY command, meaning the command itself is not recorded and the reply is a snapshot, is not modelled because it lives in the echo server's message handler, outside the history core. Only the resulting snapshot length and order are modelled, through `History`.
- `historyFilter` (test/test.js:323-385) lives in the echo client, outside the history core, and its matching rule (case-sensitive or not) is not determined. It is not modelled.
- Concurrency: the source runs on a single-threaded event loop, and the model is sequential.
