# SimpleCDLL in Dafny

A model of `SimpleCDLL`, a circular doubly-linked list with one dummy node
that marks both its front and its back, and of the fail-fast list iterator
it hands out. The iterator is a cursor that sits between two neighbouring
nodes. It moves with `next()` and `previous()`, reports `hasNext()`,
`hasPrevious()`, `nextIndex()` and `previousIndex()`, and changes the list
with `add`, `remove` and `set`. The list counts its structural changes in
`updates`, and every cursor keeps a snapshot of that count. Once the two
differ, every operation of that cursor fails with a concurrent-modification
error.

The model has three layers:

- `CursorSpec` (`cursor_spec.dfy`) is the abstract view. A list is the
  sequence of its values plus its change counter. A cursor is its position,
  its update target and its snapshot. Every cursor operation is a function
  from the old states to the result and the new states. `Coherent` is what
  holds of every cursor of a list: the snapshot is never ahead of the
  counter, and while the two agree the cursor lies inside the list.
  - The update target is the node `set` and `remove` act on. It is none
    (`NoTarget`), the value just behind the cursor (`Behind`, after `next()`)
    or the value just ahead of it (`Ahead`, after `previous()`).
- `CircularList` (`circular_list.dfy`) holds the heap objects: `Node`,
  `SimpleCDLL` and `Cursor`, with the source's fields, updated in place.
  - A ghost `ring` lists the dummy, the element nodes in order, and the dummy
    again. `SimpleCDLL.Valid()` says every node's `next` and `prev` are its
    neighbours in `ring`, and the element values are the ghost `contents`.
  - Every public cursor method is proved to return, and to leave behind,
    exactly what the matching `CursorSpec` function computes from the old
    states. The helpers `FailFast` and `NoteChange`, which are not part of
    the `ListIterator` interface, and `Unlink`, which holds the pointer
    steps of `remove`, are specified directly on the heap fields.
- `CursorLaws` (`cursor_laws.dfy`) proves the laws of the abstract view:
  - queries agree with moves;
  - steps undo each other;
  - the rules of the update target;
  - failing fast, and one cursor invalidating another;
  - insertion, traversal in both directions, draining, and a round trip.
- `Scenarios` (`scenarios.dfy`) holds three clients of the heap classes,
  each with two cursors on one list. One shows a cursor's `add` making
  another cursor fail fast. One shows a `set` leaving another cursor
  usable. One shows a failed `remove()` (no target right after an `add`)
  changing nothing, so another cursor still reads the list.

## Model

| member | source | states |
|---|---|---|
| `CursorSpec.Start` | src/SimpleCDLL.java:58-81 | a new cursor is at position 0 with no update target and the list's current counter, so it is in sync and coherent |
| `CursorSpec.Empty` | src/SimpleCDLL.java:36-42 | a new list is empty: a fresh cursor on it has neither a next nor a previous value |
| `CursorSpec.HasNext` | src/SimpleCDLL.java:107-111 | `hasNext()` fails exactly when the cursor is out of sync, and then only with ConcurrentModification |
| `CursorSpec.HasPrevious` | src/SimpleCDLL.java:113-117 | `hasPrevious()` fails exactly when the cursor is out of sync, and then only with ConcurrentModification |
| `CursorSpec.NextIndex` | src/SimpleCDLL.java:135-138 | `nextIndex()` fails exactly when out of sync, only with ConcurrentModification; for a coherent cursor it lies between 0 and the size |
| `CursorSpec.PreviousIndex` | src/SimpleCDLL.java:140-143 | `previousIndex()` fails exactly when out of sync, only with ConcurrentModification; for a coherent cursor it lies between -1 and the size minus one |
| `CursorSpec.Next` | src/SimpleCDLL.java:119-133 | `next()` never moves a cursor out of the list: from a coherent cursor it yields a coherent one. It fails fast when out of sync and fails with NoSuchElement at the end; otherwise it returns the value at the position, steps past it and makes it the target |
| `CursorSpec.Previous` | src/SimpleCDLL.java:145-159 | `previous()` never moves a cursor out of the list: from a coherent cursor it yields a coherent one. It fails fast, and fails with NoSuchElement at the front; otherwise it returns the value before the position, steps back over it and makes it the target |
| `CursorSpec.Add` | src/SimpleCDLL.java:87-105 | `add(v)` keeps the cursor coherent with the grown list and never lowers the counter. It inserts `v` at the cursor, steps past it, clears the target and bumps both counters |
| `CursorSpec.Remove` | src/SimpleCDLL.java:161-187 | `remove()` keeps the cursor coherent with the shrunk list and never lowers the counter. It fails with IllegalState without a target; otherwise it deletes the target value, moves the position back when the target was behind, clears the target and bumps both counters |
| `CursorSpec.Set` | src/SimpleCDLL.java:189-202 | `set(v)` keeps the cursor coherent, leaves both counters, the position and the list's length as they were, so it is not a structural change. It fails with IllegalState without a target; otherwise it replaces the target value, clears the target and leaves both counters alone |
| `CircularList.Node.constructor` | src/SimpleCDLL.java:37 | a new node holds the given value and links |
| `CircularList.Node.InsertAfter` | src/SimpleCDLL.java:91 | a fresh node holding `v` is linked in between this node and its old successor, and the ring with the new node inserted is again linked both ways with its values in place |
| `CircularList.Node.Remove` | src/SimpleCDLL.java:179 | the node's neighbours are linked to each other, and the ring without the node is again linked both ways with its values in place |
| `CircularList.SimpleCDLL.constructor` | src/SimpleCDLL.java:36-42 | a new list is valid and empty: the dummy is its own `prev` and `next`, `size` and `updates` are 0 |
| `CircularList.SimpleCDLL.SpliceIn` | src/SimpleCDLL.java:91-97 | inserting after the node at ring position `p` keeps the list valid, puts the new node and value at position `p` and grows `size` by one |
| `CircularList.SimpleCDLL.SpliceOut` | src/SimpleCDLL.java:179-180 | unlinking the node at ring position `k` keeps the list valid, drops that node and its value and shrinks `size` by one |
| `CircularList.SimpleCDLL.ListIterator` | src/SimpleCDLL.java:52-81 | the new cursor is valid and its abstract state is `Start` of the list's |
| `CircularList.Cursor.constructor` | src/SimpleCDLL.java:63-81 | the cursor starts between the dummy and the first node, with no target and the list's counter |
| `CircularList.Cursor.ValidIsCoherent` | src/SimpleCDLL.java:58-81 | the heap invariant of a cursor implies the abstract `Coherent` |
| `CircularList.Cursor.FailFast` | src/SimpleCDLL.java:208-215 | succeeds exactly when the snapshot equals the list's counter, and otherwise fails with ConcurrentModification |
| `CircularList.Cursor.NoteChange` | src/SimpleCDLL.java:217-223 | the list's counter and the snapshot both grow by one |
| `CircularList.Cursor.HasNext` | src/SimpleCDLL.java:107-111 | returns `CursorSpec.HasNext` of the states: fails fast, else whether the position is before the end |
| `CircularList.Cursor.HasPrevious` | src/SimpleCDLL.java:113-117 | returns `CursorSpec.HasPrevious`: fails fast, else whether the position is after the front |
| `CircularList.Cursor.NextIndex` | src/SimpleCDLL.java:135-138 | returns `CursorSpec.NextIndex`: fails fast, else the position |
| `CircularList.Cursor.PreviousIndex` | src/SimpleCDLL.java:140-143 | returns `CursorSpec.PreviousIndex`: fails fast, else the position minus one |
| `CircularList.Cursor.Next` | src/SimpleCDLL.java:119-133 | the result and new cursor state are those of `CursorSpec.Next`, and the cursor stays valid |
| `CircularList.Cursor.Previous` | src/SimpleCDLL.java:145-159 | the result and new cursor state are those of `CursorSpec.Previous`, and the cursor stays valid |
| `CircularList.Cursor.Add` | src/SimpleCDLL.java:87-105 | the result and new list and cursor states are those of `CursorSpec.Add`; the list stays valid; on success exactly one node, the fresh new `prev`, joins its nodes and none leaves, and on failure its nodes, their order and the dummy stay the same |
| `CircularList.Cursor.Unlink` | src/SimpleCDLL.java:169-180 | the cursor's links step over the target, the target's value leaves the list, and the cursor sits where that value was |
| `CircularList.Cursor.Remove` | src/SimpleCDLL.java:161-187 | the result and new states are those of `CursorSpec.Remove`; the list stays valid with the same footprint (the removed node stays in it); on failure its nodes, their order and the dummy stay the same |
| `CircularList.Cursor.Set` | src/SimpleCDLL.java:189-202 | the result and new states are those of `CursorSpec.Set`; the list stays valid with the same nodes, the same ring order, the same dummy and the same size, so other cursors in sync stay valid |
| `CursorLaws.HasNextIffNextSucceeds` | src/SimpleCDLL.java:107-133 | `hasNext()` is true exactly when `next()` returns a value, that value is at `nextIndex()`, and otherwise `next()` fails with NoSuchElement |
| `CursorLaws.HasPreviousIffPreviousSucceeds` | src/SimpleCDLL.java:113-159 | `hasPrevious()` is true exactly when `previous()` returns a value, that value is at `previousIndex()`, and otherwise `previous()` fails with NoSuchElement |
| `CursorLaws.IndicesAdjacent` | src/SimpleCDLL.java:135-143 | `previousIndex()` is `nextIndex()` minus one, and `nextIndex()` lies between 0 and the size |
| `CursorLaws.NextThenPrevious` | src/SimpleCDLL.java:119-159 | `previous()` after `next()` returns the same value and puts the cursor back at its position |
| `CursorLaws.PreviousThenNext` | src/SimpleCDLL.java:119-159 | `next()` after `previous()` returns the same value and puts the cursor back at its position |
| `CursorLaws.AddLandsBehindCursor` | src/SimpleCDLL.java:87-105 | after `add(v)` the list is one longer, `previous()` returns `v`, and `next()` returns what it returned before |
| `CursorLaws.StartHasNoTarget` | src/SimpleCDLL.java:76 | on a new cursor, `remove()` and `set()` fail with IllegalState |
| `CursorLaws.ChangesClearTarget` | src/SimpleCDLL.java:94 | after a successful `add`, `remove` or `set`, both `remove()` and `set()` fail with IllegalState |
| `CursorLaws.NextThenRemove` | src/SimpleCDLL.java:161-187 | `remove()` after `next()` deletes exactly the value returned; the position is unchanged and the cursor stays in sync |
| `CursorLaws.PreviousThenRemove` | src/SimpleCDLL.java:161-187 | `remove()` after `previous()` deletes exactly the value returned; the position drops by one and the cursor stays in sync |
| `CursorLaws.TraverseThenSet` | src/SimpleCDLL.java:189-202 | `set(v)` after `next()` or `previous()` replaces exactly the value returned and leaves the counter alone |
| `CursorLaws.FailuresChangeNothing` | src/SimpleCDLL.java:208-215 | an operation that fails leaves the list and the cursor as they were |
| `CursorLaws.StaleCursorFails` | src/SimpleCDLL.java:211-215 | a cursor whose snapshot is behind the counter fails every one of its nine operations with ConcurrentModification |
| `CursorLaws.OtherCursorInvalidated` | src/SimpleCDLL.java:217-223 | after one cursor's successful `add` or `remove`, any other cursor is out of sync and its `hasNext()` fails with ConcurrentModification |
| `CursorLaws.OtherCursorsStayCoherent` | src/SimpleCDLL.java:189-223 | whatever add, remove or set one cursor `b` performs, every other coherent cursor `a` stays coherent, and a `set` keeps `a` in sync if it was |
| `CursorLaws.AddAll` | src/SimpleCDLL.java:87-105 | a sequence of `add` calls keeps the cursor coherent and never lowers the counter |
| `CursorLaws.AddAllInserts` | src/SimpleCDLL.java:87-105 | adding `xs` one by one inserts them in order at the cursor, moves the cursor past them and raises the counter by `|xs|` |
| `CursorLaws.Forward` | src/SimpleCDLL.java:107-133 | a sequence of `next()` calls while `hasNext()` holds keeps the cursor coherent |
| `CursorLaws.ForwardReadsRest` | src/SimpleCDLL.java:107-133 | that sequence returns the values from the cursor to the end, in order, and ends at the end |
| `CursorLaws.Backward` | src/SimpleCDLL.java:113-159 | a sequence of `previous()` calls while `hasPrevious()` holds keeps the cursor coherent |
| `CursorLaws.BackwardReadsReversed` | src/SimpleCDLL.java:113-159 | that sequence returns the values before the cursor, nearest first, and ends at the front |
| `CursorLaws.Drain` | src/SimpleCDLL.java:161-187 | a sequence of `next()` and `remove()` pairs keeps the cursor coherent |
| `CursorLaws.DrainRemovesRest` | src/SimpleCDLL.java:161-187 | that sequence deletes every value from the cursor to the end, keeps the ones before it and the position, and raises the counter once per value |
| `CursorLaws.RoundTrip` | src/SimpleCDLL.java:36-187 | adding `xs` to a new list stores `xs`; a fresh cursor reads `xs` back; draining with a fresh cursor empties the list; on the empty list a fresh cursor has neither a next nor a previous value |
| `CursorLaws.TenTwentyThirty` | src/SimpleCDLL.java:119-202 | on [10, 20, 30], `next()` twice returns 10 and 20; `set(99)` gives [10, 99, 30]; a following `remove()` fails with IllegalState; `previous()` returns 99; `remove()` then gives [10, 30] with `previousIndex()` 0; a second `remove()` fails |
| `Scenarios.TwoCursors` | src/SimpleCDLL.java:208-223 | on the heap objects: once cursor `b` adds a value, cursor `a` fails with ConcurrentModification, while `b` still works and returns the added value from `previous()` |
| `Scenarios.SetKeepsOthers` | src/SimpleCDLL.java:189-202 | on the heap objects: after cursor `b` steps back and calls `set(5)`, cursor `a`, obtained earlier and still in sync, reports a next value and `next()` returns 5 |
| `Scenarios.FailedRemoveKeepsOthers` | src/SimpleCDLL.java:161-167 | on the heap objects: a `remove()` by cursor `b` right after its `add` fails with IllegalState and changes nothing, so cursor `a`, obtained after the add, still returns 10 from `next()` |

### Where the model follows the code rather than the documentation

- `set` clears the update target (src/SimpleCDLL.java:201). So a second
  `set`, or a `remove` after `set`, fails with IllegalState until the next
  `next()` or `previous()`.
  - The contract of `java.util.ListIterator`, which the iterator implements,
    allows `set` to be repeated, and `remove` to follow `set`.
  - The comment on line 200 shows the clearing is deliberate, so the model
    keeps it. `CursorLaws.ChangesClearTarget` and `CursorLaws.TenTwentyThirty`
    state its consequences.
- `failFast` throws ConcurrentModificationException (line 213), although
  its doc comment (line 209) says IllegalStateException. The model returns
  `ConcurrentModification`.
- `set` does not call `noteChange`. So it does not invalidate other
  cursors (`CursorLaws.OtherCursorsStayCoherent`).
- `next()` and `previous()` call `hasNext()` and `hasPrevious()`, which
  repeat the fail-fast check that has just passed. The model checks once.

## Left out

- `iterator()` (src/SimpleCDLL.java:48-50) only returns `listIterator()`. It adds no behaviour and has no separate member.
- The class `Node2` is not part of this model. `Node.InsertAfter` and `Node.Remove` are given the behaviour their callers in src/SimpleCDLL.java rely on.
- `CircularList.Node.Remove` does not say what becomes of the removed node's own `prev` and `next`. The source does not show it, and nothing reads them afterwards.
- Java's 32-bit `int` is not modelled: `size`, `pos` and `updates` are unbounded integers. Wrap-around would need more than 2^31 changes.
- Exceptions are modelled as the `Result` datatype with three errors, not as control flow. In the source every failure happens before any field changes, and in the model a failure returns the old states unchanged.
- The dummy node holds an arbitrary value of `T` rather than Java's `null` (the element type needs `T(0)` so that such a value exists). The dummy's value is never read.
- Threads and real concurrency are out of scope. "Concurrent modification" here is a change made through another cursor of the same list.
- A stale cursor's links are not constrained in the heap model. The source never reads them, because `failFast` comes first.
- Whole traversals, drains and the [10, 20, 30] scenario are proved on the abstract view. On the heap objects only the three two-cursor scenarios in `Scenarios` are stated.
