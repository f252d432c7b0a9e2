/**
 * Abstract view of a SimpleCDLL and one of its list iterators.
 *
 * The list is the sequence of its values together with its change counter;
 * the cursor is its position (the number of values before it), the neighbour
 * that `set` and `remove` act on, and its snapshot of the list's counter.
 * Each cursor operation is a function from the old states to its result and
 * the new states; an error leaves both states as they were.
 */
module CursorSpec {

  /** The three exceptions the iterator throws. */
  datatype Error = ConcurrentModification | NoSuchElement | IllegalState

  datatype Result<R> = Ok(value: R) | Err(error: Error)

  /**
   * The update target of a cursor: none, the value just behind the cursor
   * (the last step was `next`), or the value just ahead of it (the last step
   * was `previous`).
   */
  datatype Target = NoTarget | Behind | Ahead

  datatype ListState<T> = ListState(contents: seq<T>, updates: int)

  datatype CursorState = CursorState(pos: nat, target: Target, updates: int)

  /** The cursor's snapshot matches the list's counter, so it may act. */
  predicate InSync<T>(l: ListState<T>, c: CursorState) {
    c.updates == l.updates
  }

  /** The position lies within the list and the target names an existing value. */
  predicate Placed<T>(l: ListState<T>, c: CursorState) {
    && c.pos <= |l.contents|
    && (c.target == Behind ==> 0 < c.pos)
    && (c.target == Ahead ==> c.pos < |l.contents|)
  }

  /**
   * What holds of every cursor of a list: its snapshot is never ahead of the
   * list's counter, and while the two agree the cursor is placed in the list.
   */
  predicate Coherent<T>(l: ListState<T>, c: CursorState) {
    c.updates <= l.updates && (InSync(l, c) ==> Placed(l, c))
  }

  /** A newly created list. */
  function Empty<T>(): (l: ListState<T>)
    ensures HasNext(l, Start(l)) == Ok(false) && HasPrevious(l, Start(l)) == Ok(false)
  {
    ListState([], 0)
  }

  /** A newly created cursor: before the first value, no target, current snapshot. */
  function Start<T>(l: ListState<T>): (c: CursorState)
    ensures Coherent(l, c) && InSync(l, c)
  {
    CursorState(0, NoTarget, l.updates)
  }

  /** Index in `contents` of the value a cursor's target names. */
  function TargetIndex(c: CursorState): int
    requires c.target != NoTarget
  {
    if c.target == Behind then c.pos - 1 else c.pos
  }

  /** Fails exactly when the cursor is out of sync, and then only with ConcurrentModification. */
  function HasNext<T>(l: ListState<T>, c: CursorState): (r: Result<bool>)
    ensures r.Ok? <==> InSync(l, c)
    ensures r.Err? ==> r.error == ConcurrentModification
  {
    if !InSync(l, c) then Err(ConcurrentModification) else Ok(c.pos < |l.contents|)
  }

  /** Fails exactly when the cursor is out of sync, and then only with ConcurrentModification. */
  function HasPrevious<T>(l: ListState<T>, c: CursorState): (r: Result<bool>)
    ensures r.Ok? <==> InSync(l, c)
    ensures r.Err? ==> r.error == ConcurrentModification
  {
    if !InSync(l, c) then Err(ConcurrentModification) else Ok(c.pos > 0)
  }

  /** Fails only when out of sync; for a coherent cursor the index lies between 0 and the size. */
  function NextIndex<T>(l: ListState<T>, c: CursorState): (r: Result<int>)
    ensures r.Ok? <==> InSync(l, c)
    ensures r.Err? ==> r.error == ConcurrentModification
    ensures r.Ok? && Coherent(l, c) ==> 0 <= r.value <= |l.contents|
  {
    if !InSync(l, c) then Err(ConcurrentModification) else Ok(c.pos)
  }

  /** Fails only when out of sync; for a coherent cursor the index lies between -1 and the size minus one. */
  function PreviousIndex<T>(l: ListState<T>, c: CursorState): (r: Result<int>)
    ensures r.Ok? <==> InSync(l, c)
    ensures r.Err? ==> r.error == ConcurrentModification
    ensures r.Ok? && Coherent(l, c) ==> -1 <= r.value < |l.contents|
  {
    if !InSync(l, c) then Err(ConcurrentModification) else Ok(c.pos - 1)
  }

  function Next<T>(l: ListState<T>, c: CursorState): (out: (Result<T>, CursorState))
    requires Coherent(l, c)
    ensures Coherent(l, out.1)
  {
    if !InSync(l, c) then (Err(ConcurrentModification), c)
    else if !(c.pos < |l.contents|) then (Err(NoSuchElement), c)
    else (Ok(l.contents[c.pos]), CursorState(c.pos + 1, Behind, c.updates))
  }

  function Previous<T>(l: ListState<T>, c: CursorState): (out: (Result<T>, CursorState))
    requires Coherent(l, c)
    ensures Coherent(l, out.1)
  {
    if !InSync(l, c) then (Err(ConcurrentModification), c)
    else if !(c.pos > 0) then (Err(NoSuchElement), c)
    else (Ok(l.contents[c.pos - 1]), CursorState(c.pos - 1, Ahead, c.updates))
  }

  function Add<T>(l: ListState<T>, c: CursorState, v: T): (out: (Result<()>, ListState<T>, CursorState))
    requires Coherent(l, c)
    ensures Coherent(out.1, out.2) && l.updates <= out.1.updates
  {
    if !InSync(l, c) then (Err(ConcurrentModification), l, c)
    else
      (Ok(()),
       ListState(l.contents[..c.pos] + [v] + l.contents[c.pos..], l.updates + 1),
       CursorState(c.pos + 1, NoTarget, c.updates + 1))
  }

  function Remove<T>(l: ListState<T>, c: CursorState): (out: (Result<()>, ListState<T>, CursorState))
    requires Coherent(l, c)
    ensures Coherent(out.1, out.2) && l.updates <= out.1.updates
  {
    if !InSync(l, c) then (Err(ConcurrentModification), l, c)
    else if c.target == NoTarget then (Err(IllegalState), l, c)
    else
      var i := TargetIndex(c);
      (Ok(()),
       ListState(l.contents[..i] + l.contents[i + 1..], l.updates + 1),
       CursorState(if c.target == Behind then c.pos - 1 else c.pos, NoTarget, c.updates + 1))
  }

  function Set<T>(l: ListState<T>, c: CursorState, v: T): (out: (Result<()>, ListState<T>, CursorState))
    requires Coherent(l, c)
    ensures Coherent(out.1, out.2)
    // `set` is not a structural change: neither counter moves, nor does the cursor
    ensures out.1.updates == l.updates && out.2.updates == c.updates
    ensures |out.1.contents| == |l.contents| && out.2.pos == c.pos
  {
    if !InSync(l, c) then (Err(ConcurrentModification), l, c)
    else if c.target == NoTarget then (Err(IllegalState), l, c)
    else (Ok(()), ListState(l.contents[TargetIndex(c) := v], l.updates), CursorState(c.pos, NoTarget, c.updates))
  }
}
