/**
 * Laws of the list iterator, stated over the abstract states of CursorSpec:
 * how its queries agree with its moves, which steps undo each other, when
 * `set` and `remove` are allowed, how one cursor's changes make the others
 * fail fast, and what whole insertions, traversals and drains do.
 */
module CursorLaws {
  import opened CursorSpec

  // ---------------------------------------------------------------------
  // Queries agree with moves

  /**
   * `hasNext()` answers true exactly when `next()` returns a value, and that
   * value is the one at `nextIndex()`.
   */
  lemma HasNextIffNextSucceeds<T>(l: ListState<T>, c: CursorState)
    requires Coherent(l, c) && InSync(l, c)
    ensures HasNext(l, c) == Ok(Next(l, c).0.Ok?)
    ensures Next(l, c).0.Ok? ==>
      && NextIndex(l, c).Ok? && 0 <= NextIndex(l, c).value < |l.contents|
      && Next(l, c).0.value == l.contents[NextIndex(l, c).value]
    ensures Next(l, c).0.Err? ==> Next(l, c).0.error == NoSuchElement
  {
  }

  /**
   * `hasPrevious()` answers true exactly when `previous()` returns a value,
   * and that value is the one at `previousIndex()`.
   */
  lemma HasPreviousIffPreviousSucceeds<T>(l: ListState<T>, c: CursorState)
    requires Coherent(l, c) && InSync(l, c)
    ensures HasPrevious(l, c) == Ok(Previous(l, c).0.Ok?)
    ensures Previous(l, c).0.Ok? ==>
      && PreviousIndex(l, c).Ok? && 0 <= PreviousIndex(l, c).value < |l.contents|
      && Previous(l, c).0.value == l.contents[PreviousIndex(l, c).value]
    ensures Previous(l, c).0.Err? ==> Previous(l, c).0.error == NoSuchElement
  {
  }

  /** The two indices of a cursor in sync are adjacent and lie within the list's bounds. */
  lemma IndicesAdjacent<T>(l: ListState<T>, c: CursorState)
    requires Coherent(l, c) && InSync(l, c)
    ensures NextIndex(l, c).Ok? && PreviousIndex(l, c) == Ok(NextIndex(l, c).value - 1)
    ensures 0 <= NextIndex(l, c).value <= |l.contents|
  {
  }

  // ---------------------------------------------------------------------
  // Steps that undo each other

  /**
   * `next()` then `previous()` returns the same value twice and puts the
   * cursor back where it was, now with that value ahead of it as target.
   */
  lemma NextThenPrevious<T>(l: ListState<T>, c: CursorState)
    requires Coherent(l, c) && InSync(l, c) && c.pos < |l.contents|
    ensures var (r1, c1) := Next(l, c);
      var (r2, c2) := Previous(l, c1);
      && r1 == r2 == Ok(l.contents[c.pos])
      && c2 == CursorState(c.pos, Ahead, c.updates)
  {
  }

  /**
   * `previous()` then `next()` returns the same value twice and puts the
   * cursor back where it was, now with that value behind it as target.
   */
  lemma PreviousThenNext<T>(l: ListState<T>, c: CursorState)
    requires Coherent(l, c) && InSync(l, c) && 0 < c.pos
    ensures var (r1, c1) := Previous(l, c);
      var (r2, c2) := Next(l, c1);
      && r1 == r2 == Ok(l.contents[c.pos - 1])
      && c2 == CursorState(c.pos, Behind, c.updates)
  {
  }

  // ---------------------------------------------------------------------
  // Insertion

  /**
   * `add(v)` puts `v` just behind the cursor: `previous()` returns it
   * at once, while `next()` returns what it would have returned before.
   */
  lemma AddLandsBehindCursor<T>(l: ListState<T>, c: CursorState, v: T)
    requires Coherent(l, c) && InSync(l, c)
    ensures var (r, l1, c1) := Add(l, c, v);
      && r == Ok(())
      && |l1.contents| == |l.contents| + 1
      && Previous(l1, c1).0 == Ok(v)
      && Next(l1, c1).0 == Next(l, c).0
  {
  }

  // ---------------------------------------------------------------------
  // The update target

  /** A new cursor has no target: `remove()` and `set()` fail with IllegalState. */
  lemma StartHasNoTarget<T>(l: ListState<T>, v: T)
    ensures Remove(l, Start(l)).0 == Err(IllegalState)
    ensures Set(l, Start(l), v).0 == Err(IllegalState)
  {
  }

  /**
   * A successful `add`, `remove` or `set` clears the target, so a following
   * `remove()` or `set()` fails with IllegalState until the next traversal
   * step. For `set` this follows the code, which clears the target.
   */
  lemma ChangesClearTarget<T>(l: ListState<T>, c: CursorState, v: T, w: T)
    requires Coherent(l, c)
    ensures var (r, l1, c1) := Add(l, c, v);
      r.Ok? ==> Remove(l1, c1).0 == Err(IllegalState) && Set(l1, c1, w).0 == Err(IllegalState)
    ensures var (r, l1, c1) := Remove(l, c);
      r.Ok? ==> Remove(l1, c1).0 == Err(IllegalState) && Set(l1, c1, w).0 == Err(IllegalState)
    ensures var (r, l1, c1) := Set(l, c, v);
      r.Ok? ==> Remove(l1, c1).0 == Err(IllegalState) && Set(l1, c1, w).0 == Err(IllegalState)
  {
  }

  /** `next()` then `remove()` deletes the value just returned, and the cursor keeps its index. */
  lemma NextThenRemove<T>(l: ListState<T>, c: CursorState)
    requires Coherent(l, c) && InSync(l, c) && c.pos < |l.contents|
    ensures var (_, c1) := Next(l, c);
      var (r, l2, c2) := Remove(l, c1);
      && r == Ok(())
      && l2.contents == l.contents[..c.pos] + l.contents[c.pos + 1..]
      && l2.updates == l.updates + 1
      && c2.pos == c.pos && InSync(l2, c2)
  {
  }

  /** `previous()` then `remove()` deletes the value just returned, and the cursor's index drops by one. */
  lemma PreviousThenRemove<T>(l: ListState<T>, c: CursorState)
    requires Coherent(l, c) && InSync(l, c) && 0 < c.pos
    ensures var (_, c1) := Previous(l, c);
      var (r, l2, c2) := Remove(l, c1);
      && r == Ok(())
      && l2.contents == l.contents[..c.pos - 1] + l.contents[c.pos..]
      && l2.updates == l.updates + 1
      && c2.pos == c.pos - 1 && InSync(l2, c2)
  {
  }

  /**
   * `next()` or `previous()` then `set(v)` replaces the value just returned
   * and nothing else; the list's counter is unchanged.
   */
  lemma TraverseThenSet<T>(l: ListState<T>, c: CursorState, v: T)
    requires Coherent(l, c) && InSync(l, c)
    ensures c.pos < |l.contents| ==>
      var (_, c1) := Next(l, c);
      var (r, l2, _) := Set(l, c1, v);
      r == Ok(()) && l2 == ListState(l.contents[c.pos := v], l.updates)
    ensures 0 < c.pos ==>
      var (_, c1) := Previous(l, c);
      var (r, l2, _) := Set(l, c1, v);
      r == Ok(()) && l2 == ListState(l.contents[c.pos - 1 := v], l.updates)
  {
  }

  // ---------------------------------------------------------------------
  // Failing fast

  /** An operation that fails leaves the list and the cursor as they were. */
  lemma FailuresChangeNothing<T>(l: ListState<T>, c: CursorState, v: T)
    requires Coherent(l, c)
    ensures Next(l, c).0.Err? ==> Next(l, c).1 == c
    ensures Previous(l, c).0.Err? ==> Previous(l, c).1 == c
    ensures Add(l, c, v).0.Err? ==> Add(l, c, v).1 == l && Add(l, c, v).2 == c
    ensures Remove(l, c).0.Err? ==> Remove(l, c).1 == l && Remove(l, c).2 == c
    ensures Set(l, c, v).0.Err? ==> Set(l, c, v).1 == l && Set(l, c, v).2 == c
  {
  }

  /** A cursor whose snapshot is behind the list's counter fails every operation with ConcurrentModification. */
  lemma StaleCursorFails<T>(l: ListState<T>, c: CursorState, v: T)
    requires Coherent(l, c) && !InSync(l, c)
    ensures HasNext(l, c) == Err(ConcurrentModification)
    ensures HasPrevious(l, c) == Err(ConcurrentModification)
    ensures NextIndex(l, c) == Err(ConcurrentModification)
    ensures PreviousIndex(l, c) == Err(ConcurrentModification)
    ensures Next(l, c).0 == Err(ConcurrentModification)
    ensures Previous(l, c).0 == Err(ConcurrentModification)
    ensures Add(l, c, v).0 == Err(ConcurrentModification)
    ensures Remove(l, c).0 == Err(ConcurrentModification)
    ensures Set(l, c, v).0 == Err(ConcurrentModification)
  {
  }

  /**
   * Once cursor `b` has added or removed a value, every other cursor `a`
   * of the same list is stale: its next operation fails fast.
   */
  lemma OtherCursorInvalidated<T>(l: ListState<T>, a: CursorState, b: CursorState, v: T)
    requires Coherent(l, a) && Coherent(l, b)
    ensures var (r, l1, _) := Add(l, b, v);
      r.Ok? ==> Coherent(l1, a) && !InSync(l1, a) && HasNext(l1, a) == Err(ConcurrentModification)
    ensures var (r, l1, _) := Remove(l, b);
      r.Ok? ==> Coherent(l1, a) && !InSync(l1, a) && HasNext(l1, a) == Err(ConcurrentModification)
  {
  }

  /**
   * Whatever cursor `b` does, every other cursor `a` stays coherent with the
   * list. `set` is not a structural change: it keeps `a` in sync.
   */
  lemma OtherCursorsStayCoherent<T>(l: ListState<T>, a: CursorState, b: CursorState, v: T)
    requires Coherent(l, a) && Coherent(l, b)
    ensures Coherent(Add(l, b, v).1, a)
    ensures Coherent(Remove(l, b).1, a)
    ensures Coherent(Set(l, b, v).1, a) && (InSync(l, a) ==> InSync(Set(l, b, v).1, a))
  {
  }

  // ---------------------------------------------------------------------
  // Whole sequences of operations

  /** The states after calling `add` with each value of `xs` in turn. */
  function AddAll<T>(l: ListState<T>, c: CursorState, xs: seq<T>): (out: (ListState<T>, CursorState))
    requires Coherent(l, c)
    ensures Coherent(out.0, out.1) && l.updates <= out.0.updates
    decreases |xs|
  {
    if |xs| == 0 then (l, c)
    else
      var (_, l1, c1) := Add(l, c, xs[0]);
      AddAll(l1, c1, xs[1..])
  }

  /**
   * Adding each of `xs` in turn inserts them, in order, at the cursor: the
   * cursor ends up past all of them, and the counter grows by one per value.
   */
  lemma {:induction false} AddAllInserts<T>(l: ListState<T>, c: CursorState, xs: seq<T>)
    requires Coherent(l, c) && InSync(l, c)
    ensures var (l1, c1) := AddAll(l, c, xs);
      && l1.contents == l.contents[..c.pos] + xs + l.contents[c.pos..]
      && l1.updates == l.updates + |xs|
      && c1.pos == c.pos + |xs| && InSync(l1, c1)
    decreases |xs|
  {
    if |xs| > 0 {
      var (_, l1, c1) := Add(l, c, xs[0]);
      AddAllInserts(l1, c1, xs[1..]);
      assert l1.contents[..c1.pos] == l.contents[..c.pos] + [xs[0]];
      assert l1.contents[c1.pos..] == l.contents[c.pos..];
      assert [xs[0]] + xs[1..] == xs;
    }
  }

  /** The values `next()` returns while `hasNext()` answers true, and the cursor after them. */
  function Forward<T>(l: ListState<T>, c: CursorState): (out: (seq<T>, CursorState))
    requires Coherent(l, c)
    ensures Coherent(l, out.1)
    decreases |l.contents| - c.pos
  {
    if HasNext(l, c) != Ok(true) then ([], c)
    else
      var (r, c1) := Next(l, c);
      var (rest, c2) := Forward(l, c1);
      ([r.value] + rest, c2)
  }

  /** A forward traversal returns the values from the cursor to the end, in order, and ends at the end. */
  lemma {:induction false} ForwardReadsRest<T>(l: ListState<T>, c: CursorState)
    requires Coherent(l, c) && InSync(l, c)
    ensures var (vs, c1) := Forward(l, c);
      vs == l.contents[c.pos..] && c1.pos == |l.contents| && InSync(l, c1)
    decreases |l.contents| - c.pos
  {
    if c.pos < |l.contents| {
      var (_, c1) := Next(l, c);
      ForwardReadsRest(l, c1);
      assert l.contents[c.pos..] == [l.contents[c.pos]] + l.contents[c.pos + 1..];
    }
  }

  /** The values `previous()` returns while `hasPrevious()` answers true, and the cursor after them. */
  function Backward<T>(l: ListState<T>, c: CursorState): (out: (seq<T>, CursorState))
    requires Coherent(l, c)
    ensures Coherent(l, out.1)
    decreases c.pos
  {
    if HasPrevious(l, c) != Ok(true) then ([], c)
    else
      var (r, c1) := Previous(l, c);
      var (rest, c2) := Backward(l, c1);
      ([r.value] + rest, c2)
  }

  /**
   * A backward traversal returns the values before the cursor, nearest
   * first, and ends at the front.
   */
  lemma {:induction false} BackwardReadsReversed<T>(l: ListState<T>, c: CursorState)
    requires Coherent(l, c) && InSync(l, c)
    ensures var (vs, c1) := Backward(l, c);
      && |vs| == c.pos
      && (forall i :: 0 <= i < |vs| ==> vs[i] == l.contents[c.pos - 1 - i])
      && c1.pos == 0 && InSync(l, c1)
    decreases c.pos
  {
    if 0 < c.pos {
      var (_, c1) := Previous(l, c);
      BackwardReadsReversed(l, c1);
      var (rest, _) := Backward(l, c1);
      var vs := Backward(l, c).0;
      assert vs == [l.contents[c.pos - 1]] + rest;
      forall i | 0 <= i < |vs| ensures vs[i] == l.contents[c.pos - 1 - i] {
        if 0 < i {
          assert vs[i] == rest[i - 1];
        }
      }
    }
  }

  /** The states after `next()` then `remove()`, repeated while `hasNext()` answers true. */
  function Drain<T>(l: ListState<T>, c: CursorState): (out: (ListState<T>, CursorState))
    requires Coherent(l, c)
    ensures Coherent(out.0, out.1)
    decreases |l.contents| - c.pos
  {
    if HasNext(l, c) != Ok(true) then (l, c)
    else
      var (_, c1) := Next(l, c);
      var (_, l2, c2) := Remove(l, c1);
      Drain(l2, c2)
  }

  /**
   * Draining removes every value from the cursor to the end, one change at a
   * time, and leaves the values before the cursor and the cursor's index alone.
   */
  lemma {:induction false} DrainRemovesRest<T>(l: ListState<T>, c: CursorState)
    requires Coherent(l, c) && InSync(l, c)
    ensures var (l1, c1) := Drain(l, c);
      && l1.contents == l.contents[..c.pos]
      && l1.updates == l.updates + (|l.contents| - c.pos)
      && c1.pos == c.pos && InSync(l1, c1)
    decreases |l.contents| - c.pos
  {
    if c.pos < |l.contents| {
      NextThenRemove(l, c);
      var (_, c1) := Next(l, c);
      var (_, l2, c2) := Remove(l, c1);
      DrainRemovesRest(l2, c2);
      assert l2.contents[..c2.pos] == l.contents[..c.pos];
    }
  }

  /**
   * Adding `xs` to a new list through a new cursor stores them in order; a
   * fresh cursor reads them back; draining through a fresh cursor leaves an
   * empty list, on which yet another fresh cursor has neither a next nor a
   * previous value.
   */
  lemma {:induction false} RoundTrip<T>(xs: seq<T>)
    ensures var (l1, _) := AddAll(Empty(), Start(Empty<T>()), xs);
      && l1.contents == xs
      && Forward(l1, Start(l1)).0 == xs
      && var (l2, _) := Drain(l1, Start(l1));
         && l2.contents == []
         && HasNext(l2, Start(l2)) == Ok(false)
         && HasPrevious(l2, Start(l2)) == Ok(false)
  {
    var l0: ListState<T> := Empty();
    AddAllInserts(l0, Start(l0), xs);
    var (l1, _) := AddAll(l0, Start(l0), xs);
    ForwardReadsRest(l1, Start(l1));
    DrainRemovesRest(l1, Start(l1));
  }

  /**
   * The list [10, 20, 30], built by three `add` calls: a fresh cursor's
   * `next()` returns 10 then 20; `set(99)` gives [10, 99, 30] and clears the
   * target, so `remove()` then fails with IllegalState; `previous()` returns
   * 99, after which `remove()` gives [10, 30], `previousIndex()` is 0, and a
   * second `remove()` fails with IllegalState.
   */
  lemma TenTwentyThirty()
    ensures var l := AddAll(Empty(), Start(Empty<int>()), [10, 20, 30]).0;
      var (r1, c1) := Next(l, Start(l));
      var (r2, c2) := Next(l, c1);
      var (r3, l3, c3) := Set(l, c2, 99);
      var (r4, l4, c4) := Remove(l3, c3);
      var (r5, c5) := Previous(l4, c4);
      var (r6, l6, c6) := Remove(l4, c5);
      && r1 == Ok(10) && r2 == Ok(20)
      && r3 == Ok(()) && l3.contents == [10, 99, 30]
      && r4 == Err(IllegalState)
      && r5 == Ok(99)
      && r6 == Ok(()) && l6.contents == [10, 30]
      && PreviousIndex(l6, c6) == Ok(0)
      && Remove(l6, c6).0 == Err(IllegalState)
  {
  }
}
