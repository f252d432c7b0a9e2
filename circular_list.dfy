/**
 * A circular doubly-linked list with a dummy node, and its fail-fast list
 * iterator, as heap objects.
 *
 * The list keeps a ghost `ring`: the dummy, the element nodes in order, and the
 * dummy again, so that every node's `next` is the following entry and every
 * node's `prev` the preceding one. A cursor sits between `ring[pos]` and
 * `ring[pos + 1]` whenever its snapshot matches the list's counter; once the
 * two differ its links may name nodes that are no longer in the list, and
 * every operation refuses to use them.
 */
module CircularList {
  import opened CursorSpec

  /** All entries of a ring but the last (which repeats the first) are different nodes. */
  ghost predicate Distinct<T>(ring: seq<Node<T>>) {
    forall i, j :: 0 <= i < j < |ring| - 1 ==> ring[i] != ring[j]
  }

  /** Inserting a node that is not yet in the ring keeps its shape. */
  lemma InsertKeepsShape<T>(ring: seq<Node<T>>, footprint: set<Node<T>>, p: int, n: Node<T>)
    requires 0 <= p < |ring| - 1 && Distinct(ring) && n !in ring
    requires forall i :: 0 <= i < |ring| ==> ring[i] in footprint
    ensures var ring' := ring[..p + 1] + [n] + ring[p + 1..];
      && |ring'| == |ring| + 1 && ring'[0] == ring[0] && ring'[|ring'| - 1] == ring[|ring| - 1]
      && Distinct(ring')
      && (forall i :: 0 <= i < |ring'| ==> ring'[i] in footprint + {n})
  {
  }

  /** Taking out an element node keeps the ring's shape. */
  lemma RemoveKeepsShape<T>(ring: seq<Node<T>>, footprint: set<Node<T>>, k: int)
    requires 0 < k < |ring| - 1 && Distinct(ring)
    requires forall i :: 0 <= i < |ring| ==> ring[i] in footprint
    ensures var ring' := ring[..k] + ring[k + 1..];
      && |ring'| == |ring| - 1 && ring'[0] == ring[0] && ring'[|ring'| - 1] == ring[|ring| - 1]
      && Distinct(ring')
      && (forall i :: 0 <= i < |ring'| ==> ring'[i] in footprint)
  {
  }

  /**
   * A list node. Its class is not part of this model; `InsertAfter` and
   * `Remove` are given the behaviour their callers rely on. Their ghost
   * parameters name the ring the node sits in, so that their contracts can
   * say that the ring's links and values are kept.
   */
  class Node<T> {
    var value: T
    var prev: Node?<T>
    var next: Node?<T>

    constructor (v: T, p: Node?<T>, n: Node?<T>)
      ensures value == v && prev == p && next == n
    {
      value := v;
      prev := p;
      next := n;
    }

    /** Splices a new node holding `v` between this node and its successor. */
    method InsertAfter(v: T, ghost ring: seq<Node<T>>, ghost contents: seq<T>, ghost p: int) returns (n: Node<T>)
      requires |ring| == |contents| + 2 && 0 <= p <= |contents| && ring[p] == this && Distinct(ring)
      requires forall i {:trigger ring[i].next} :: 0 <= i < |ring| - 1 ==> ring[i].next == ring[i + 1]
      requires forall i {:trigger ring[i].prev} :: 1 <= i < |ring| ==> ring[i].prev == ring[i - 1]
      requires forall i {:trigger ring[i].value} :: 1 <= i < |ring| - 1 ==> ring[i].value == contents[i - 1]
      modifies this`next, next`prev
      ensures fresh(n) && n.value == v && n.prev == this && n.next == old(next)
      ensures next == n && old(next).prev == n
      ensures var ring', contents' := ring[..p + 1] + [n] + ring[p + 1..], contents[..p] + [v] + contents[p..];
        && (forall i {:trigger ring'[i].next} :: 0 <= i < |ring'| - 1 ==> ring'[i].next == ring'[i + 1])
        && (forall i {:trigger ring'[i].prev} :: 1 <= i < |ring'| ==> ring'[i].prev == ring'[i - 1])
        && (forall i {:trigger ring'[i].value} :: 1 <= i < |ring'| - 1 ==> ring'[i].value == contents'[i - 1])
    {
      assert ring[p].next == ring[p + 1] && ring[p + 1].prev == ring[p];
      n := new Node(v, this, next);
      next.prev := n;
      next := n;
      var ring', contents' := ring[..p + 1] + [n] + ring[p + 1..], contents[..p] + [v] + contents[p..];
      forall i | 0 <= i < |ring'| - 1 ensures ring'[i].next == ring'[i + 1] {
        if i < p {
          assert ring'[i] == ring[i] && ring'[i + 1] == ring[i + 1] && ring[i] != ring[p];
          assert old(ring[i].next) == ring[i + 1];
        } else if i > p + 1 {
          assert ring'[i] == ring[i - 1] && ring'[i + 1] == ring[i] && ring[i - 1] != ring[p];
          assert old(ring[i - 1].next) == ring[i];
        }
      }
      forall i | 1 <= i < |ring'| ensures ring'[i].prev == ring'[i - 1] {
        if i <= p {
          assert ring'[i] == ring[i] && ring'[i - 1] == ring[i - 1] && ring[i] != ring[p + 1];
          assert old(ring[i].prev) == ring[i - 1];
        } else if i > p + 2 {
          assert ring'[i] == ring[i - 1] && ring'[i - 1] == ring[i - 2] && ring[i - 1] != ring[p + 1];
          assert old(ring[i - 1].prev) == ring[i - 2];
        }
      }
      forall i | 1 <= i < |ring'| - 1 ensures ring'[i].value == contents'[i - 1] {
        if i <= p {
          assert ring'[i] == ring[i];
          assert old(ring[i].value) == contents[i - 1];
        } else if i > p + 1 {
          assert ring'[i] == ring[i - 1];
          assert old(ring[i - 1].value) == contents[i - 2];
        }
      }
    }

    /** Links this node's two neighbours to each other. */
    method Remove(ghost ring: seq<Node<T>>, ghost contents: seq<T>, ghost k: int)
      requires |ring| == |contents| + 2 && 0 < k < |ring| - 1 && ring[k] == this && Distinct(ring)
      requires forall i {:trigger ring[i].next} :: 0 <= i < |ring| - 1 ==> ring[i].next == ring[i + 1]
      requires forall i {:trigger ring[i].prev} :: 1 <= i < |ring| ==> ring[i].prev == ring[i - 1]
      requires forall i {:trigger ring[i].value} :: 1 <= i < |ring| - 1 ==> ring[i].value == contents[i - 1]
      modifies prev`next, next`prev
      ensures old(prev).next == old(next) && old(next).prev == old(prev)
      ensures var ring', contents' := ring[..k] + ring[k + 1..], contents[..k - 1] + contents[k..];
        && (forall i {:trigger ring'[i].next} :: 0 <= i < |ring'| - 1 ==> ring'[i].next == ring'[i + 1])
        && (forall i {:trigger ring'[i].prev} :: 1 <= i < |ring'| ==> ring'[i].prev == ring'[i - 1])
        && (forall i {:trigger ring'[i].value} :: 1 <= i < |ring'| - 1 ==> ring'[i].value == contents'[i - 1])
    {
      assert ring[k - 1].next == ring[k] && ring[k].prev == ring[k - 1];
      assert ring[k].next == ring[k + 1] && ring[k + 1].prev == ring[k];
      prev.next := next;
      next.prev := prev;
      var ring', contents' := ring[..k] + ring[k + 1..], contents[..k - 1] + contents[k..];
      forall i | 0 <= i < |ring'| - 1 ensures ring'[i].next == ring'[i + 1] {
        if i < k - 1 {
          assert ring'[i] == ring[i] && ring'[i + 1] == ring[i + 1] && ring[i] != ring[k - 1];
          assert old(ring[i].next) == ring[i + 1];
        } else if i >= k {
          assert ring'[i] == ring[i + 1] && ring'[i + 1] == ring[i + 2] && ring[i + 1] != ring[k - 1];
          assert old(ring[i + 1].next) == ring[i + 2];
        }
      }
      forall i | 1 <= i < |ring'| ensures ring'[i].prev == ring'[i - 1] {
        if i < k {
          assert ring'[i] == ring[i] && ring'[i - 1] == ring[i - 1] && ring[i] != ring[k + 1];
          assert old(ring[i].prev) == ring[i - 1];
        } else if i > k {
          assert ring'[i] == ring[i + 1] && ring'[i - 1] == ring[i] && ring[i + 1] != ring[k + 1];
          assert old(ring[i + 1].prev) == ring[i];
        }
      }
      forall i | 1 <= i < |ring'| - 1 ensures ring'[i].value == contents'[i - 1] {
        if i < k {
          assert ring'[i] == ring[i];
          assert old(ring[i].value) == contents[i - 1];
        } else {
          assert ring'[i] == ring[i + 1];
          assert old(ring[i + 1].value) == contents[i];
        }
      }
    }
  }

  class SimpleCDLL<T(0)> {
    var dummy: Node<T>
    var size: int
    var updates: int

    ghost var contents: seq<T>
    ghost var ring: seq<Node<T>>
    ghost var footprint: set<Node<T>>

    ghost predicate Valid()
      reads this`dummy, this`size, this`contents, this`ring, this`footprint, footprint
    {
      && |ring| == size + 2
      && |contents| == size
      && ring[0] == dummy
      && ring[size + 1] == dummy
      && (forall i :: 0 <= i < |ring| ==> ring[i] in footprint)
      && Distinct(ring)
      && (forall i {:trigger ring[i].next} :: 0 <= i < |ring| - 1 ==> ring[i].next == ring[i + 1])
      && (forall i {:trigger ring[i].prev} :: 1 <= i < |ring| ==> ring[i].prev == ring[i - 1])
      && (forall i {:trigger ring[i].value} :: 1 <= i < |ring| - 1 ==> ring[i].value == contents[i - 1])
    }

    /**
     * Links a new node holding `v` in after `node`, which sits at ring
     * position `p`, and counts it in `size`.
     */
    method SpliceIn(node: Node<T>, ghost p: int, v: T) returns (n: Node<T>)
      requires Valid() && 0 <= p <= size && ring[p] == node
      modifies this, footprint
      ensures Valid() && fresh(n)
      ensures ring == old(ring[..p + 1]) + [n] + old(ring[p + 1..])
      ensures contents == old(contents[..p]) + [v] + old(contents[p..])
      ensures footprint == old(footprint) + {n} && size == old(size) + 1
      ensures dummy == old(dummy) && updates == old(updates)
      ensures ring[p] == old(ring[p]) && ring[p + 1] == n && ring[p + 2] == old(ring[p + 1])
    {
      ghost var R, C, F := ring, contents, footprint;
      assert node.next == R[p + 1];
      n := node.InsertAfter(v, R, C, p);
      ring := R[..p + 1] + [n] + R[p + 1..];
      contents := C[..p] + [v] + C[p..];
      footprint := F + {n};
      size := size + 1;
      InsertKeepsShape(R, F, p, n);
    }

    /** Unlinks `node`, which sits at ring position `k`, and uncounts it in `size`. */
    method SpliceOut(node: Node<T>, ghost k: int)
      requires Valid() && 0 < k <= size && ring[k] == node
      modifies this, footprint
      ensures Valid() && footprint == old(footprint)
      ensures ring == old(ring[..k]) + old(ring[k + 1..])
      ensures contents == old(contents[..k - 1]) + old(contents[k..])
      ensures size == old(size) - 1 && dummy == old(dummy) && updates == old(updates)
      ensures ring[k - 1] == old(ring[k - 1]) && ring[k] == old(ring[k + 1])
    {
      ghost var R, C := ring, contents;
      assert node.prev == R[k - 1] && node.next == R[k + 1];
      node.Remove(R, C, k);
      ring := R[..k] + R[k + 1..];
      contents := C[..k - 1] + C[k..];
      size := size - 1;
      RemoveKeepsShape(R, footprint, k);
    }

    ghost function State(): ListState<T>
      reads this
    {
      ListState(contents, updates)
    }

    /** An empty list: the dummy linked to itself in both directions. */
    constructor ()
      ensures Valid() && fresh(footprint)
      ensures dummy.prev == dummy && dummy.next == dummy
      ensures size == 0 && updates == 0 && State() == Empty()
    {
      var blank: T := *;
      dummy := new Node(blank, null, null);
      size := 0;
      updates := 0;
      contents := [];
      new;
      dummy.prev := dummy;
      dummy.next := dummy;
      ring := [dummy, dummy];
      footprint := {dummy};
    }

    method ListIterator() returns (c: Cursor<T>)
      requires Valid()
      ensures fresh(c) && c.list == this && c.Valid()
      ensures c.State() == Start(State())
    {
      c := new Cursor(this);
    }
  }

  class Cursor<T(0)> {
    const list: SimpleCDLL<T>
    var pos: int
    var prev: Node<T>
    var next: Node<T>
    /** The node `set` and `remove` act on; null when there is none. */
    var update: Node?<T>
    /** The list's counter as this cursor last saw it. */
    var updates: int

    ghost predicate Valid()
      reads this, list, list.footprint
    {
      && list.Valid()
      && 0 <= pos
      && updates <= list.updates
      && (updates == list.updates ==>
            && pos <= list.size
            && prev == list.ring[pos]
            && next == list.ring[pos + 1]
            && (update == null || (update == prev && 0 < pos) || (update == next && pos < list.size)))
    }

    ghost function State(): CursorState
      reads this
      requires 0 <= pos
    {
      CursorState(pos, if update == null then NoTarget else if update == prev then Behind else Ahead, updates)
    }

    lemma ValidIsCoherent()
      requires Valid()
      ensures Coherent(list.State(), State())
    {
    }

    /** A cursor before the first value of `l`, with no target and `l`'s counter. */
    constructor (l: SimpleCDLL<T>)
      requires l.Valid()
      ensures list == l && pos == 0 && prev == l.dummy && next == l.dummy.next
      ensures update == null && updates == l.updates
      ensures Valid()
    {
      list := l;
      pos := 0;
      prev := l.dummy;
      assert l.ring[0].next == l.ring[1];
      next := l.dummy.next;
      update := null;
      updates := l.updates;
    }

    /** Fails with ConcurrentModification once the list has changed behind this cursor. */
    method FailFast() returns (r: Result<()>)
      ensures r.Ok? <==> updates == list.updates
      ensures r.Err? ==> r.error == ConcurrentModification
    {
      if updates != list.updates {
        return Err(ConcurrentModification);
      }
      return Ok(());
    }

    /** Records a structural change in both the list's counter and this snapshot. */
    method NoteChange()
      modifies this`updates, list`updates
      ensures updates == old(updates) + 1 && list.updates == old(list.updates) + 1
    {
      list.updates := list.updates + 1;
      updates := updates + 1;
    }

    method HasNext() returns (r: Result<bool>)
      requires Valid()
      ensures r == CursorSpec.HasNext(list.State(), State())
    {
      var check := FailFast();
      if check.Err? {
        return Err(check.error);
      }
      r := Ok(pos < list.size);
    }

    method HasPrevious() returns (r: Result<bool>)
      requires Valid()
      ensures r == CursorSpec.HasPrevious(list.State(), State())
    {
      var check := FailFast();
      if check.Err? {
        return Err(check.error);
      }
      r := Ok(pos > 0);
    }

    method NextIndex() returns (r: Result<int>)
      requires Valid()
      ensures r == CursorSpec.NextIndex(list.State(), State())
    {
      var check := FailFast();
      if check.Err? {
        return Err(check.error);
      }
      r := Ok(pos);
    }

    method PreviousIndex() returns (r: Result<int>)
      requires Valid()
      ensures r == CursorSpec.PreviousIndex(list.State(), State())
    {
      var check := FailFast();
      if check.Err? {
        return Err(check.error);
      }
      r := Ok(pos - 1);
    }

    method Next() returns (r: Result<T>)
      requires Valid()
      modifies this
      ensures Valid()
      ensures (r, State()) == CursorSpec.Next(list.State(), old(State()))
    {
      ValidIsCoherent();
      var check := FailFast();
      if check.Err? {
        return Err(check.error);
      }
      // hasNext() repeats the fail-fast check that just passed
      if !(pos < list.size) {
        return Err(NoSuchElement);
      }
      assert list.ring[pos + 1].next == list.ring[pos + 2];
      update := next;
      prev := next;
      next := next.next;
      pos := pos + 1;
      r := Ok(update.value);
    }

    method Previous() returns (r: Result<T>)
      requires Valid()
      modifies this
      ensures Valid()
      ensures (r, State()) == CursorSpec.Previous(list.State(), old(State()))
    {
      ValidIsCoherent();
      var check := FailFast();
      if check.Err? {
        return Err(check.error);
      }
      // hasPrevious() repeats the fail-fast check that just passed
      if !(pos > 0) {
        return Err(NoSuchElement);
      }
      assert list.ring[pos].prev == list.ring[pos - 1];
      assert list.ring[pos - 1].next == list.ring[pos];
      update := prev;
      prev := prev.prev;
      next := prev.next;
      pos := pos - 1;
      r := Ok(update.value);
    }

    method Add(v: T) returns (r: Result<()>)
      requires Valid()
      modifies this, list, list.footprint
      ensures Valid() && fresh(list.footprint - old(list.footprint))
      ensures list.footprint == if r.Ok? then old(list.footprint) + {prev} else old(list.footprint)
      ensures r.Err? ==> list.ring == old(list.ring) && list.dummy == old(list.dummy)
      ensures (r, list.State(), State()) == CursorSpec.Add(old(list.State()), old(State()), v)
    {
      ValidIsCoherent();
      var check := FailFast();
      if check.Err? {
        return Err(check.error);
      }
      prev := list.SpliceIn(prev, pos, v);
      update := null;
      pos := pos + 1;
      NoteChange();
      r := Ok(());
    }

    /**
     * Unlinks the target node from the list and steps this cursor's links
     * over the gap, so that it sits where the removed value was.
     */
    method Unlink()
      requires Valid() && updates == list.updates && update != null
      modifies this`prev, this`next, this`pos, list, list.footprint
      ensures list.Valid() && list.footprint == old(list.footprint) && list.updates == old(list.updates)
      ensures var k := old(if update == prev then pos else pos + 1);
        && list.contents == old(list.contents[..k - 1]) + old(list.contents[k..])
        && pos == k - 1 && pos <= list.size && prev == list.ring[pos] && next == list.ring[pos + 1]
    {
      // index of the target in the ring
      ghost var k := if update == prev then pos else pos + 1;
      assert list.ring[k].next == list.ring[k + 1] && list.ring[k].prev == list.ring[k - 1];
      if next == update {
        next := update.next;
      }
      if prev == update {
        prev := update.prev;
        pos := pos - 1;
      }
      list.SpliceOut(update, k);
    }

    method Remove() returns (r: Result<()>)
      requires Valid()
      modifies this, list, list.footprint
      ensures Valid() && list.footprint == old(list.footprint)
      ensures r.Err? ==> list.ring == old(list.ring) && list.dummy == old(list.dummy)
      ensures (r, list.State(), State()) == CursorSpec.Remove(old(list.State()), old(State()))
    {
      ValidIsCoherent();
      var check := FailFast();
      if check.Err? {
        return Err(check.error);
      }
      if update == null {
        return Err(IllegalState);
      }
      Unlink();
      update := null;
      NoteChange();
      r := Ok(());
    }

    method Set(v: T) returns (r: Result<()>)
      requires Valid()
      modifies this, list, list.footprint
      ensures Valid() && list.footprint == old(list.footprint)
      ensures list.ring == old(list.ring) && list.dummy == old(list.dummy) && list.size == old(list.size)
      ensures (r, list.State(), State()) == CursorSpec.Set(old(list.State()), old(State()), v)
    {
      ValidIsCoherent();
      var check := FailFast();
      if check.Err? {
        return Err(check.error);
      }
      if update == null {
        return Err(IllegalState);
      }
      // index of the target in the contents
      ghost var i := if update == prev then pos - 1 else pos;
      update.value := v;
      list.contents := list.contents[i := v];
      update := null;
      r := Ok(());
    }
  }
}
