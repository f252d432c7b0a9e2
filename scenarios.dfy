/**
 * Clients of the heap classes: two cursors on one list, where a structural
 * change made through one makes the other fail fast, while a `set` or a
 * failed call does not.
 */
module Scenarios {
  import opened CursorSpec
  import opened CircularList

  /**
   * Cursors `a` and `b` are obtained on a new list; `b` adds 10. From then
   * on `a` fails with ConcurrentModification, while `b`, which made the
   * change, still works and finds 10 behind it.
   */
  method TwoCursors() returns (stale: Result<bool>, own: Result<int>)
    ensures stale == Err(ConcurrentModification)
    ensures own == Ok(10)
  {
    var l := new SimpleCDLL<int>();
    var a := l.ListIterator();
    var b := l.ListIterator();
    var _ := b.Add(10);
    stale := a.HasNext();
    own := b.Previous();
  }

  /**
   * Cursor `b` adds 10 to a new list, and cursor `a` is obtained after that.
   * `b` steps back over 10 and sets it to 5. `set` is not a structural
   * change, so `a` still works: it has a next value, and that value is 5.
   */
  method SetKeepsOthers() returns (more: Result<bool>, seen: Result<int>)
    ensures more == Ok(true)
    ensures seen == Ok(5)
  {
    var l := new SimpleCDLL<int>();
    var b := l.ListIterator();
    var _ := b.Add(10);
    var a := l.ListIterator();
    var _ := b.Previous();
    var _ := b.Set(5);
    more := a.HasNext();
    seen := a.Next();
  }

  /**
   * Cursor `b` adds 10 to a new list, and cursor `a` is obtained after that.
   * `b` has no target, so its `remove()` fails with IllegalState and changes
   * nothing: `a` still works and reads 10.
   */
  method FailedRemoveKeepsOthers() returns (failed: Result<()>, seen: Result<int>)
    ensures failed == Err(IllegalState)
    ensures seen == Ok(10)
  {
    var l := new SimpleCDLL<int>();
    var b := l.ListIterator();
    var _ := b.Add(10);
    var a := l.ListIterator();
    failed := b.Remove();
    seen := a.Next();
  }
}
