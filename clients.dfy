/**
  Callers of MyArrayList that use only the contracts of its operations:
  a full traversal through the iterator and a few fixed call sequences.
 */
module Clients {
  import opened JavaTypes
  import opened ArrayList

  /**
    `while (it.hasNext()) it.next()` visits every element once, in index
    order, and one more `next()` then throws NoSuchElement.
   */
  method Traverse<T(==)>(list: MyArrayList<T>) returns (visited: seq<Option<T>>, after: Result<Option<T>>)
    requires list.Valid()
    ensures visited == list.Elements()
    ensures after == Thrown(NoSuchElement)
  {
    var it := list.Iterator();
    visited := [];
    while it.HasNext()
      invariant fresh(it) && it.Valid() && it.list == list
      invariant it.index <= |list.Elements()|
      invariant visited == list.Elements()[..it.index]
      decreases |list.Elements()| - it.index
    {
      var x := it.Next();
      visited := visited + [x.value];
    }
    after := it.Next();
  }

  /** Append, insert, remove and search on a list of integers. */
  method Scenario() {
    var list := new MyArrayList<int>.Default();
    var _ := list.Add(Some(1));
    var _ := list.Add(Some(2));
    var _ := list.Add(Some(3));
    assert list.Size() == 3;
    assert list.Elements() == [Some(1), Some(2), Some(3)];
    assert list.Get(2) == Ok(Some(3));

    var ins := list.Insert(1, Some(9));
    assert ins == Ok(true);
    assert list.Elements() == [Some(1), Some(9), Some(2), Some(3)];

    var rem := list.RemoveAt(0);
    assert rem == Ok(true);
    assert list.Elements() == [Some(9), Some(2), Some(3)];

    var k := list.IndexOf(Some(2));
    assert k == Ok(1);

    var removed := list.RemoveValue(Some(99));
    ListSpec.RemoveValueAbsent([Some(9), Some(2), Some(3)], Some(99));
    assert !removed && list.Elements() == [Some(9), Some(2), Some(3)];

    assert list.Get(10) == Thrown(IndexOutOfBounds);

    list.Clear();
    assert list.IsEmpty();
  }

  /**
    The iterator steps `lastIndex` back instead of forgetting it: after two
    `next()` calls, `remove()` succeeds twice, deleting both visited
    elements; a third `remove()` throws IllegalState.
   */
  method IteratorRemovesTwice() {
    var list := new MyArrayList<int>(3);
    var _ := list.Add(Some(1));
    var _ := list.Add(Some(2));
    var _ := list.Add(Some(3));
    var it := list.Iterator();
    var _ := it.Next();
    var _ := it.Next();
    var first := it.Remove();
    assert first == Ok(());
    assert list.Elements() == [Some(1), Some(3)];
    var second := it.Remove();
    assert second == Ok(());
    assert list.Elements() == [Some(3)];
    var third := it.Remove();
    assert third == Thrown(IllegalState);
  }
}
