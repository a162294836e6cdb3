/**
  MyArrayList: a generic list kept in an array `items` whose first `size`
  slots hold the elements, and its cursor iterator.  Every operation works in
  place on the array as the Java class does; its effect on the contents is
  stated through the functions of ListSpec.
 */
module ArrayList {
  import opened JavaTypes
  import ListSpec

  /** What `equals(Object o)` may be handed: null, another MyArrayList, or an object of another class. */
  datatype Ref<T(==)> = Null | ListRef(list: MyArrayList<T>) | OtherClass

  class MyArrayList<T(==)> {
    /** The backing array; its length is the capacity. */
    var items: array<Option<T>>
    /** The number of elements, held in `items[0..size)`. */
    var size: int

    static const DefaultCapacity := 10

    /** The size fits the array, and every slot past the size is null. */
    ghost predicate Valid()
      reads this, items
    {
      0 <= size <= items.Length &&
      forall i :: size <= i < items.Length ==> items[i] == None
    }

    /** The contents of the list, in order. */
    ghost function Elements(): seq<Option<T>>
      reads this, items
      requires Valid()
    {
      items[..size]
    }

    /** An empty list with room for `initialCapacity` elements. */
    constructor (initialCapacity: nat)
      ensures Valid() && fresh(items)
      ensures Elements() == [] && items.Length == initialCapacity
    {
      items := new Option<T>[initialCapacity](_ => None);
      size := 0;
    }

    /** An empty list with the default capacity of ten. */
    constructor Default()
      ensures Valid() && fresh(items)
      ensures Elements() == [] && items.Length == DefaultCapacity
    {
      items := new Option<T>[DefaultCapacity](_ => None);
      size := 0;
    }

    /** `new MyArrayList(n)` for any int: allocating a negative-length array throws. */
    static method New(initialCapacity: int) returns (r: Result<MyArrayList<T>>)
      ensures r.Thrown? <==> initialCapacity < 0
      ensures r.Thrown? ==> r.exc == NegativeArraySize
      ensures r.Ok? ==> fresh(r.value) && fresh(r.value.items) && r.value.Valid() &&
                        r.value.Elements() == [] && r.value.items.Length == initialCapacity
    {
      if initialCapacity < 0 {
        return Thrown(NegativeArraySize);
      }
      var list := new MyArrayList<T>(initialCapacity);
      return Ok(list);
    }

    /** The number of elements. */
    function Size(): (n: int)
      reads this, items
      requires Valid()
      ensures n == |Elements()|
    {
      size
    }

    /** Whether the list holds no element. */
    function IsEmpty(): (b: bool)
      reads this, items
      requires Valid()
      ensures b <==> Elements() == []
    {
      size == 0
    }

    /** The element at `index`, or IndexOutOfBounds unless `0 <= index < size`. */
    function Get(index: int): (r: Result<Option<T>>)
      reads this, items
      requires Valid()
      ensures r.Ok? <==> 0 <= index < |Elements()|
      ensures r.Ok? ==> r.value == Elements()[index]
      ensures r.Thrown? ==> r.exc == IndexOutOfBounds
    {
      if index < 0 || index >= size then Thrown(IndexOutOfBounds) else Ok(items[index])
    }

    /**
      Appends `o`. In place when a slot is free; otherwise into a fresh array
      of exactly `size + 1` slots holding the old elements in order.
     */
    method Add(o: Option<T>) returns (added: bool)
      requires Valid()
      modifies this, items
      ensures Valid()
      ensures Elements() == old(Elements()) + [o]
      ensures added
      ensures old(size) < old(items.Length) ==> items == old(items)
      ensures old(size) == old(items.Length) ==> fresh(items) && items.Length == old(size) + 1
    {
      if size < items.Length {
        items[size] := o;
        size := size + 1;
        return true;
      }
      var temp := new Option<T>[size + 1](_ => None);
      for i := 0 to size
        modifies temp
        invariant forall j :: 0 <= j < i ==> temp[j] == items[j]
      {
        temp[i] := items[i];
      }
      temp[temp.Length - 1] := o;
      items := temp;
      size := size + 1;
      return true;
    }

    /** Nulls out the elements and empties the list; the array is kept. */
    method Clear()
      requires Valid()
      modifies this, items
      ensures Valid() && items == old(items)
      ensures Elements() == []
      ensures forall i :: 0 <= i < items.Length ==> items[i] == None
    {
      for i := 0 to size
        modifies items
        invariant forall j :: 0 <= j < i ==> items[j] == None
        invariant forall j :: size <= j < items.Length ==> items[j] == None
      {
        items[i] := None;
      }
      size := 0;
    }

    /**
      The first index whose slot matches `o`, or -1: a null query scans for a
      null slot first; then each slot's `equals(o)` is called, which throws
      NullPointer on a null slot.
     */
    method IndexOf(o: Option<T>) returns (r: Result<int>)
      requires Valid()
      ensures r == ListSpec.IndexOf(Elements(), o)
    {
      ghost var s := Elements();
      if o == None {
        for i := 0 to size
          invariant forall j :: 0 <= j < i ==> items[j] != None
        {
          if items[i] == None {
            ListSpec.IndexOfFound(s, o, i);
            return Ok(i);
          }
        }
      }
      for i := 0 to size
        invariant ListSpec.ClearBefore(s, o, i)
      {
        if items[i] == None {
          ListSpec.IndexOfThrows(s, o);
          return Thrown(NullPointer);
        }
        if items[i] == o {
          ListSpec.IndexOfFound(s, o, i);
          return Ok(i);
        }
      }
      ListSpec.IndexOfAbsent(s, o);
      return Ok(-1);
    }

    /** Whether `o` is in the list, by way of indexOf (whose NullPointer it passes on). */
    method Contains(o: Option<T>) returns (r: Result<bool>)
      requires Valid()
      ensures r.Thrown? <==> ListSpec.IndexOf(Elements(), o).Thrown?
      ensures r.Thrown? ==> r.exc == NullPointer
      ensures r.Ok? ==> (r.value <==> o in Elements())
    {
      var k := IndexOf(o);
      if k.Thrown? {
        return Thrown(k.exc);
      }
      ListSpec.IndexOfContains(Elements(), o);
      return Ok(k.value != -1);
    }

    /**
      Deletes the element at `index`, shifting the later ones left and nulling
      the vacated last slot; IndexOutOfBounds unless `0 <= index < size`.
     */
    method RemoveAt(index: int) returns (r: Result<bool>)
      requires Valid()
      modifies this, items
      ensures Valid() && items == old(items)
      ensures r.Thrown? <==> !(0 <= index < old(size))
      ensures r.Thrown? ==> r.exc == IndexOutOfBounds && size == old(size) && unchanged(items)
      ensures r.Ok? ==> r.value && size == old(size) - 1 &&
                        Elements() == ListSpec.RemoveAt(old(Elements()), index)
    {
      if index < 0 || index >= size {
        return Thrown(IndexOutOfBounds);
      }
      ghost var s := Elements();
      for i := index + 1 to size
        modifies items
        invariant forall j :: 0 <= j < index ==> items[j] == s[j]
        invariant forall j :: index <= j < i - 1 ==> items[j] == s[j + 1]
        invariant forall j :: i <= j < size ==> items[j] == s[j]
        invariant forall j :: size <= j < items.Length ==> items[j] == None
      {
        items[i - 1] := items[i];
      }
      size := size - 1;
      items[size] := None;
      assert Elements() == ListSpec.RemoveAt(s, index);
      return Ok(true);
    }

    /**
      Deletes the first occurrence of `o` and reports true; reports false when
      there is none, or when indexOf throws (the exception is caught).
     */
    method RemoveValue(o: Option<T>) returns (removed: bool)
      requires Valid()
      modifies this, items
      ensures Valid() && items == old(items)
      ensures (Elements(), removed) == ListSpec.RemoveValue(old(Elements()), o)
    {
      var k := IndexOf(o);
      if k.Thrown? || k.value == -1 {
        return false;
      }
      k := IndexOf(o);
      var _ := RemoveAt(k.value);
      return true;
    }

    /** Slot `j` of the array add(int, E) builds from the old slots `a`. */
    static ghost function Shifted(a: seq<Option<T>>, index: int, o: Option<T>, j: int): (r: Option<T>)
      requires 0 <= index < |a| && 0 <= j <= |a|
    {
      if j < index then a[j] else if j == index then o else a[j - 1]
    }

    /**
      `add(index, o)`, as written: the index is checked against the capacity,
      never the size; on success the array is replaced by one slot longer.
     */
    method Insert(index: int, o: Option<T>) returns (r: Result<bool>)
      requires Valid()
      modifies this
      ensures Valid()
      ensures r.Thrown? <==> ListSpec.AddAt(old(Elements()), old(items.Length), index, o).Thrown?
      ensures r.Thrown? ==> r.exc == IndexOutOfBounds && items == old(items) && size == old(size)
      ensures r.Ok? ==> r.value && fresh(items) && items.Length == old(items.Length) + 1 &&
                        Elements() == ListSpec.AddAt(old(Elements()), old(items.Length), index, o).value
    {
      if index < 0 || index > items.Length - 1 {
        return Thrown(IndexOutOfBounds);
      }
      ghost var s := Elements();
      ghost var slots := items[..];
      var temp := new Option<T>[items.Length + 1](_ => None);
      for i := 0 to size + 1
        modifies temp
        invariant forall j :: 0 <= j < i ==> temp[j] == Shifted(slots, index, o, j)
        invariant forall j :: i <= j < temp.Length ==> temp[j] == None
      {
        if i < index {
          temp[i] := items[i];
        } else if i == index {
          temp[i] := o;
        } else {
          temp[i] := items[i - 1];
        }
      }
      items := temp;
      size := size + 1;
      if index <= |s| {
        assert Elements() == ListSpec.InsertAt(s, index, o);
      } else {
        assert Elements() == s + [None];
      }
      return Ok(true);
    }

    /**
      `equals(o)`: false for null or another class and for a different size;
      otherwise each slot's `equals` is called against the other list's
      element at that position, which throws NullPointer on a null slot.
     */
    method Equals(o: Ref<T>) returns (r: Result<bool>)
      requires Valid()
      requires o.ListRef? ==> o.list.Valid()
      ensures !o.ListRef? ==> r == Ok(false)
      ensures o.ListRef? ==> r == ListSpec.Equals(Elements(), o.list.Elements())
    {
      if !o.ListRef? {
        return Ok(false);
      }
      var other := o.list;
      if size != other.Size() {
        return Ok(false);
      }
      ghost var a, b := Elements(), other.Elements();
      for i := 0 to size
        invariant ListSpec.AgreeBefore(a, b, i)
      {
        if items[i] == None {
          ListSpec.EqualsAtNull(a, b, i);
          return Thrown(NullPointer);
        }
        var g := other.Get(i);
        if items[i] != g.value {
          ListSpec.EqualsAtMismatch(a, b, i);
          return Ok(false);
        }
      }
      ListSpec.EqualsTrue(a, b);
      return Ok(true);
    }

    /** A fresh iterator over this list, positioned before the first element. */
    method Iterator() returns (it: MyIterator<T>)
      requires Valid()
      ensures fresh(it) && it.Valid() && it.list == this
      ensures it.index == 0 && it.lastIndex == -1
    {
      it := new MyIterator(this);
    }
  }

  /**
    The list's cursor: `index` is the next position to visit and `lastIndex`
    the position most recently returned by Next.  Remove steps both back, so
    `lastIndex == index - 1` always holds.
   */
  class MyIterator<T(==)> {
    const list: MyArrayList<T>
    var index: int
    var lastIndex: int

    ghost predicate Valid()
      reads this, list, list.items
    {
      list.Valid() && 0 <= index && lastIndex == index - 1
    }

    constructor (list: MyArrayList<T>)
      requires list.Valid()
      ensures Valid() && this.list == list
      ensures index == 0 && lastIndex == -1
    {
      this.list := list;
      index := 0;
      lastIndex := -1;
    }

    /** Whether an element remains at or after the cursor. */
    function HasNext(): (b: bool)
      reads this, list, list.items
      requires Valid()
      ensures b <==> index < |list.Elements()|
    {
      index < list.Size()
    }

    /** Returns the element at the cursor and advances; NoSuchElement when none is left. */
    method Next() returns (r: Result<Option<T>>)
      requires Valid()
      modifies this
      ensures Valid()
      ensures old(index) < |list.Elements()| ==>
                r == Ok(list.Elements()[old(index)]) && index == old(index) + 1
      ensures old(index) >= |list.Elements()| ==>
                r == Thrown(NoSuchElement) && index == old(index)
    {
      if !HasNext() {
        return Thrown(NoSuchElement);
      }
      index := index + 1;
      lastIndex := lastIndex + 1;
      var g := list.Get(lastIndex);
      return g;
    }

    /**
      Deletes the element at `lastIndex` from the list and steps the cursor
      back; IllegalState when `lastIndex` is -1, and the list's own
      IndexOutOfBounds (cursor unchanged) when it is past the end.
     */
    method Remove() returns (r: Result<()>)
      requires Valid()
      modifies this, list, list.items
      ensures Valid() && list.items == old(list.items)
      ensures old(lastIndex) == -1 ==>
                r == Thrown(IllegalState) && index == old(index) && list.Elements() == old(list.Elements())
      ensures old(lastIndex) >= old(|list.Elements()|) ==>
                r == Thrown(IndexOutOfBounds) && index == old(index) && list.Elements() == old(list.Elements())
      ensures 0 <= old(lastIndex) < old(|list.Elements()|) ==>
                r == Ok(()) && index == old(index) - 1 &&
                list.Elements() == ListSpec.RemoveAt(old(list.Elements()), old(lastIndex))
    {
      if lastIndex == -1 {
        return Thrown(IllegalState);
      }
      var removed := list.RemoveAt(lastIndex);
      if removed.Thrown? {
        return Thrown(removed.exc);
      }
      index := index - 1;
      lastIndex := lastIndex - 1;
      return Ok(());
    }
  }
}
