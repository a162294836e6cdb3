# MyArrayList in Dafny

A model of `MyArrayList<E>`, a teaching implementation of an array-backed list, and
of its cursor iterator `MyIterator`. The list keeps an array `items`, whose length is
the capacity, and a count `size`. Its elements are `items[0..size)`. Every slot from
`size` to the end of the array is `null`.

The model keeps the source's form:

- `ArrayList.MyArrayList` is a class with the fields `items: array<Option<T>>` and
  `size`. `None` stands for Java's `null`, so a list may hold null elements, as
  the Java one may.
- The mutators change the array in place, or build a fresh array and swap it in,
  exactly where the Java code does. Their loops carry invariants.
- Every operation is stated against the ghost contents `Elements() == items[..size]`.
  The object invariant `Valid()` says `0 <= size <= items.Length` and that the
  slots past `size` are null.
- Exceptions are values of `Result<R> = Ok(value) | Thrown(exc)`. No precondition
  stands in for one.
- `ListSpec` gives, as functions on the contents sequence, what `indexOf`,
  `remove(Object)`, `add(int, E)` and `equals` compute. Its lemmas say what those
  results mean: first occurrence, membership, when an exception is thrown,
  inverse pairs, reflexivity and symmetry.
- `Clients` uses only the contracts. It runs a full traversal through the
  iterator, a fixed sequence of list calls, and the iterator's repeated `remove`.

The model follows the code where it departs from the usual list contract:

- `add(index, o)` checks `index` against the capacity (`items.length - 1`), not
  the size.
  - On a full list, inserting at `size` throws.
  - An index between the size and the capacity adds a null slot and drops `o`.
- `indexOf` and `equals` call `equals` on the list's own slots, so a null slot
  throws `NullPointerException` before a match.
  - `indexOf` throws only for a non-null query.
  - `equals` throws even when a list holding null is compared with itself.
  - `remove(Object)` catches the exception and returns false. `contains` passes
    it on.
- The iterator's `remove` decrements `lastIndex` instead of resetting it. After
  two `next()` calls, two `remove()` calls both succeed.
- A negative initial capacity throws `NegativeArraySizeException`, from the
  array allocation. It is neither clamped nor checked.

## Model

| member | source | states |
|---|---|---|
| `ArrayList.MyArrayList.constructor` | src/MyArrayList.java:32-35 | a new list is empty, valid, and its fresh array has exactly the requested capacity |
| `ArrayList.MyArrayList.Default` | src/MyArrayList.java:41-43 | the no-argument constructor gives an empty list of capacity 10 |
| `ArrayList.MyArrayList.New` | src/MyArrayList.java:32-35 | construction throws NegativeArraySize exactly for a negative capacity, and otherwise yields an empty list of that capacity |
| `ArrayList.MyArrayList.Size` | src/MyArrayList.java:49-51 | `size()` is the number of elements in the contents |
| `ArrayList.MyArrayList.IsEmpty` | src/MyArrayList.java:57-59 | `isEmpty()` holds iff the contents are empty |
| `ArrayList.MyArrayList.Get` | src/MyArrayList.java:104-109 | `get(i)` succeeds iff `0 <= i < size`, returns the i-th element, and otherwise throws IndexOutOfBounds |
| `ArrayList.MyArrayList.Add` | src/MyArrayList.java:65-82 | `add(o)` returns true and the contents become old contents + [o]; the array is kept when a slot is free, else replaced by a fresh one of length exactly `size + 1`; the invariant is kept |
| `ArrayList.MyArrayList.Clear` | src/MyArrayList.java:93-98 | `clear()` empties the list, nulls every slot and keeps the same array |
| `ArrayList.MyArrayList.IndexOf` | src/MyArrayList.java:115-129 | the two search loops compute exactly `ListSpec.IndexOf` of the contents and change nothing |
| `ArrayList.MyArrayList.Contains` | src/MyArrayList.java:135-139 | `contains(o)` throws exactly when indexOf does (NullPointer), and otherwise holds iff `o` is in the contents |
| `ArrayList.MyArrayList.RemoveAt` | src/MyArrayList.java:145-156 | `remove(i)` throws IndexOutOfBounds and changes nothing unless `0 <= i < size`; otherwise it returns true, shrinks the size by one, deletes position `i` with the suffix shifted left, keeps the array and nulls the vacated slot |
| `ArrayList.MyArrayList.RemoveValue` | src/MyArrayList.java:162-171 | `remove(o)` leaves exactly the contents and result given by `ListSpec.RemoveValue` and keeps the array |
| `ArrayList.MyArrayList.Insert` | src/MyArrayList.java:176-199 | `add(i, o)` throws iff `i < 0` or `i > capacity - 1`, and then changes nothing; otherwise it returns true, the array is a fresh one with one more slot, and the contents are those of `ListSpec.AddAt` |
| `ArrayList.MyArrayList.Equals` | src/MyArrayList.java:205-227 | `equals` is false for null or another class, and for another list is exactly `ListSpec.Equals` of the two contents |
| `ArrayList.MyArrayList.Iterator` | src/MyArrayList.java:289-291 | `iterator()` returns a fresh valid iterator over this list, with cursor 0 and no element visited |
| `ArrayList.MyIterator.constructor` | src/MyArrayList.java:232-246 | a new iterator has `index == 0`, `lastIndex == -1` and refers to the given list |
| `ArrayList.MyIterator.HasNext` | src/MyArrayList.java:252-254 | `hasNext()` holds iff the cursor is before the end of the current contents |
| `ArrayList.MyIterator.Next` | src/MyArrayList.java:260-269 | `next()` throws NoSuchElement at the end and then moves nothing; otherwise it returns the element at the old cursor and advances the cursor by one, keeping `lastIndex == index - 1` |
| `ArrayList.MyIterator.Remove` | src/MyArrayList.java:274-281 | `remove()` throws IllegalState when `lastIndex == -1`, passes on the list's IndexOutOfBounds when `lastIndex` is past the end, and otherwise deletes the element at `lastIndex` and steps both indices back |
| `Clients.Traverse` | src/MyArrayList.java:252-269 | iterating with hasNext/next visits exactly the contents in index order, and one more `next()` throws NoSuchElement |
| `ListSpec.InsertAt` | src/MyArrayList.java:186-194 | inserting at `i` puts `o` at `i`, keeps the prefix and shifts the suffix one place right |
| `ListSpec.RemoveAt` | src/MyArrayList.java:150-153 | deleting `i` keeps the prefix and shifts the later elements one place left |
| `ListSpec.RemoveInsert` | src/MyArrayList.java:150-153 | deleting the element just inserted at `i` restores the contents |
| `ListSpec.InsertRemove` | src/MyArrayList.java:186-194 | re-inserting a deleted element at its position restores the contents |
| `ListSpec.AddAt` | src/MyArrayList.java:176-199 | `add(i, o)` as written throws only IndexOutOfBounds, and on success the contents grow by exactly one slot |
| `ListSpec.AddAtGrowsByOne` | src/MyArrayList.java:176-199 | `add(i, o)` succeeds exactly for `0 <= i < capacity` and then adds one slot: `o` at `i` when `i <= size` (deleting it gives the old contents), else a null after the old contents |
| `ListSpec.AddAtAgreesBelowCapacity` | src/MyArrayList.java:178-194 | on a list that is not full, `add(i, o)` with `i <= size` is the intended positional insert |
| `ListSpec.AddAtRejectsAppendWhenFull` | src/MyArrayList.java:178 | for every full list (size equal to capacity), `add(size, o)` throws where the intended insert appends `o` |
| `ListSpec.AddAtDropsElement` | src/MyArrayList.java:186-194 | for every list and every `i` with `size < i < capacity`, `add(i, o)` appends null and drops `o`, where the intended insert throws |
| `ListSpec.InsertChecked` | src/MyArrayList.java:178 | the intended insert succeeds iff `0 <= i <= size`, else throws IndexOutOfBounds; it then adds exactly one slot holding `o` at `i`, deleting that slot gives back the old contents, and inserting at `size` appends |
| `ListSpec.IndexOf` | src/MyArrayList.java:115-129 | indexOf returns -1 or a valid position, and throws only NullPointer, only for a non-null query on contents holding null |
| `ListSpec.IndexOfFound` | src/MyArrayList.java:117-124 | indexOf returns `k >= 0` iff slot `k` equals the query and every earlier slot holds a different, non-null element |
| `ListSpec.IndexOfAbsent` | src/MyArrayList.java:123-128 | indexOf returns -1 iff every slot holds a non-null element different from the query |
| `ListSpec.IndexOfThrows` | src/MyArrayList.java:123-124 | indexOf throws iff the query is non-null and a null slot comes before every match |
| `ListSpec.IndexOfNeverThrows` | src/MyArrayList.java:117-120 | a null query, or contents without null, never make indexOf throw |
| `ListSpec.IndexOfContains` | src/MyArrayList.java:135-139 | when indexOf returns, its result is not -1 iff the query occurs in the contents |
| `ListSpec.IndexOfStopsAtNull` | src/MyArrayList.java:123-124 | `indexOf(x)` on `[null, x]` throws where the null-safe search returns 1 |
| `ListSpec.NullSafeIndexOf` | src/MyArrayList.java:115-129 | the intended search returns the first position equal to the query, null included, or -1 iff the query is absent |
| `ListSpec.IndexOfAgreesWhenOk` | src/MyArrayList.java:115-129 | whenever indexOf returns, it agrees with the null-safe search |
| `ListSpec.RemoveValue` | src/MyArrayList.java:162-171 | `remove(o)` either reports false and leaves the contents as they were, or reports true and has deleted one position holding `o` |
| `ListSpec.RemoveValueAbsent` | src/MyArrayList.java:165 | removing an absent value returns false and leaves the contents unchanged |
| `ListSpec.RemoveValueDeletesFirst` | src/MyArrayList.java:165-167 | when the scan reaches the first occurrence `k`, exactly position `k` is deleted and true is returned |
| `ListSpec.RemoveValueBlockedByNull` | src/MyArrayList.java:168-170 | when a null slot precedes every occurrence of a non-null value, the exception is caught: false, contents unchanged |
| `ListSpec.RemoveValueReports` | src/MyArrayList.java:162-171 | `remove(o)` returns true iff it shortened the contents by one, and only when `o` occurs |
| `ListSpec.ElementsEqual` | src/MyArrayList.java:216-222 | the element loop throws only NullPointer on a list holding null, and returns true only for equal contents |
| `ListSpec.Equals` | src/MyArrayList.java:205-227 | equals between two contents throws only NullPointer, only when the receiver holds null, and is true only for equal contents |
| `ListSpec.EqualsTrue` | src/MyArrayList.java:205-227 | equals is true iff the contents are equal and hold no null |
| `ListSpec.EqualsAtMismatch` | src/MyArrayList.java:216-219 | equals is false at the first mismatching non-null slot |
| `ListSpec.EqualsAtNull` | src/MyArrayList.java:216-217 | equals throws at the first null slot of the receiver reached by the scan |
| `ListSpec.EqualsReflexive` | src/MyArrayList.java:205-227 | a list without null equals itself (two empty lists are equal), and a list holding null throws when compared with itself |
| `ListSpec.EqualsSymmetric` | src/MyArrayList.java:205-227 | equals is symmetric wherever it is true |
| `ListSpec.NullSafeEqualsIsEquality` | src/MyArrayList.java:216-217 | the intended null-safe comparison is equality of contents, hence reflexive and symmetric |
| `ListSpec.EqualsAgreesWhenOk` | src/MyArrayList.java:205-227 | whenever equals returns, it agrees with the null-safe comparison |
| `ListSpec.EqualsThrowsOnNull` | src/MyArrayList.java:217 | comparing `[null]` with `[null]` throws, where the null-safe comparison holds |

## Findings

Nothing was executed. Each input comes from a lemma that Dafny proves about the
as-written function. The class keeps the as-written behaviour, because it models
the code. The corrected definitions stand beside it in `ListSpec`, with their
intended properties proved.

| source | as written | input that shows it | evidently intended | confidence | as-written member | corrected member |
|---|---|---|---|---|---|---|
| src/MyArrayList.java:178 | the insert bound is `index > items.length - 1` | any full list, e.g. capacity 1 holding `[x]`: `add(1, o)` throws IndexOutOfBounds | inserting at `size` appends; the valid range is `0..size` | high, not executed | `ListSpec.AddAtRejectsAppendWhenFull` | `ListSpec.InsertChecked` |
| src/MyArrayList.java:178-194 | an index past `size` passes the check, and the copy loop stops at `size` | any `size < index < capacity`, e.g. an empty list of capacity 10: `add(5, x)` returns true and the contents become `[null]` | IndexOutOfBounds for `index > size` | high, not executed | `ListSpec.AddAtDropsElement` | `ListSpec.InsertChecked` |
| src/MyArrayList.java:123-124 | `items[i].equals(o)` is called on a null slot | `indexOf(x)` on `[null, x]` throws NullPointerException | returns 1 (null-safe comparison) | medium, not executed | `ListSpec.IndexOfStopsAtNull` | `ListSpec.NullSafeIndexOf` |
| src/MyArrayList.java:217 | `items[i].equals(...)` is called on a null slot | a list holding `[null]` compared with itself throws NullPointerException | true (null-safe, reflexive equality) | medium, not executed | `ListSpec.EqualsThrowsOnNull` | `ListSpec.NullSafeEqualsIsEquality` |

## Left out

- src/arraylist_implementation/MyArrayList.java: an unfinished skeleton that does not compile. It has empty method bodies and no behaviour to state.
- The `try`/`catch` with its console output in `add(E)` (src/MyArrayList.java:83-86). Nothing in the modelled body throws, so `Add` always returns true.
- Java's 32-bit `int`: `size + 1` and `items.length + 1` are unbounded here. Overflow at `Integer.MAX_VALUE` and running out of memory are not modelled.
- Element `equals` is modelled as `==` on `T`. It is assumed reflexive, symmetric and false against `null`.
- `equals` against a `MyArrayList` with another element type: erasure gives both the same class. The argument type `Ref<T>` only carries lists of the same `T`.
- `ArrayList.MyArrayList.constructor` takes a `nat`. The negative case is modelled by `ArrayList.MyArrayList.New`.
- The `MyList` interface is not part of this model. Neither is conformance to `java.util.Iterator`.
- External mutation while an iterator is live is modelled only as far as the code reacts to it. `hasNext` reads the current size, and `remove` passes on the list's IndexOutOfBounds. The model promises nothing about which elements such an iteration visits.
- The iterator's outer instance (`MyArrayList.this`, used by `remove`) and its `list` field are the same list, because `iterator()` passes `this`. The model keeps one field.
- Complexity comments.
