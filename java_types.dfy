/**
  The Java notions the list relies on: nullable references and the
  exceptions its operations throw.
 */
module JavaTypes {

  /** A slot of the backing array or an element argument: Java's `null` is `None`. */
  datatype Option<T> = None | Some(value: T)

  /** The unchecked exceptions MyArrayList and its iterator can throw. */
  datatype Exception =
    | IndexOutOfBounds      // get, remove(int), add(int, E)
    | NoSuchElement         // iterator next past the end
    | IllegalState          // iterator remove before any next
    | NullPointer           // equals called on a null slot
    | NegativeArraySize     // constructor given a negative capacity

  /** The outcome of a Java call: a returned value or a thrown exception. */
  datatype Result<R> = Ok(value: R) | Thrown(exc: Exception)
}
