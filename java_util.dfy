/** The parts of the Java platform library that the combinators in module
    Optionals are written against, modelled by their observable behaviour:
    java.util.Optional (a value or none), the possibly-null result of a
    java.util.function.Function, and java.util.stream.Stream reduced to the
    finite sequence of its elements.
 */
module JavaUtil {

  /** An Optional either holds one value or holds none. A Java Optional can
      never hold null, so Present always carries a real value. */
  datatype Optional<+T> = Present(value: T) | Absent

  /** What a Java Function returns: a value, or the null reference. */
  datatype Nullable<+T> = NonNull(value: T) | Null

  /** A result together with whether the library operation invoked the
      callback it was given (the mapper of map, the supplier of orElseGet). */
  datatype Invoked<+T> = Invoked(value: T, called: bool)

  /** Optional.isPresent */
  predicate IsPresent<T>(o: Optional<T>) {
    o.Present?
  }

  /** Optional.map: applies the mapper to the held value; a null result from
      the mapper gives an empty Optional, as does an empty input (in which
      case the mapper is not called). */
  function Map<I, O>(o: Optional<I>, mapper: I -> Nullable<O>): Invoked<Optional<O>> {
    match o
    case Absent => Invoked(Absent, false)
    case Present(v) =>
      match mapper(v)
      case Null => Invoked(Absent, true)
      case NonNull(w) => Invoked(Present(w), true)
  }

  /** Optional.orElseGet: the held value, or else what the supplier gives;
      the supplier is called only when the Optional is empty. */
  function OrElseGet<T>(o: Optional<T>, supplier: () -> T): Invoked<T> {
    match o
    case Present(v) => Invoked(v, false)
    case Absent => Invoked(supplier(), true)
  }

  /** Optional.ifPresent: the effects of the consumer on the held value, or
      no effect at all when the Optional is empty. A Consumer is modelled by
      the effects it performs when it accepts a value. */
  function OptionalIfPresent<T, E>(o: Optional<T>, consumer: T -> seq<E>): seq<E> {
    match o
    case Present(v) => consumer(v)
    case Absent => []
  }

  /** Stream.of(t): the one-element stream; never null. */
  function StreamOf<T>(t: T): Nullable<seq<T>> {
    NonNull([t])
  }

  /** Stream.empty(): the stream with no elements. */
  function StreamEmpty<T>(): seq<T> {
    []
  }

  /** Stream.findFirst: the first element, if there is one. */
  function FindFirst<T>(s: seq<T>): Optional<T> {
    if s == [] then Absent else Present(s[0])
  }
}
