/** The Optionals utility class: combinators that branch on whether an
    Optional holds a value, and that turn an Optional into a stream of its
    value. Every combinator is written against the same library operations
    as the Java code it models (module JavaUtil).

    Callbacks are Dafny function values. A Function or Supplier gives its
    result, and either() reports which callbacks it invoked; a Consumer or
    Runnable has no result, so it is modelled by the effects it performs,
    and consume() and its wrappers return the effects that took place.
 */
module Optionals {
  import opened JavaUtil

  /** One invocation of a caller-supplied callback: the present-branch
      callback applied to an argument, or the absent-branch callback run. */
  datatype Call<+I> = OnPresent(arg: I) | OnAbsent

  /** A result together with the log of the callbacks that were invoked, in
      the order they ran. */
  datatype Traced<+T, +I> = Traced(value: T, calls: seq<Call<I>>)

  /** either: the value the present-branch callback gives for the held
      value, or else the value the absent-branch supplier gives. It goes
      through Optional.map, so a null from onPresent makes the mapped
      Optional empty and the supplier is invoked as well. */
  function Either<I, O>(optional: Optional<I>, onPresent: I -> Nullable<O>, onAbsent: () -> O): (r: Traced<O, I>)
    ensures optional.Present? && onPresent(optional.value).NonNull? ==>
              r.value == onPresent(optional.value).value && r.calls == [OnPresent(optional.value)]
    ensures optional.Present? && onPresent(optional.value).Null? ==>
              r.value == onAbsent() && r.calls == [OnPresent(optional.value), OnAbsent]
    ensures optional.Absent? ==> r.value == onAbsent() && r.calls == [OnAbsent]
  {
    var mapped := Map(optional, onPresent);
    var result := OrElseGet(mapped.value, onAbsent);
    var presentCalls := if mapped.called then [OnPresent(optional.value)] else [];
    var absentCalls: seq<Call<I>> := if result.called then [OnAbsent] else [];
    Traced(result.value, presentCalls + absentCalls)
  }

  /** Which callbacks either() invokes: onPresent exactly when a value is
      held (and then with that value), onAbsent exactly when there is no
      value or onPresent answered null; a single invocation happens exactly
      when onPresent does not answer null. */
  lemma EitherInvocations<I, O>(optional: Optional<I>, onPresent: I -> Nullable<O>, onAbsent: () -> O)
    ensures var calls := Either(optional, onPresent, onAbsent).calls;
      && (forall x :: OnPresent(x) in calls <==> optional == Present(x))
      && (OnAbsent in calls <==> optional.Absent? || onPresent(optional.value).Null?)
      && (|calls| == 1 <==> optional.Absent? || onPresent(optional.value).NonNull?)
  {
  }

  /** either() does not always invoke exactly one callback: for any held
      value and any supplier there is a present-branch callback (one that
      answers null) after which both callbacks have run. */
  lemma EitherNullFallsThrough<I, O>(v: I, onAbsent: () -> O)
    ensures exists onPresent: I -> Nullable<O> ::
              Either(Present(v), onPresent, onAbsent).calls == [OnPresent(v), OnAbsent]
  {
    var answersNull: I -> Nullable<O> := x => Null;
    assert Either(Present(v), answersNull, onAbsent).calls == [OnPresent(v), OnAbsent];
  }

  /** consume: the effects of onPresent on the held value, or else the
      effects of onAbsent; never both, never neither. */
  function Consume<I, E>(optional: Optional<I>, onPresent: I -> seq<E>, onAbsent: () -> seq<E>): (effects: seq<E>)
    ensures optional.Present? ==> effects == onPresent(optional.value)
    ensures optional.Absent? ==> effects == onAbsent()
  {
    if IsPresent(optional) then OptionalIfPresent(optional, onPresent) else onAbsent()
  }

  /** A consumer whose only effect is to record that it was applied. */
  function LogPresent<I>(): I -> seq<Call<I>> {
    x => [OnPresent(x)]
  }

  /** A runnable whose only effect is to record that it was run. */
  function LogAbsent<I>(): () -> seq<Call<I>> {
    () => [OnAbsent]
  }

  /** consume() invokes exactly one of its callbacks, exactly once: with
      recording callbacks the effect log has one entry, and it names
      onPresent applied to the held value when there is one, else onAbsent. */
  lemma ConsumeCallsExactlyOne<I>(optional: Optional<I>)
    ensures var log := Consume(optional, LogPresent(), LogAbsent());
      && |log| == 1
      && (optional.Present? ==> log[0] == OnPresent(optional.value))
      && (optional.Absent? ==> log[0] == OnAbsent)
  {
  }

  /** ifPresent: consume() with a no-op for the absent branch. */
  function IfPresent<T, E>(optional: Optional<T>, onPresent: T -> seq<E>): (effects: seq<E>)
    ensures optional.Present? ==> effects == onPresent(optional.value)
    ensures optional.Absent? ==> effects == []
  {
    Consume(optional, onPresent, () => [])
  }

  /** ifAbsent: consume() with a no-op for the present branch. */
  function IfAbsent<T, E>(optional: Optional<T>, onAbsent: () -> seq<E>): (effects: seq<E>)
    ensures optional.Absent? ==> effects == onAbsent()
    ensures optional.Present? ==> effects == []
  {
    Consume(optional, (x: T) => [], onAbsent)
  }

  /** ifPresent() applies its callback once, to the held value, when there
      is one, and never otherwise. */
  lemma IfPresentCallsIffPresent<T>(optional: Optional<T>)
    ensures var log := IfPresent(optional, LogPresent());
      && (optional.Present? ==> log == [OnPresent(optional.value)])
      && (optional.Absent? ==> log == [])
  {
  }

  /** ifAbsent() runs its callback once when there is no value, and never
      otherwise. */
  lemma IfAbsentCallsIffAbsent<T>(optional: Optional<T>)
    ensures var log := IfAbsent<T, Call<T>>(optional, LogAbsent());
      && (optional.Absent? ==> log == [OnAbsent])
      && (optional.Present? ==> log == [])
  {
  }

  /** The two one-sided wrappers together do what consume() does: exactly
      one of them has an effect, and it is the branch consume() takes. */
  lemma IfPresentIfAbsentIsConsume<T, E>(optional: Optional<T>, onPresent: T -> seq<E>, onAbsent: () -> seq<E>)
    ensures IfPresent(optional, onPresent) + IfAbsent(optional, onAbsent) == Consume(optional, onPresent, onAbsent)
    ensures IfPresent(optional, onPresent) == [] || IfAbsent(optional, onAbsent) == []
  {
  }

  /** stream: either() with Stream.of for a held value and Stream.empty
      otherwise; the elements of the resulting stream. */
  function Stream<T>(optional: Optional<T>): (s: seq<T>)
    ensures |s| <= 1
    ensures s == [] <==> optional.Absent?
    ensures optional.Present? ==> s == [optional.value]
  {
    Either(optional, StreamOf, StreamEmpty).value
  }

  /** Stream.of never answers null, so stream() never falls through to
      Stream.empty after building the one-element stream: exactly one of
      the two branches is invoked. */
  lemma StreamInvokesOneBranch<T>(optional: Optional<T>)
    ensures |Either(optional, StreamOf, StreamEmpty).calls| == 1
  {
  }

  /** stream() loses nothing: taking the first element of the stream gives
      back the Optional. */
  lemma StreamFindFirst<T>(optional: Optional<T>)
    ensures FindFirst(Stream(optional)) == optional
  {
  }

  /** Conversely, every stream of at most one element is the stream of the
      Optional holding its first element. */
  lemma FindFirstStream<T>(s: seq<T>)
    requires |s| <= 1
    ensures Stream(FindFirst(s)) == s
  {
  }

  /** Two Optionals with the same stream are the same Optional. */
  lemma StreamInjective<T>(a: Optional<T>, b: Optional<T>)
    requires Stream(a) == Stream(b)
    ensures a == b
  {
  }
}
