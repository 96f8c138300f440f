# OptionalUtils in Dafny

A verified model of `Optionals`, a stateless Java utility class of
combinators over `java.util.Optional`:

- `either` turns an Optional into a value: it applies `onPresent` to the
  held value, or calls the supplier `onAbsent` when there is none. It is
  written as `optional.map(onPresent).orElseGet(onAbsent)`.
- `consume` runs the consumer `onPresent` on the held value, or the
  runnable `onAbsent` when there is none.
- `ifPresent` and `ifAbsent` are `consume` with a no-op for the other branch.
- `stream` turns an Optional into a stream of zero or one elements, by way
  of `either` with `Stream::of` and `Stream::empty`.

Files:

- `java_util.dfy` (module `JavaUtil`): the library behaviour the class
  relies on. `Optional<T>` is `Present(value) | Absent`. `Nullable<T>` is what
  a Java `Function` returns, a value or `Null`. It also holds `Optional.map`
  (a null mapper result gives an empty Optional), `Optional.orElseGet`,
  `Optional.isPresent` and `Optional.ifPresent`. `map` and `orElseGet` also
  report whether they invoked the callback they were given. A stream is the finite
  sequence of its elements, with `Stream.of`, `Stream.empty` and
  `Stream.findFirst`.
- `optionals.dfy` (module `Optionals`): the five combinators, built from those
  operations the way the Java code builds them, and the lemmas about them.

Callbacks are Dafny function values. `either` returns a `Traced` value: the
result plus the log of callback invocations (`OnPresent(v)`, `OnAbsent`) in
the order they happened, built from what `map` and `orElseGet` report. A `Consumer` or `Runnable` returns nothing, so it is
modelled by the sequence of effects it performs. `consume`, `ifPresent` and
`ifAbsent` return the effects that took place. Instantiating the callbacks
with `LogPresent`/`LogAbsent`, whose only effect is to record their own
invocation, turns "which callback ran, how often" into a statement about
that sequence.

One would expect `either`, like `consume`, to invoke exactly one callback.
It does not: `Optional.map` turns a null result of `onPresent` into an empty
Optional, so `orElseGet` then invokes `onAbsent` as well, and its value is
returned. The model keeps this behaviour. `Either`'s contract states all three
cases. `EitherInvocations` shows that exactly one callback runs iff
`onPresent` does not answer null. `EitherNullFallsThrough` shows that a
callback answering null always exists.

## Model

| member | source | states |
|---|---|---|
| `Optionals.Either` | src/main/com/writeoncereadmany/optionals/Optionals.java:12-15 | held value and non-null `onPresent` result: that result is returned and only `onPresent(v)` is invoked; `onPresent` answers null: `onAbsent()` is returned and both callbacks ran, `onPresent` first; no value: `onAbsent()` is returned and only `onAbsent` ran |
| `Optionals.EitherInvocations` | src/main/com/writeoncereadmany/optionals/Optionals.java:14 | `onPresent` is invoked with `x` iff the Optional holds `x`; `onAbsent` is invoked iff there is no value or `onPresent` answered null; exactly one invocation happens iff `onPresent` does not answer null |
| `Optionals.EitherNullFallsThrough` | src/main/com/writeoncereadmany/optionals/Optionals.java:14 | for every held value and supplier there is an `onPresent` after which both callbacks have run, so "exactly one callback" does not hold for all inputs |
| `Optionals.Consume` | src/main/com/writeoncereadmany/optionals/Optionals.java:17-27 | the effects are exactly those of `onPresent` on the held value when there is one, and exactly those of `onAbsent` otherwise |
| `Optionals.ConsumeCallsExactlyOne` | src/main/com/writeoncereadmany/optionals/Optionals.java:17-27 | with recording callbacks the log has exactly one entry: `onPresent` applied to the held value, or `onAbsent` when there is none |
| `Optionals.IfPresent` | src/main/com/writeoncereadmany/optionals/Optionals.java:34-37 | the effects of `onPresent` on the held value, or no effect when there is no value |
| `Optionals.IfPresentCallsIffPresent` | src/main/com/writeoncereadmany/optionals/Optionals.java:34-37 | the callback is applied once, to the held value, when there is one, and never otherwise |
| `Optionals.IfAbsent` | src/main/com/writeoncereadmany/optionals/Optionals.java:39-42 | the effects of `onAbsent` when there is no value, no effect when there is one |
| `Optionals.IfAbsentCallsIffAbsent` | src/main/com/writeoncereadmany/optionals/Optionals.java:39-42 | the callback runs once when there is no value and never when there is one |
| `Optionals.IfPresentIfAbsentIsConsume` | src/main/com/writeoncereadmany/optionals/Optionals.java:34-42 | `ifPresent` then `ifAbsent` has the effects of `consume` with the same callbacks, and at least one of the two has no effect |
| `Optionals.Stream` | src/main/com/writeoncereadmany/optionals/Optionals.java:29-32 | at most one element; empty iff the Optional is empty; exactly `[v]` when it holds `v` |
| `Optionals.StreamInvokesOneBranch` | src/main/com/writeoncereadmany/optionals/Optionals.java:31 | `Stream.of` never answers null, so building the stream invokes exactly one of `Stream::of` and `Stream::empty` |
| `Optionals.StreamFindFirst` | src/main/com/writeoncereadmany/optionals/Optionals.java:29-32 | `findFirst` of the stream gives back the original Optional |
| `Optionals.FindFirstStream` | src/main/com/writeoncereadmany/optionals/Optionals.java:29-32 | every sequence of at most one element is the stream of its `findFirst` |
| `Optionals.StreamInjective` | src/main/com/writeoncereadmany/optionals/Optionals.java:29-32 | two Optionals with the same stream are equal |

## Left out

- Laziness, single use and pipeline behaviour of `java.util.stream.Stream`:
  these belong to the library, so a stream is the plain sequence of its
  elements.
- Exceptions thrown by callbacks: the class neither catches nor translates
  them, so they just propagate and nothing in it depends on them.
- Null arguments are not modelled; every Optional and callback in the model
  is a real value. In Java a null Optional throws `NullPointerException` in
  every combinator, and so does a null `onPresent` passed to `either`, because
  `Optional.map` checks its mapper before looking at the value. Any other
  null callback is only touched on its own branch: on the branch not taken it
  is accepted and the call behaves as with any callback (for example
  `either(Optional.of(v), f, null)` with `f(v)` non-null returns `f(v)`, and
  `ifAbsent(Optional.of(v), null)` returns normally); on the branch taken it
  throws `NullPointerException`.
- Side effects of a `Function` or `Supplier` passed to `either` are not
  modelled. They are pure Dafny functions, and `either` reports only which of
  them it invoked.
- Optionals.IfPresent, Optionals.IfAbsent: in the Java code the no-op
  lambda for the other branch is still invoked. It has no effect, so in the
  effects model it is invisible.
- Concurrency and thread safety: the class has no state, so there is
  nothing to model.
- Determinism of repeated calls holds because every member is a Dafny
  function. It is not stated as a lemma.
