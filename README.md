# AwaitCoroutines: the coroutine state machine in Dafny

AwaitCoroutines builds two-way coroutines on top of C# `async`/`await`.
`Coroutine.Run(body)` makes a coroutine `Coroutine<TInput, TGenerate>` and does
not start the body yet. The caller drives the coroutine with `Next(input)`.
`Next` stores the input, marks the coroutine `Running` and calls the single
stored continuation. The body runs until it awaits `co.Yield(value)` or
returns. The awaiter is never complete, so every await suspends the body and
overwrites the stored continuation with the resume point. `Next` then reports
one of two outcomes:

- the body's task has finished: the state is `Completed` and `Next` returns the task's result;
- otherwise: the state is `Suspended` and `Next` returns the last yielded value.

Misuse raises `CoroutineException`: `Next` while `Running` or `Completed`, and
`Yield` while not `Running`.

The model has three modules:

- `CoroutineSpec` (coroutine_spec.dfy) treats the coroutine's five fields as a
  value, a `Snapshot`. Each operation is a function from the old snapshot to
  the new one and to what the call returns. `Drive` runs a sequence of `Next`
  calls. The lemmas cover completion, faults and where the body resumes.
- `Coroutines` (coroutine.dfy) is the class. It has the fields `state`,
  `input`, `generate`, `continuation` and `task`, and the `Awaitable` that
  `Yield` hands to the body. Every method changes the fields in place and is
  proved to match its `CoroutineSpec` function. `NextAll` drives an object
  with a sequence of inputs and is proved to end exactly as `Drive` says, so
  the lemmas about `Drive` also hold of the object.
- `Countdown` (countdown.dfy) is the sample program's body. It decrements by
  two and is driven by feeding each output back as the next input. It serves
  as a concrete instance of the abstract body.

The compiler-generated async state machine is not modelled. The body is a
`Body(entry, step)` instead. From a resume point and the input it reads, `step`
runs one segment and ends in one of three ways: `Suspend(next, output)` (await
a `Yield`), `Done(result)` (return) or `Fail` (an exception escapes). The C#
`continuation` delegate becomes `StartBody` (the factory's start action) or
`ResumeAt(pos)`. The C# `task` becomes `NoTask` (still null), `Pending`,
`RanToCompletion(v)` or `Faulted`. Both `CoroutineException`s and a faulted
body task become the error variant of `Result`: `CannotProgress`,
`CannotYield` and `BodyFaulted`.

In two places the model follows the code where a reader might expect otherwise:

- The code does not clear the continuation when the coroutine completes. A
  `Completed` snapshot keeps its last continuation. It is never called again,
  because `Next` refuses to run (`CompletedIsFinal`).
- `Next` while `Running` throws and changes no field.

## Model

| member | source | states |
|---|---|---|
| `CoroutineSpec.Created` | Coroutine.cs:9-18 | A new coroutine is NotStarted. Its continuation is the start action and it has no task yet, so none of the body has run. It satisfies the state invariant `Consistent`. |
| `Coroutines.Coroutine.Run` | Coroutine.cs:9-18 | The factory builds an object whose fields equal `Created`. It keeps the body, satisfies `Valid`, and runs none of the body. |
| `Coroutines.Coroutine.IsCompleted` | Coroutine.cs:39-42 | True exactly when the state is Completed. For a valid coroutine this means the body's task has finished. |
| `Coroutines.Coroutine.Input` | Coroutine.cs:44-47 | Returns the stored input, which is the input of the latest `Next` that ran the body (before any such `Next`, the default). |
| `CoroutineSpec.YieldSpec` | Coroutine.cs:51-57 | Yield succeeds exactly when the state is Running, and otherwise fails with CannotYield. On success it stores the value and changes nothing else; the state stays Running. |
| `Coroutines.Coroutine.Yield` | Coroutine.cs:51-57 | The object changes exactly as `YieldSpec` says and stays `Valid` if it was. On success it returns an awaitable bound to this coroutine. On failure no field changes. |
| `CoroutineSpec.NextSpec` | Coroutine.cs:59-73 | From Running or Completed: fails with CannotProgress and changes nothing. From NotStarted or Suspended: the body runs from the stored position with exactly the given input. The outcome is then one of three. Suspend(q, y): Suspended at q, returns y. Done(v): Completed, returns v. Fail: Completed, BodyFaulted. The state is never Running afterwards, and `Consistent` is preserved. |
| `Coroutines.Coroutine.Next` | Coroutine.cs:59-73 | Keeps `Valid`. The new fields and the returned value are exactly those of `NextSpec`. |
| `CoroutineSpec.ResumeSpec` | Coroutine.cs:13-16 | Calling the continuation runs one body segment from `Position(continuation)`, reading the stored input. The state stays Running and the input is unchanged. Afterwards the task exists, and it is pending exactly when the body suspended. |
| `Coroutines.Coroutine.RunContinuation` | Coroutine.cs:13-16 | Runs the start action or the resume point, reading the input through `Input` or `GetResult`. On a suspension it yields and, because the awaiter is not complete, registers the resume point. The fields end exactly as `ResumeSpec` says. |
| `CoroutineSpec.SettleSpec` | Coroutine.cs:75-87 | Only the state changes. The state becomes Completed exactly when the task has finished, and is never Running. A pending task delivers the last yielded value. A finished task delivers its result, and a faulted task delivers BodyFaulted. |
| `Coroutines.Coroutine.SetResultFromContinuation` | Coroutine.cs:75-87 | The new fields and the returned value are exactly those of `SettleSpec`. |
| `Coroutines.Awaitable.GetAwaiter` | Coroutine.cs:98-101 | The awaiter is bound to the same coroutine. |
| `Coroutines.Awaitable.IsCompleted` | Coroutine.cs:103-106 | Never true, so every awaited Yield suspends the body. |
| `CoroutineSpec.OnCompletedSpec` | Coroutine.cs:108-111 | The single continuation is replaced by the new resume point, and nothing else changes. |
| `Coroutines.Awaitable.OnCompleted` | Coroutine.cs:108-111 | Called on a started coroutine, it changes the fields exactly as `OnCompletedSpec` says and keeps `Valid`. The `Awaitable` constructor is internal (Coroutine.cs:93), so in this repository a non-null awaitable comes only from `Yield`, whose coroutine has started. |
| `Coroutines.Awaitable.GetResult` | Coroutine.cs:113-116 | The await hands back the same input that `Input` exposes. |
| `CoroutineSpec.Drive` | Coroutine.cs:59-73 | A sequence of `Next` calls gives one result per input and keeps `Consistent`. A coroutine that was not Running is never left Running. |
| `CoroutineSpec.DriveAppend` | Coroutine.cs:59-73 | Driving with `xs + ys` is driving with `xs`, then with `ys` from the state reached. |
| `CoroutineSpec.CompletedIsFinal` | Coroutine.cs:61-72 | From Completed, every further `Next` fails with CannotProgress and the snapshot never changes. No body step runs and no output is produced. |
| `CoroutineSpec.NothingAfterCompletion` | Coroutine.cs:61-72 | Once any prefix of the calls completes the coroutine, every later call fails with CannotProgress. The earlier results and the final snapshot are those at completion. |
| `CoroutineSpec.ResumeAtLastYield` | Coroutine.cs:108-111 | After a `Next` in which the body suspended at q, the stored continuation is ResumeAt(q). The following `Next(x2)` runs the body from q with x2 and settles according to that step. |
| `CoroutineSpec.FaultThenCannotProgress` | Coroutine.cs:77-80 | A body that throws on its first segment gives BodyFaulted and leaves the coroutine Completed. The following `Next` fails with CannotProgress and does not repeat the fault. |
| `Countdown.CountdownStep` | Program.cs:25-30 | The sample body suspends with x - 2 at its after-await point exactly when x > 0, and otherwise returns 0. |
| `Countdown.InputsAreFedBack` | Program.cs:13-19 | The feedback inputs start at n, and each later input is the previous call's output. |
| `Countdown.CountdownRun` | Program.cs:22-31 | Driving the sample body with the feedback inputs from n, starting NotStarted or Suspended, gives exactly `ExpectedResults(n)` and ends Completed. |
| `Countdown.ExpectedShape` | Program.cs:26-30 | For even n >= 0 there are n/2 + 1 results: the k-th is n - 2 - 2k, and the last is 0. |
| `Countdown.SuspendedUntilLast` | Program.cs:14-18 | Every call of a feedback run except the last leaves the coroutine Suspended, so the `while (!co.IsCompleted)` loop makes all of them. |
| `Countdown.FeedbackRun` | Program.cs:11-19 | A fresh coroutine driven from even n >= 0 returns n - 2, ..., 0, and is Suspended after each of these n/2 calls. The last call returns 0 and leaves it Completed. From 42 that is 40, 38, ..., 0, then 0. |
| `Coroutines.NextAll` | Program.cs:14-19 | Driving an object with the inputs `xs`, one `Next` each, keeps `Valid`. The object's final fields and the returned results are exactly those of `Drive`. |
| `Countdown.FirstTwoSteps` | Program.cs:11-16 | On the object: `Next(42)` returns 40, then `Next(40)` returns 38, and the coroutine is Suspended. |

## Left out

- The C# async machinery is not modelled: `Task<T>`, the compiler-generated state machine, and the `INotifyCompletion` and `Action` plumbing. A body is an explicit step function instead. Awaiting something other than a `Yield`, yielding without awaiting, and yielding twice before one await all fall outside that shape.
- A body that neither yields nor returns is not modelled: each step is a single terminating segment.
- A reentrant `Next` from inside the body is not modelled separately. The body is a pure step function, so it cannot call the coroutine. A nested `Next` throws `CannotProgress` because the state is Running; if the body does not catch it, its effect on the task is the `Fail` step.
- A faulted task is only `BodyFaulted`. The .NET `AggregateException` that `task.Result` throws is not modelled.
- `CoroutineException` is not modelled: its constructors, serialization and message text. Only which call fails, and why, is modelled.
- Coroutines.Coroutine.Next: the optional argument `default(TInput)` is not modelled; callers always pass the input.
- Coroutines.Coroutine.Run: the fields' initial `default(T)` values are passed in explicitly.
- Threading and concurrent misuse are not modelled.
- Only coroutines built by `Run` from an `async` body are modelled; such a body's exceptions are caught in its task. Three cases make `Next` throw after it has set Running at Coroutine.cs:65. The public constructor `Coroutine()` at Coroutine.cs:49 leaves the continuation null, so the continuation call throws at Coroutine.cs:66. A body that is not `async` and throws before returning its task also throws at Coroutine.cs:66. A body that returns a null task does not throw there, since the start action stores the null at Coroutine.cs:15; instead `task.IsCompleted` throws at Coroutine.cs:77. Either way the state stays Running for good: every later `Next` fails, and `Yield` from outside succeeds. The model has no such stuck-Running result, and `Drive`'s promise never to leave a non-Running coroutine Running does not hold of them.
- A default `Awaitable` (`new Awaitable()` or `default(Awaitable)`, allowed because it is a public struct) has a null coroutine; the model's `Awaitable` always holds one.
- Program.cs: `Main`'s console output is not modelled, and neither is the `"hello!"` line. Its loop is modelled as the input sequence `FeedbackInputs`, where each output is fed back as the next input, and on the object as `NextAll`. The body's `double` input and `Math.Floor` are modelled as `int`, where the floor is the identity; this is also what the sample driver passes.
- Countdown.FeedbackRun is stated for every even start value rather than for the literal 42, which is one instance of it.
