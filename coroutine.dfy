/** The coroutine class of AwaitCoroutines, with its fields updated in place.

    Each method is proved to move the fields exactly as the matching function
    of CoroutineSpec moves a snapshot, so what is proved there about
    sequences of calls holds of the object. */
module Coroutines {
  import opened CoroutineSpec

  class Coroutine<I, O, P> {
    var state: CoroutineState
    var input: I
    var generate: O
    var continuation: Continuation<P>
    var task: Task<O>
    /** The body that the factory's start action invokes. */
    const body: Body<P, I, O>

    /** The fields as a value. */
    ghost function Snap(): Snapshot<I, O, P>
      reads this
    {
      Snapshot(state, input, generate, continuation, task)
    }

    ghost predicate Valid()
      reads this
    {
      Consistent(Snap())
    }

    /** `Coroutine.Run`: a new coroutine whose continuation will start the body
        on the first `Next`; nothing of the body runs yet. The C# fields start
        at `default(T)`, given here explicitly. */
    constructor Run(body: Body<P, I, O>, defaultInput: I, defaultOutput: O)
      ensures Valid()
      ensures this.body == body
      ensures Snap() == Created(defaultInput, defaultOutput)
    {
      this.body := body;
      state := NotStarted;
      input := defaultInput;
      generate := defaultOutput;
      continuation := StartBody;
      task := NoTask;
    }

    /** On a valid coroutine, Completed exactly when the body's task has
        finished: an unstarted or suspended coroutine's body has not. */
    predicate IsCompleted()
      reads this
      ensures IsCompleted() <==> state == Completed
      ensures Valid() && IsCompleted() ==> task.IsCompleted()
    {
      state == Completed
    }

    /** The input of the latest `Next` that ran the body; before any, the default.
        A `Next` that fails stores nothing. */
    function Input(): (x: I)
      reads this
      ensures x == Snap().input
    {
      input
    }

    /** `Yield(y)`: fails with `CannotYield` unless Running; otherwise stores `y`
        as the value the enclosing `Next` returns and hands back the awaitable. */
    method Yield(y: O) returns (r: Result<Awaitable<I, O, P>>)
      modifies this
      ensures r.Ok? ==> r.value.co == this
      ensures YieldSpec(old(Snap()), y) ==
        if r.Ok? then Ok(Snap()) else Err(r.error)
      ensures r.Err? ==> Snap() == old(Snap())
      ensures old(Valid()) ==> Valid()
    {
      if state != Running {
        return Err(CannotYield);
      }
      generate := y;
      r := Ok(Awaitable(this));
    }

    /** `Next(x)`: from NotStarted or Suspended, stores `x`, sets Running, calls
        the stored continuation and settles the outcome; otherwise fails with
        `CannotProgress`. */
    method Next(x: I) returns (r: Result<O>)
      requires Valid()
      modifies this
      ensures Valid()
      ensures Outcome(Snap(), r) == NextSpec(old(Snap()), body, x)
    {
      if state == NotStarted || state == Suspended {
        input := x;
        state := Running;
        RunContinuation();
        r := SetResultFromContinuation();
      } else {
        r := Err(CannotProgress);
      }
    }

    /** Calls the stored continuation: the factory's start action invokes the
        body and stores its task; a resume point continues the body, which
        reads the input through `Input` or through the awaiter's `GetResult`.
        The body runs one segment; a `Yield` it awaits stores its output and,
        since the awaiter is never complete, registers the resume point. */
    method RunContinuation()
      requires Entered(Snap())
      modifies this
      ensures Snap() == ResumeSpec(old(Snap()), body)
    {
      var starting := continuation.StartBody?;
      var aw := Awaitable(this);
      var p := if starting then body.entry else continuation.pos;
      var x := if starting then Input() else aw.GetResult();
      match body.step(p, x)
      case Suspend(q, y) =>
        var yielded := Yield(y);
        var awaiter := yielded.value.GetAwaiter();
        if !awaiter.IsCompleted() {
          awaiter.OnCompleted(q);
        }
        task := Pending;
      case Done(v) =>
        task := RanToCompletion(v);
      case Fail =>
        task := Faulted;
    }

    /** Decides what `Next` reports once the body has given control back. */
    method SetResultFromContinuation() returns (r: Result<O>)
      requires !task.NoTask?
      modifies this
      ensures Outcome(Snap(), r) == SettleSpec(old(Snap()))
    {
      if task.IsCompleted() {
        state := Completed;
        r := if task.RanToCompletion? then Ok(task.result) else Err(BodyFaulted);
      } else {
        state := Suspended;
        r := Ok(generate);
      }
    }
  }

  /** What `Yield` returns for the body to await. */
  datatype Awaitable<I, O, P> = Awaitable(co: Coroutine<I, O, P>)
  {
    function GetAwaiter(): (a: Awaitable<I, O, P>)
      ensures a.co == co
    {
      this
    }

    /** Never complete: every awaited `Yield` suspends the body. */
    predicate IsCompleted()
      ensures !IsCompleted()
    {
      false
    }

    /** Replaces the coroutine's one continuation with the resume point. The
        `Awaitable` constructor is internal, so an awaitable with a coroutine
        comes only from a `Yield`, and that coroutine has started. */
    method OnCompleted(k: P)
      requires co.state != NotStarted
      modifies co
      ensures co.Snap() == OnCompletedSpec(old(co.Snap()), k)
      ensures old(co.Valid()) ==> co.Valid()
    {
      co.continuation := ResumeAt(k);
    }

    /** The value of the awaited `Yield`: the input of the `Next` that resumed. */
    function GetResult(): (x: I)
      reads co
      ensures x == co.Input()
    {
      co.input
    }
  }

  /** A caller driving a coroutine object with the inputs `xs`, one `Next`
      each: the object ends as `Drive` says, and the calls return what `Drive`
      says, so every lemma about `Drive` holds of the object. */
  method NextAll<I, O, P>(co: Coroutine<I, O, P>, xs: seq<I>) returns (rs: seq<Result<O>>)
    requires co.Valid()
    modifies co
    ensures co.Valid()
    ensures (co.Snap(), rs) == Drive(old(co.Snap()), co.body, xs)
  {
    ghost var s0 := co.Snap();
    rs := [];
    var i := 0;
    while i < |xs|
      invariant 0 <= i <= |xs|
      invariant co.Valid()
      invariant (co.Snap(), rs) == Drive(s0, co.body, xs[..i])
    {
      ghost var before := co.Snap();
      var r := co.Next(xs[i]);
      DriveAppend(s0, co.body, xs[..i], [xs[i]]);
      assert xs[..i + 1] == xs[..i] + [xs[i]];
      DriveOne(before, co.body, xs[i]);
      rs := rs + [r];
      i := i + 1;
    }
    assert xs[..i] == xs;
  }
}
