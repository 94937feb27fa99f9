/** The sample body of AwaitCoroutines: it reads its input, and while the value
    is positive yields the value minus two and takes the next input; then it
    returns 0. Driven by feeding every output back as the next input, from 42
    it yields 40, 38, ..., 2, 0 and then completes with 0. */
module Countdown {
  import opened CoroutineSpec
  import Coroutines

  /** The two places the sample body continues from: its start, where it reads
      `Input`, and the point after its await, where it takes the await's value. */
  datatype Pos = Entry | AfterYield

  /** One segment of the sample body, from either position: both read the
      current input into `value` and test the loop condition. */
  function CountdownStep(p: Pos, x: int): (st: Step<Pos, int>)
    ensures x > 0 <==> st.Suspend?
    ensures st.Suspend? ==> st == Suspend(AfterYield, x - 2)
    ensures !st.Suspend? ==> st == Done(0)
  {
    if x > 0 then Suspend(AfterYield, x - 2) else Done(0)
  }

  function CountdownBody(): Body<Pos, int, int>
  {
    Body(Entry, CountdownStep)
  }

  /** The inputs a caller that feeds every output back sends from `n` on. */
  function FeedbackInputs(n: int): seq<int>
    decreases if n > 0 then n else 0
  {
    if n <= 0 then [n] else [n] + FeedbackInputs(n - 2)
  }

  /** What those calls return: `n - 2`, `n - 4`, ... down to the first
      non-positive value, then the body's result 0. */
  function ExpectedResults(n: int): seq<Result<int>>
    decreases if n > 0 then n else 0
  {
    if n <= 0 then [Ok(0)] else [Ok(n - 2)] + ExpectedResults(n - 2)
  }

  /** Each input after the first is the output of the call before it: the
      inputs are exactly what a feedback caller sends. */
  lemma {:induction false} InputsAreFedBack(n: int)
    ensures |FeedbackInputs(n)| == |ExpectedResults(n)|
    ensures FeedbackInputs(n)[0] == n
    ensures forall i :: 0 <= i < |FeedbackInputs(n)| - 1 ==>
      ExpectedResults(n)[i] == Ok(FeedbackInputs(n)[i + 1])
    decreases if n > 0 then n else 0
  {
    if n > 0 {
      InputsAreFedBack(n - 2);
      forall i | 0 <= i < |FeedbackInputs(n)| - 1
        ensures ExpectedResults(n)[i] == Ok(FeedbackInputs(n)[i + 1])
      {
        if i > 0 {
          assert ExpectedResults(n)[i] == ExpectedResults(n - 2)[i - 1];
          assert FeedbackInputs(n)[i + 1] == FeedbackInputs(n - 2)[i];
        }
      }
    }
  }

  /** Driving the sample body from an unstarted or suspended coroutine with the
      feedback inputs from `n` produces the expected results and ends Completed. */
  lemma {:induction false} CountdownRun(s: Snapshot<int, int, Pos>, n: int)
    requires Consistent(s) && (s.state == NotStarted || s.state == Suspended)
    ensures Drive(s, CountdownBody(), FeedbackInputs(n)).1 == ExpectedResults(n)
    ensures Drive(s, CountdownBody(), FeedbackInputs(n)).0.state == Completed
    decreases if n > 0 then n else 0
  {
    var xs := FeedbackInputs(n);
    var first := NextSpec(s, CountdownBody(), n);
    assert xs[0] == n;
    if n <= 0 {
      assert xs[1..] == [];
    } else {
      assert xs[1..] == FeedbackInputs(n - 2);
      CountdownRun(first.after, n - 2);
    }
  }

  /** Every call but the last of a feedback run leaves the coroutine
      Suspended, so a caller that loops while not `IsCompleted` makes them all. */
  lemma {:induction false} SuspendedUntilLast(s: Snapshot<int, int, Pos>, n: int, k: nat)
    requires Consistent(s) && (s.state == NotStarted || s.state == Suspended)
    requires k < |FeedbackInputs(n)| - 1
    ensures Drive(s, CountdownBody(), FeedbackInputs(n)[..k + 1]).0.state == Suspended
    decreases k
  {
    var xs := FeedbackInputs(n);
    assert n > 0;
    assert xs == [n] + FeedbackInputs(n - 2);
    var first := NextSpec(s, CountdownBody(), n);
    var prefix := xs[..k + 1];
    assert prefix[0] == n;
    if k == 0 {
      assert prefix[1..] == [];
    } else {
      assert prefix[1..] == FeedbackInputs(n - 2)[..k];
      SuspendedUntilLast(first.after, n - 2, k - 1);
    }
  }

  /** For even `n >= 0`: `n/2 + 1` results, the k-th being `n - 2 - 2k` for the
      `n/2` suspensions, and the last being the body's 0. */
  lemma {:induction false} ExpectedShape(n: int)
    requires n >= 0 && n % 2 == 0
    ensures |ExpectedResults(n)| == n / 2 + 1
    ensures forall k :: 0 <= k < n / 2 ==> ExpectedResults(n)[k] == Ok(n - 2 - 2 * k)
    ensures ExpectedResults(n)[n / 2] == Ok(0)
    decreases n
  {
    if n > 0 {
      ExpectedShape(n - 2);
      forall k | 0 <= k < n / 2
        ensures ExpectedResults(n)[k] == Ok(n - 2 - 2 * k)
      {
        if k > 0 {
          assert ExpectedResults(n)[k] == ExpectedResults(n - 2)[k - 1];
        }
      }
    }
  }

  /** Feeding each output back from an even `n >= 0` into a fresh coroutine
      gives `n - 2`, `n - 4`, ..., 0, each call leaving it Suspended, then 0
      with the coroutine Completed; the sample program starts at 42 and sees
      40, 38, ..., 0, 0. */
  lemma FeedbackRun(d: int, g: int, n: int)
    requires n >= 0 && n % 2 == 0
    ensures var run := Drive(Created<int, int, Pos>(d, g), CountdownBody(), FeedbackInputs(n));
      |run.1| == n / 2 + 1 && run.0.state == Completed &&
      (forall k :: 0 <= k < n / 2 ==> run.1[k] == Ok(n - 2 - 2 * k)) &&
      run.1[n / 2] == Ok(0)
    ensures forall k :: 1 <= k <= n / 2 ==>
      StateAfter(Created<int, int, Pos>(d, g), CountdownBody(), FeedbackInputs(n), k) == Suspended
  {
    CountdownRun(Created(d, g), n);
    ExpectedShape(n);
    InputsAreFedBack(n);
    forall k | 1 <= k <= n / 2
      ensures StateAfter(Created<int, int, Pos>(d, g), CountdownBody(), FeedbackInputs(n), k) == Suspended
    {
      SuspendedUntilLast(Created(d, g), n, k - 1);
    }
  }

  /** The object-level start of the sample run: the first `Next(42)` yields 40
      and leaves the coroutine Suspended; the second yields 38. */
  method FirstTwoSteps() returns (first: Result<int>, second: Result<int>, state: CoroutineState)
    ensures first == Ok(40) && second == Ok(38) && state == Suspended
  {
    var co := new Coroutines.Coroutine.Run(CountdownBody(), 0, 0);
    first := co.Next(42);
    second := co.Next(first.value);
    state := co.state;
  }
}
