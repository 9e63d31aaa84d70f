/**
 * The retry policy of `EDGARInsiderTrading.query`: up to five attempts, a
 * sleep that doubles after each failed attempt but the last, and exit status
 * 1 once all five have failed.
 */
module Retry {
  import opened Base

  /**
   * What one `Request` and `urlopen` gave: the body read, a URLError (HTTPError
   * is one), or any other exception, which `query` does not catch.
   */
  datatype Attempt = Response(body: string) | UrlError(reason: string) | Other(failure: Failure)

  /** How `query` ends. */
  datatype QueryOutcome = Returned(body: string) | Exited(status: int) | Raised(failure: Failure)

  /** How `query` ended, and the seconds it slept on the way, in order. */
  datatype Run = Run(outcome: QueryOutcome, sleeps: seq<int>)

  const MaxAttempts := 5
  /** `self.pause` as the constructor sets it. */
  const DefaultPause := 2

  function Pow2(k: nat): (p: nat)
    ensures p >= 1
  {
    if k == 0 then 1 else 2 * Pow2(k - 1)
  }

  /**
   * The outcome and the sleeps of the attempts numbered `count` onward, when
   * the next sleep lasts `paws` seconds; `attempt(k)` is what attempt `k` gets.
   */
  function RetryFrom(attempt: nat -> Attempt, paws: int, count: nat): Run
    requires count < MaxAttempts
    decreases MaxAttempts - count
  {
    match attempt(count)
    case Response(b) => Run(Returned(b), [])
    case Other(f) => Run(Raised(f), [])
    case UrlError(_) =>
      if count + 1 < MaxAttempts then
        var rest := RetryFrom(attempt, paws * 2, count + 1);
        Run(rest.outcome, [paws] + rest.sleeps)
      else Run(Exited(1), [])
  }

  /** The result is the body of the first attempt that succeeds, if one of the remaining attempts does. */
  lemma {:induction false} RetryReturnsFirstSuccess(attempt: nat -> Attempt, paws: int, count: nat, b: string)
    requires count < MaxAttempts
    ensures RetryFrom(attempt, paws, count).outcome == Returned(b) <==>
      exists k :: count <= k < MaxAttempts && attempt(k) == Response(b)
        && forall j :: count <= j < k ==> attempt(j).UrlError?
    decreases MaxAttempts - count
  {
    if attempt(count).UrlError? && count + 1 < MaxAttempts {
      RetryReturnsFirstSuccess(attempt, paws * 2, count + 1, b);
      if exists k :: count <= k < MaxAttempts && attempt(k) == Response(b) && forall j :: count <= j < k ==> attempt(j).UrlError? {
        var k :| count <= k < MaxAttempts && attempt(k) == Response(b) && forall j :: count <= j < k ==> attempt(j).UrlError?;
        assert count + 1 <= k;
      }
    }
  }

  /** The process exits with status 1 exactly when every remaining attempt fails. */
  lemma {:induction false} RetryExitsWhenAllFail(attempt: nat -> Attempt, paws: int, count: nat)
    requires count < MaxAttempts
    ensures RetryFrom(attempt, paws, count).outcome.Exited? <==> forall k :: count <= k < MaxAttempts ==> attempt(k).UrlError?
    ensures RetryFrom(attempt, paws, count).outcome.Exited? ==> RetryFrom(attempt, paws, count).outcome.status == 1
    decreases MaxAttempts - count
  {
    if count + 1 < MaxAttempts {
      RetryExitsWhenAllFail(attempt, paws * 2, count + 1);
    }
  }

  /**
   * An exception other than URLError escapes at once: `query` raises the one
   * of the first attempt that is not a URLError, when that attempt raised.
   */
  lemma {:induction false} RetryRaisesFirstOther(attempt: nat -> Attempt, paws: int, count: nat, f: Failure)
    requires count < MaxAttempts
    ensures RetryFrom(attempt, paws, count).outcome == Raised(f) <==>
      exists k :: count <= k < MaxAttempts && attempt(k) == Other(f)
        && forall j :: count <= j < k ==> attempt(j).UrlError?
    decreases MaxAttempts - count
  {
    if attempt(count).UrlError? && count + 1 < MaxAttempts {
      RetryRaisesFirstOther(attempt, paws * 2, count + 1, f);
      if exists k :: count <= k < MaxAttempts && attempt(k) == Other(f) && forall j :: count <= j < k ==> attempt(j).UrlError? {
        var k :| count <= k < MaxAttempts && attempt(k) == Other(f) && forall j :: count <= j < k ==> attempt(j).UrlError?;
        assert count + 1 <= k;
      }
    }
  }

  /** Sleep `i` lasts `paws * 2^i` seconds, and there is one sleep fewer than there were attempts. */
  lemma {:induction false} RetrySleeps(attempt: nat -> Attempt, paws: int, count: nat)
    requires count < MaxAttempts
    ensures var sleeps := RetryFrom(attempt, paws, count).sleeps;
      |sleeps| < MaxAttempts - count
      && (forall i :: 0 <= i < |sleeps| ==> sleeps[i] == paws * Pow2(i))
      && (RetryFrom(attempt, paws, count).outcome.Exited? ==> |sleeps| == MaxAttempts - 1 - count)
      && (forall k :: count <= k < count + |sleeps| ==> attempt(k).UrlError?)
    decreases MaxAttempts - count
  {
    var r := RetryFrom(attempt, paws, count);
    if attempt(count).UrlError? && count + 1 < MaxAttempts {
      RetrySleeps(attempt, paws * 2, count + 1);
      var next := RetryFrom(attempt, paws * 2, count + 1);
      var rest := next.sleeps;
      assert r == Run(next.outcome, [paws] + rest);
      forall i | 0 < i < |rest| + 1 ensures ([paws] + rest)[i] == paws * Pow2(i) {
        assert rest[i - 1] == paws * 2 * Pow2(i - 1);
      }
    } else {
      assert r.sleeps == [];
    }
  }

  /** With the default pause and no answer at all, the sleeps are 2, 4, 8 and 16 seconds. */
  lemma DefaultBackoff(attempt: nat -> Attempt)
    requires forall k :: 0 <= k < MaxAttempts ==> attempt(k).UrlError?
    ensures RetryFrom(attempt, DefaultPause, 0) == Run(Exited(1), [2, 4, 8, 16])
  {
    assert attempt(4).UrlError? && RetryFrom(attempt, 32, 4) == Run(Exited(1), []);
    assert attempt(3).UrlError? && RetryFrom(attempt, 16, 3) == Run(Exited(1), [16] + []);
    assert attempt(2).UrlError? && RetryFrom(attempt, 8, 2) == Run(Exited(1), [8] + [16]);
    assert attempt(1).UrlError? && RetryFrom(attempt, 4, 1) == Run(Exited(1), [4] + [8, 16]);
    assert attempt(0).UrlError? && RetryFrom(attempt, 2, 0) == Run(Exited(1), [2] + [4, 8, 16]);
  }

  /** A dropped connection is not a URLError: it escapes on the first attempt, with no sleep and no exit. */
  lemma DisconnectNotRetried(attempt: nat -> Attempt)
    requires attempt(0) == Other(RemoteDisconnected)
    ensures RetryFrom(attempt, DefaultPause, 0) == Run(Raised(RemoteDisconnected), [])
  {
  }

  /** An HTTP error such as 404 is retried like any other URLError: a later success is still returned. */
  lemma NotFoundIsRetried(attempt: nat -> Attempt, b: string)
    requires attempt(0) == UrlError("HTTP Error 404: Not Found")
    requires attempt(1) == Response(b)
    ensures RetryFrom(attempt, DefaultPause, 0) == Run(Returned(b), [DefaultPause])
  {
    assert RetryFrom(attempt, 2 * DefaultPause, 1) == Run(Returned(b), []);
    assert RetryFrom(attempt, DefaultPause, 0) == Run(Returned(b), [DefaultPause] + []);
  }
}
