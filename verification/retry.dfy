/** `fetchDataWithRetry`: up to `retries` attempts of one page fetch, with exponential backoff
    between attempts. The fetch is an injected outcome per attempt number (`None` = it threw);
    the waits are returned instead of slept. */
module Retry {
  import opened Wrappers

  /** The attempts the caller makes by default. */
  const DefaultRetries: nat := 3

  /** Milliseconds of the first backoff. */
  const BaseDelay: nat := 1000

  function Pow2(k: nat): (p: nat)
    ensures p >= 1
  {
    if k == 0 then 1 else 2 * Pow2(k - 1)
  }

  /** `Math.pow(2, attempt) * 1000`: the wait after failed attempt `attempt`. */
  function Backoff(attempt: nat): nat {
    Pow2(attempt) * BaseDelay
  }

  /** What a run of attempts produced: the result, how many attempts were made, and the
      waits between them in order. */
  datatype Attempted<T> = Attempted(value: seq<T>, attempts: nat, delays: seq<nat>)

  /** Attempt `k` is the first success among attempts `from .. retries - 1`. */
  predicate FirstSuccess<T>(outcome: nat -> Option<seq<T>>, from: nat, retries: int, k: nat) {
    from <= k < retries && outcome(k).Some? && forall j :: from <= j < k ==> outcome(j).None?
  }

  /** Every attempt from `from` to `retries - 1` fails. */
  predicate AllFail<T>(outcome: nat -> Option<seq<T>>, from: nat, retries: int) {
    forall j :: from <= j < retries ==> outcome(j).None?
  }

  /** The loop from attempt `attempt` on, as a recursive definition. */
  function RetryFrom<T>(outcome: nat -> Option<seq<T>>, retries: int, attempt: nat): (r: Attempted<T>)
    ensures AllFail(outcome, attempt, retries) ==>
      r.value == [] && r.attempts == (if retries > attempt then retries - attempt else 0)
    ensures forall k: nat :: FirstSuccess(outcome, attempt, retries, k) ==>
      r.value == outcome(k).value && r.attempts == k - attempt + 1
    ensures |r.delays| == (if r.attempts == 0 then 0 else r.attempts - 1)
    ensures forall i :: 0 <= i < |r.delays| ==> r.delays[i] == Backoff(attempt + i)
    decreases retries - attempt
  {
    if attempt >= retries then Attempted([], 0, [])
    else match outcome(attempt)
      case Some(v) => Attempted(v, 1, [])
      case None =>
        if attempt == retries - 1 then Attempted([], 1, [])
        else
          var rest := RetryFrom(outcome, retries, attempt + 1);
          assert forall k: nat :: FirstSuccess(outcome, attempt, retries, k) ==> FirstSuccess(outcome, attempt + 1, retries, k);
          assert AllFail(outcome, attempt, retries) ==> AllFail(outcome, attempt + 1, retries);
          var ds := [Backoff(attempt)] + rest.delays;
          assert forall i :: 0 < i < |ds| ==> ds[i] == rest.delays[i - 1];
          Attempted(rest.value, rest.attempts + 1, ds)
  }

  function RetryAll<T>(outcome: nat -> Option<seq<T>>, retries: int): Attempted<T> {
    RetryFrom(outcome, retries, 0)
  }

  /** The loop as written: returns on the first success, gives up with `[]` after the last
      failure, and waits `2^attempt * 1000` ms after every other failure. */
  method FetchWithRetry<T>(outcome: nat -> Option<seq<T>>, retries: int) returns (value: seq<T>, attempts: nat, delays: seq<nat>)
    ensures AllFail(outcome, 0, retries) ==> value == [] && attempts == (if retries > 0 then retries else 0)
    ensures forall k: nat :: FirstSuccess(outcome, 0, retries, k) ==> value == outcome(k).value && attempts == k + 1
    ensures attempts <= (if retries > 0 then retries else 0)
    ensures |delays| == (if attempts == 0 then 0 else attempts - 1)
    ensures forall i :: 0 <= i < |delays| ==> delays[i] == Backoff(i)
  {
    attempts := 0;
    delays := [];
    var attempt: nat := 0;
    while attempt < retries
      invariant attempt <= (if retries > 0 then retries else 0)
      invariant attempt == 0 || attempt < retries
      invariant attempts == attempt && |delays| == attempt
      invariant AllFail(outcome, 0, attempt)
      invariant forall i :: 0 <= i < |delays| ==> delays[i] == Backoff(i)
      decreases retries - attempt
    {
      attempts := attempts + 1;
      var o := outcome(attempt);
      if o.Some? {
        value := o.value;
        assert FirstSuccess(outcome, 0, retries, attempt);
        return;
      }
      if attempt == retries - 1 {
        value := [];
        return;
      }
      delays := delays + [Backoff(attempt)];
      attempt := attempt + 1;
    }
    value := [];
  }

  /** The result is empty or exactly the value of one successful attempt. */
  lemma {:induction false} RetryValue<T>(outcome: nat -> Option<seq<T>>, retries: int, from: nat)
    ensures var r := RetryFrom(outcome, retries, from);
      r.value == [] || exists k: nat :: from <= k < retries && outcome(k) == Some(r.value)
    decreases retries - from
  {
    if from < retries && outcome(from).None? && from != retries - 1 {
      RetryValue(outcome, retries, from + 1);
    }
  }

  /** The first success ends the run: its value, one attempt per try so far, and the waits
      `1000, 2000, 4000, ...` before each retry. */
  lemma {:induction false} RetryFirstSuccess<T>(outcome: nat -> Option<seq<T>>, retries: int, k: nat)
    requires FirstSuccess(outcome, 0, retries, k)
    ensures RetryAll(outcome, retries) == Attempted(outcome(k).value, k + 1, Backoffs(k))
  {
    RetryBackoffs(outcome, retries, 0, k);
  }

  /** The waits `Backoff(from) .. Backoff(from + n - 1)`. */
  function BackoffsFrom(from: nat, n: nat): (ds: seq<nat>)
    ensures |ds| == n
    ensures forall i :: 0 <= i < n ==> ds[i] == Backoff(from + i)
    decreases n
  {
    if n == 0 then [] else [Backoff(from)] + BackoffsFrom(from + 1, n - 1)
  }

  function Backoffs(n: nat): seq<nat> {
    BackoffsFrom(0, n)
  }

  lemma {:induction false} RetryBackoffs<T>(outcome: nat -> Option<seq<T>>, retries: int, from: nat, k: nat)
    requires FirstSuccess(outcome, from, retries, k)
    ensures RetryFrom(outcome, retries, from) == Attempted(outcome(k).value, k - from + 1, BackoffsFrom(from, k - from))
  {
    var r := RetryFrom(outcome, retries, from);
    assert |r.delays| == k - from;
  }

  /** Two failures then a success: three attempts, waiting one and then two seconds. */
  lemma {:induction false} SecondRetrySucceeds<T>(outcome: nat -> Option<seq<T>>, v: seq<T>)
    requires outcome(0).None? && outcome(1).None? && outcome(2) == Some(v)
    ensures RetryAll(outcome, DefaultRetries) == Attempted(v, 3, [1000, 2000])
  {
    assert FirstSuccess(outcome, 0, DefaultRetries, 2);
    RetryBackoffs(outcome, DefaultRetries, 0, 2);
    assert BackoffsFrom(0, 2) == [1000, 2000];
  }

  /** Three failures: the empty result after three attempts, never an error. */
  lemma {:induction false} AllAttemptsFail<T>(outcome: nat -> Option<seq<T>>)
    requires outcome(0).None? && outcome(1).None? && outcome(2).None?
    ensures RetryAll(outcome, DefaultRetries) == Attempted([], 3, [1000, 2000])
  {
    var r := RetryAll(outcome, DefaultRetries);
    assert AllFail(outcome, 0, DefaultRetries);
    assert r.delays == [1000, 2000];
  }

  /** No retries allowed: no attempt is made and the result is empty. */
  lemma {:induction false} ZeroRetries<T>(outcome: nat -> Option<seq<T>>)
    ensures RetryAll(outcome, 0) == Attempted([], 0, [])
  {
  }
}
