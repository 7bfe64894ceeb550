/** One outbound HTTP request with its transparent retries, and the permits it holds meanwhile.

    Source: internal/workflow/executor/http.go:100-168. */
module HttpRetry {
  import opened Wrappers

  const MAX_RETRIES: nat := 2

  /** What happens around one round trip: whether the bulkhead admits it, the status it comes back
      with (none on a transport error), and whether the back-off after it fits the budget. */
  datatype Attempt = Attempt(admitted: bool, status: Option<nat>, slept: bool)

  datatype Outcome = Overloaded | TransportError | Response(status: nat)

  predicate Throttled(a: Attempt) {
    a.status == Some(429) || a.status == Some(503)
  }

  /** The attempt is followed by another round trip. */
  predicate Retried(retryable: bool, attempts: seq<Attempt>, i: nat)
    requires i + 1 < |attempts|
  {
    retryable && Throttled(attempts[i]) && attempts[i].slept && attempts[i + 1].admitted
  }

  /** Every path gives back each permit it took, after at most three round trips, each made under one
      permit. The answer is that of the last round trip made; a throttled one is returned only when
      another round trip was not allowed, not affordable or not admitted. */
  method Do(retryable: bool, attempts: seq<Attempt>) returns (r: Outcome, trips: nat, held: int, acquired: nat)
    requires |attempts| == MAX_RETRIES + 1
    ensures held == 0 && acquired == trips <= MAX_RETRIES + 1 && (!retryable ==> trips <= 1)
    ensures r.Overloaded? <==> trips == 0
    ensures trips == 0 <==> !attempts[0].admitted
    ensures forall i | 0 <= i < trips - 1 :: Retried(retryable, attempts, i)
    ensures trips > 0 ==> r == match attempts[trips - 1].status case None => TransportError case Some(s) => Response(s)
    ensures 0 < trips <= MAX_RETRIES ==> !Retried(retryable, attempts, trips - 1)
  {
    held, trips, acquired := 0, 0, 0;
    if !attempts[0].admitted {
      return Overloaded, trips, held, acquired;
    }
    held, acquired := held + 1, acquired + 1;
    var attempt := 0;
    while true
      invariant 0 <= attempt <= MAX_RETRIES && held == 1 && trips == attempt && acquired == attempt + 1
      invariant attempts[0].admitted && (attempt > 0 ==> retryable)
      invariant forall i | 0 <= i < attempt :: Retried(retryable, attempts, i)
      decreases MAX_RETRIES - attempt
    {
      var a := attempts[attempt];
      trips := trips + 1;
      if a.status.None? {
        held := held - 1;
        return TransportError, trips, held, acquired;
      }
      if !retryable || (a.status.value != 429 && a.status.value != 503) || attempt >= MAX_RETRIES {
        held := held - 1;
        return Response(a.status.value), trips, held, acquired;
      }
      held := held - 1;
      if !a.slept {
        return Response(a.status.value), trips, held, acquired;
      }
      if !attempts[attempt + 1].admitted {
        return Response(a.status.value), trips, held, acquired;
      }
      held, acquired := held + 1, acquired + 1;
      attempt := attempt + 1;
    }
  }
}
