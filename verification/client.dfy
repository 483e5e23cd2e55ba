/**
  The retry loop of `get_groq_response`. The network is replaced by the
  finite sequence of responses the endpoint would give to successive requests
  of one call; sleeping is replaced by the trace of waits chosen.
 */
module Client {
  import opened Wrappers
  import opened Errors
  import opened WaitTime

  /** What the loop reads from one HTTP response. */
  datatype Response = Response(
    status: int,
    /** `response.text`, quoted in the error for an unexpected status. */
    text: string,
    /** `response.json()['choices'][0]['message']['content']`, or `None`
        when that lookup raises. A content that is present but JSON `null`
        or not a string cannot be written here: `get_groq_response` would
        return it, and the parse that follows would fail with an exception
        other than the ones this model names. */
    content: Option<string>,
    /** `response.json().get("error", {}).get("message", "")` when that
        yields a string, or `None` when the lookup raises or yields a
        non-string (all of which `get_groq_response`'s `except` catches). */
    errorMessage: Option<string>)

  /** How a call ends: a value, a raised error, or still waiting to retry
      when the given responses ran out (`get_groq_response` would keep requesting). */
  datatype Outcome<+T> = Returned(value: T) | Raised(error: Error) | Pending

  /** A call's outcome with the waits it slept, in order, and the number of
      requests it sent. */
  datatype Trace<+T> = Trace(outcome: Outcome<T>, waits: seq<Decimal>, requests: nat)

  /** How the loop settles on a response that is not a 429. */
  predicate SettlesWith(r: Response, outcome: Outcome<string>)
  {
    if r.status == 200 then
      if r.content.Some? then outcome == Returned(r.content.value) else outcome == Raised(MalformedSuccess)
    else
      outcome == Raised(ApiError(r.status, r.text))
  }

  /** A wait of `w` seconds and one more request, followed by the call `rest`. */
  function RateLimitedThen<T>(w: Decimal, rest: Trace<T>): (t: Trace<T>)
  {
    Trace(rest.outcome, [w] + rest.waits, rest.requests + 1)
  }

  /** `get_groq_response` over the responses to its successive requests:
      a 200 returns the first choice's content, a 429 waits and asks again,
      any other status raises at once. */
  function Call(responses: seq<Response>): (t: Trace<string>)
    ensures t.requests <= |responses|
  {
    if |responses| == 0 then
      Trace(Pending, [], 0)
    else
      var r := responses[0];
      if r.status == 200 then
        match r.content
        case Some(c) => Trace(Returned(c), [], 1)
        case None => Trace(Raised(MalformedSuccess), [], 1)
      else if r.status == 429 then
        RateLimitedThen(WaitFor(r.errorMessage), Call(responses[1..]))
      else
        Trace(Raised(ApiError(r.status, r.text)), [], 1)
  }

  /** The waits for the first `k` responses, one per response, in order. */
  function WaitsFor(responses: seq<Response>, k: nat): (ws: seq<Decimal>)
    requires k <= |responses|
    ensures |ws| == k
  {
    if k == 0 then [] else [WaitFor(responses[0].errorMessage)] + WaitsFor(responses[1..], k - 1)
  }

  /** The `i`-th of those waits is the one chosen for the `i`-th response. */
  lemma {:induction false} WaitsForAt(responses: seq<Response>, k: nat, i: nat)
    requires i < k <= |responses|
    ensures WaitsFor(responses, k)[i] == WaitFor(responses[i].errorMessage)
  {
    if i > 0 {
      WaitsForAt(responses[1..], k - 1, i - 1);
      assert responses[1..][i - 1] == responses[i];
    }
  }

  /** Every wait of a call answers a 429, in order, and the request after the
      last wait, if any, is the one that settled the call; a call still
      pending has waited once for each response. */
  lemma {:induction false} CallTrace(responses: seq<Response>)
    ensures var t := Call(responses);
      && |t.waits| <= t.requests <= |responses|
      && (t.outcome.Pending? ==> t.requests == |t.waits| == |responses|)
      && (!t.outcome.Pending? ==> t.requests == |t.waits| + 1)
      && (forall i :: 0 <= i < |t.waits| ==> responses[i].status == 429)
      && t.waits == WaitsFor(responses, |t.waits|)
      && (!t.outcome.Pending? ==>
            responses[|t.waits|].status != 429 && SettlesWith(responses[|t.waits|], t.outcome))
  {
    if |responses| > 0 && responses[0].status == 429 {
      var t, t' := Call(responses), Call(responses[1..]);
      var n := |t'.waits|;
      CallTrace(responses[1..]);
      assert t == Trace(t'.outcome, [WaitFor(responses[0].errorMessage)] + t'.waits, t'.requests + 1);
      assert t.waits == WaitsFor(responses, n + 1);
      forall i | 0 < i <= n
        ensures responses[i].status == 429
      {
        assert responses[i] == responses[1..][i - 1];
      }
      if !t.outcome.Pending? {
        assert responses[n + 1] == responses[1..][n];
      }
    }
  }

  /** The first response that is not a 429 decides the call: it is the last
      request made, and every earlier one cost exactly one wait. */
  lemma {:induction false} CallSettlesAtFirstNon429(responses: seq<Response>, k: nat)
    requires k < |responses|
    requires forall i :: 0 <= i < k ==> responses[i].status == 429
    requires responses[k].status != 429
    ensures Call(responses).requests == k + 1
    ensures Call(responses).waits == WaitsFor(responses, k)
    ensures SettlesWith(responses[k], Call(responses).outcome)
  {
    if k > 0 {
      var rest := responses[1..];
      forall i | 0 <= i < k - 1
        ensures rest[i].status == 429
      {
        assert rest[i] == responses[i + 1];
      }
      assert rest[k - 1] == responses[k];
      CallSettlesAtFirstNon429(rest, k - 1);
    }
  }

  /** A 200 after `k` rate limits returns its content after exactly `k` waits. */
  lemma CallReturnsAfterRateLimits(responses: seq<Response>, k: nat)
    requires k < |responses|
    requires forall i :: 0 <= i < k ==> responses[i].status == 429
    requires responses[k].status == 200 && responses[k].content.Some?
    ensures Call(responses) == Trace(Returned(responses[k].content.value), WaitsFor(responses, k), k + 1)
  {
    CallSettlesAtFirstNon429(responses, k);
  }

  /** Any status other than 200 or 429 raises with that status and body, with
      no wait for it and no request after it. */
  lemma CallRaisesOnOtherStatus(responses: seq<Response>, k: nat)
    requires k < |responses|
    requires forall i :: 0 <= i < k ==> responses[i].status == 429
    requires responses[k].status != 200 && responses[k].status != 429
    ensures Call(responses)
         == Trace(Raised(ApiError(responses[k].status, responses[k].text)), WaitsFor(responses, k), k + 1)
  {
    CallSettlesAtFirstNon429(responses, k);
  }

  /** When every response is a rate limit, the call waits once for each and
      is still pending: it never returns or raises on its own. */
  lemma {:induction false} CallAllRateLimited(responses: seq<Response>)
    requires forall i :: 0 <= i < |responses| ==> responses[i].status == 429
    ensures Call(responses) == Trace(Pending, WaitsFor(responses, |responses|), |responses|)
  {
    if |responses| > 0 {
      var rest := responses[1..];
      forall i | 0 <= i < |rest|
        ensures rest[i].status == 429
      {
        assert rest[i] == responses[i + 1];
      }
      CallAllRateLimited(rest);
    }
  }

  /** Once a call has settled, responses the endpoint would give afterwards
      change nothing: no request is made after the settling one. */
  lemma {:induction false} CallIgnoresLaterResponses(responses: seq<Response>, later: seq<Response>)
    requires !Call(responses).outcome.Pending?
    ensures Call(responses + later) == Call(responses)
  {
    assert |responses| > 0;
    if responses[0].status == 429 {
      assert (responses + later)[1..] == responses[1..] + later;
      CallIgnoresLaterResponses(responses[1..], later);
    }
  }

  /** A run of rate limits only prepends its waits to what the following
      responses do. */
  lemma {:induction false} CallAfterRateLimits(responses: seq<Response>, later: seq<Response>)
    requires Call(responses).outcome.Pending?
    ensures var t, u, v := Call(responses), Call(responses + later), Call(later);
      u == Trace(v.outcome, t.waits + v.waits, |responses| + v.requests)
  {
    if |responses| == 0 {
      assert responses + later == later;
    } else {
      var rest := responses[1..];
      var w := WaitFor(responses[0].errorMessage);
      var t, t', v := Call(responses), Call(rest), Call(later);
      CallPendingHead(responses, later);
      assert t.waits == [w] + t'.waits;
      calc {
        Call(responses + later);
        RateLimitedThen(w, Call(rest + later));
        { CallAfterRateLimits(rest, later); }
        RateLimitedThen(w, Trace(v.outcome, t'.waits + v.waits, |rest| + v.requests));
        Trace(v.outcome, [w] + (t'.waits + v.waits), |rest| + v.requests + 1);
        { assert [w] + (t'.waits + v.waits) == t.waits + v.waits; }
        Trace(v.outcome, t.waits + v.waits, |responses| + v.requests);
      }
    }
  }

  /** A call still pending starts with a rate limit, with or without more
      responses after it. */
  lemma CallPendingHead(responses: seq<Response>, later: seq<Response>)
    requires |responses| > 0 && Call(responses).outcome.Pending?
    ensures var w := WaitFor(responses[0].errorMessage);
      && Call(responses) == RateLimitedThen(w, Call(responses[1..]))
      && Call(responses + later) == RateLimitedThen(w, Call(responses[1..] + later))
  {
    var all := responses + later;
    assert responses[0].status == 429;
    assert all[0] == responses[0] && all[1..] == responses[1..] + later;
  }

  /** One turn of the loop at request `i`. */
  lemma CallStep(responses: seq<Response>, i: nat)
    requires i < |responses|
    ensures var r, t := responses[i], Call(responses[i..]);
      if r.status == 429 then
        var t' := Call(responses[i + 1..]);
        t == Trace(t'.outcome, [WaitFor(r.errorMessage)] + t'.waits, t'.requests + 1)
      else
        t.waits == [] && t.requests == 1 && SettlesWith(r, t.outcome)
  {
    assert responses[i..][0] == responses[i];
    assert responses[i..][1..] == responses[i + 1..];
  }

  /** The `while True` loop itself, stopping early when the responses run out. */
  method GetResponse(responses: seq<Response>) returns (outcome: Outcome<string>, waits: seq<Decimal>, requests: nat)
    ensures Trace(outcome, waits, requests) == Call(responses)
  {
    outcome, waits, requests := Pending, [], 0;
    while requests < |responses|
      invariant requests <= |responses|
      invariant |waits| == requests
      invariant Call(responses) ==
        var rest := Call(responses[requests..]);
        Trace(rest.outcome, waits + rest.waits, requests + rest.requests)
    {
      var r := responses[requests];
      CallStep(responses, requests);
      if r.status == 200 {
        match r.content {
          case Some(c) => outcome := Returned(c);
          case None => outcome := Raised(MalformedSuccess);
        }
        requests := requests + 1;
        return;
      } else if r.status == 429 {
        ghost var rest := Call(responses[requests + 1..]);
        assert (waits + [WaitFor(r.errorMessage)]) + rest.waits == waits + ([WaitFor(r.errorMessage)] + rest.waits);
        waits := waits + [WaitFor(r.errorMessage)];
        requests := requests + 1;
      } else {
        outcome := Raised(ApiError(r.status, r.text));
        requests := requests + 1;
        return;
      }
    }
    assert responses[requests..] == [];
  }
}
