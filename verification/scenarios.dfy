/**
  Concrete runs of the retry loop: a rate limit with a suggested wait, a
  rate limit without one, a malformed suggestion, and a server error. Each
  message is a parameter fixed by a `requires`, which keeps the verifier
  from evaluating the search over it eagerly.
 */
module Scenarios {
  import opened Wrappers
  import opened Errors
  import opened WaitTime
  import opened Client

  /** The pattern matches `"Please try again in 3.5s."` first at index 7,
      capturing `3.5`. */
  lemma SuggestedMatch(msg: string)
    requires msg == "Please try again in 3.5s."
    ensures LeftmostMatch(msg, 7, "3.5")
  {
    forall j, h | 0 <= j < 7
      ensures !RegexMatchAt(msg, j, h)
    {
      if j + |TryAgainIn| <= |msg| {
        assert msg[j..j + |TryAgainIn|][0] == msg[j] != 't';
      }
    }
  }

  /** `float("3.5")` is three and a half. */
  lemma ThreePointFive(g: string)
    requires g == "3.5"
    ensures AllRunChars(g) && Converts(g)
    ensures ParseFloat(g) == Some(Decimal(35, 1)) && Value(Decimal(35, 1)) == 3.5
  {
    assert AllDigits("3") && AllDigits("5");
    ParseFloatAtPoint("3", "5");
    assert "3" + "." + "5" == g && "3" + "5" == "35";
    assert DigitsValue("35") == 35 by {
      assert "35"[..1] == "3" && "3"[..0] == "";
    }
    assert Pow10(1) == 10;
  }

  /** The wait for `"Please try again in 3.5s."` is 3.5 plus one second. */
  lemma SuggestedWait(msg: string)
    requires msg == "Please try again in 3.5s."
    ensures Value(WaitFor(Some(msg))) == 4.5
  {
    var g := "3.5";
    ThreePointFive(g);
    SuggestedMatch(msg);
    WaitForMessage(msg);
  }

  /** A 429 suggesting 3.5 seconds, then a 200: one wait of 4.5 seconds, then
      the reply is returned, after exactly two requests; nothing the endpoint
      would answer afterwards is requested. */
  lemma RateLimitedOnceThenReply(msg: string, reply: string, later: seq<Response>)
    requires msg == "Please try again in 3.5s."
    ensures var limited := Response(429, "", None, Some(msg));
      var t := Call([limited, Response(200, "", Some(reply), None)] + later);
      && t.outcome == Returned(reply)
      && |t.waits| == 1 && Value(t.waits[0]) == 4.5
      && t.requests == 2
  {
    var limited := Response(429, "", None, Some(msg));
    var responses := [limited, Response(200, "", Some(reply), None)];
    CallIgnoresLaterResponses(responses, later);
    CallReturnsAfterRateLimits(responses, 1);
    SuggestedWait(msg);
  }

  /** A 429 whose message suggests nothing waits the default 20 seconds. */
  lemma RateLimitedWithoutSuggestion(msg: string, reply: string)
    requires msg == "Rate limit reached"
    ensures var limited := Response(429, "", None, Some(msg));
      var t := Call([limited, Response(200, "", Some(reply), None)]);
      t == Trace(Returned(reply), [DefaultWait], 2) && Value(DefaultWait) == 20.0
  {
    var limited := Response(429, "", None, Some(msg));
    var responses := [limited, Response(200, "", Some(reply), None)];
    assert WaitFor(limited.errorMessage) == DefaultWait by {
      WaitForMessage(msg);
    }
    CallReturnsAfterRateLimits(responses, 1);
    assert WaitsFor(responses, 1) == [DefaultWait];
    assert Value(DefaultWait) == 20.0 by {
      assert Pow10(0) == 1;
    }
  }

  /** `1.2.3` is captured but does not convert, so the wait is the default. */
  lemma MalformedSuggestion(msg: string)
    requires msg == "try again in 1.2.3s"
    ensures WaitFor(Some(msg)) == DefaultWait
  {
    var g := "1.2.3";
    assert msg[..|TryAgainIn|] == TryAgainIn;
    assert msg[|TryAgainIn|..|TryAgainIn| + 5] == g;
    assert LeftmostMatch(msg, 0, g);
    WaitForMessage(msg);
    assert g[1] == '.' && g[3] == '.';
  }

  /** A 500 raises at once with its status and body: no wait, no retry. */
  lemma ServerErrorRaisesAtOnce(body: string, later: seq<Response>)
    ensures Call([Response(500, body, None, None)] + later)
         == Trace(Raised(ApiError(500, body)), [], 1)
  {
    CallIgnoresLaterResponses([Response(500, body, None, None)], later);
  }
}
