/**
  The analysis passes of `analyzer.py`: the dialogue text each prompt embeds,
  one pass (`analyze_info_anchors` / `analyze_objections`) as a call followed
  by reply parsing, and `analyze_dialogue` running both passes in turn.
 */
module Analyzer {
  import opened Wrappers
  import opened Errors
  import opened Strings
  import opened Extract
  import opened Client

  /** One message of a dialogue. */
  datatype Message = Message(sender: string, text: string)

  /** The merged result of `analyze_dialogue`. */
  datatype DialogueAnalysis<+J> = DialogueAnalysis(infoAnchorsAnalysis: J, objectionsAnalysis: J)

  /** The line a message contributes to the dialogue text: `sender: text`. */
  function Line(m: Message): (l: string)
  {
    m.sender + ": " + m.text
  }

  /** The lines of the messages, in order. */
  function Lines(messages: seq<Message>): (ls: seq<string>)
    ensures |ls| == |messages|
    ensures forall i :: 0 <= i < |messages| ==> ls[i] == Line(messages[i])
  {
    seq(|messages|, i requires 0 <= i < |messages| => Line(messages[i]))
  }

  /** The dialogue text both prompts embed: one line per message, joined
      with newlines. */
  function DialogueText(messages: seq<Message>): (r: string)
    ensures r == "" <==> |messages| == 0
    ensures |messages| == 1 ==> r == Line(messages[0])
    ensures |messages| > 1 ==>
      var first := Line(messages[0]);
      |first| < |r| && r[..|first|] == first && r[|first|] == '\n'
  {
    JoinLines(Lines(messages))
  }

  /** A message added to a dialogue adds a newline and its line at the end. */
  lemma DialogueTextAppend(messages: seq<Message>, m: Message)
    requires |messages| > 0
    ensures DialogueText(messages + [m]) == DialogueText(messages) + "\n" + Line(m)
  {
    assert Lines(messages + [m]) == Lines(messages) + [Line(m)];
    JoinLinesAppend(Lines(messages), Line(m));
  }

  /** When no sender or text contains a newline, the dialogue text splits back
      into exactly the messages' lines. */
  lemma DialogueTextSplits(messages: seq<Message>)
    requires |messages| > 0
    requires forall i :: 0 <= i < |messages| ==> '\n' !in messages[i].sender && '\n' !in messages[i].text
    ensures SplitLines(DialogueText(messages)) == Lines(messages)
  {
    var ls := Lines(messages);
    forall i | 0 <= i < |ls|
      ensures '\n' !in ls[i]
    {
      assert ls[i] == messages[i].sender + ": " + messages[i].text;
    }
    SplitJoinLines(ls);
  }

  /** `r` is a 200 response whose content parses, directly or by the brace
      fallback, to `v`. */
  ghost predicate RepliedWith<J>(parse: string -> Option<J>, r: Response, v: J)
  {
    r.status == 200 && r.content.Some? && ParseReply(parse, r.content.value) == Ok(v)
  }

  /** One analysis pass: get a reply, then parse it. */
  function AnalysisPass<J>(parse: string -> Option<J>, responses: seq<Response>): (t: Trace<J>)
    ensures |t.waits| <= t.requests <= |responses|
  {
    var call := Call(responses);
    CallTrace(responses);
    var outcome := match call.outcome
      case Returned(reply) =>
        (match ParseReply(parse, reply)
         case Ok(v) => Returned(v)
         case Err(e) => Raised(e))
      case Raised(e) => Raised(e)
      case Pending => Pending;
    Trace(outcome, call.waits, call.requests)
  }

  /** How a pass ends when `r` is the first response that is not a rate
      limit, read off that one response: a 200 with content yields the
      parsed reply or the parse error, a 200 without content raises
      `MalformedSuccess`, and any other status raises `ApiError`. */
  function PassOutcome<J>(parse: string -> Option<J>, r: Response): (o: Outcome<J>)
    ensures !o.Pending?
    ensures o.Returned? <==> r.status == 200 && r.content.Some? && ParseReply(parse, r.content.value).Ok?
  {
    if r.status != 200 then Raised(ApiError(r.status, r.text))
    else match r.content
      case None => Raised(MalformedSuccess)
      case Some(reply) =>
        match ParseReply(parse, reply)
        case Ok(v) => Returned(v)
        case Err(e) => Raised(e)
  }

  /** `RepliedWith` is exactly a pass returning `v` from response `r`. */
  lemma RepliedWithIsPassOutcome<J>(parse: string -> Option<J>, r: Response, v: J)
    ensures RepliedWith(parse, r, v) <==> PassOutcome(parse, r) == Returned(v)
  {
  }

  /** A pass whose first non-429 response is at index `k` waits for each of
      the `k` rate limits, sends `k + 1` requests, and ends as that response
      dictates: a parseable 200 reply is returned, an unparseable one raises
      with the reply quoted, and the call's own errors pass through. */
  lemma AnalysisPassAt<J>(parse: string -> Option<J>, responses: seq<Response>, k: nat)
    requires k < |responses|
    requires forall i :: 0 <= i < k ==> responses[i].status == 429
    requires responses[k].status != 429
    ensures AnalysisPass(parse, responses) == Trace(PassOutcome(parse, responses[k]), WaitsFor(responses, k), k + 1)
    ensures var r := responses[k];
      r.status == 200 && r.content.Some? && ParseReply(parse, r.content.value).Err? ==>
        AnalysisPass(parse, responses).outcome == Raised(Unparseable(UnparseablePrefix + r.content.value))
  {
    CallSettlesAtFirstNon429(responses, k);
  }

  /** A pass given only rate limits waits once for each and never settles. */
  lemma AnalysisPassPending<J>(parse: string -> Option<J>, responses: seq<Response>)
    requires forall i :: 0 <= i < |responses| ==> responses[i].status == 429
    ensures AnalysisPass(parse, responses) == Trace(Pending, WaitsFor(responses, |responses|), |responses|)
  {
    CallAllRateLimited(responses);
  }

  /** A pass waits as the retry loop does, returns only what the last response
      it requested replied with, and a raised `Unparseable` quotes that reply. */
  lemma AnalysisPassReplies<J>(parse: string -> Option<J>, responses: seq<Response>)
    ensures var t := AnalysisPass(parse, responses);
      && t.waits == WaitsFor(responses, |t.waits|)
      && (t.outcome.Returned? ==>
            t.requests > 0 && RepliedWith(parse, responses[t.requests - 1], t.outcome.value))
      && (t.outcome.Raised? && t.outcome.error.Unparseable? ==>
            && t.requests > 0
            && responses[t.requests - 1].status == 200
            && responses[t.requests - 1].content.Some?
            && t.outcome.error.message == UnparseablePrefix + responses[t.requests - 1].content.value)
  {
    CallTrace(responses);
  }

  /** `analyze_dialogue`: the info-anchor pass, then the objection pass on the
      responses that follow, merged into one result; the first error raised
      ends the whole analysis. */
  function AnalyzeDialogue<J>(parse: string -> Option<J>, responses: seq<Response>): (t: Trace<DialogueAnalysis<J>>)
    ensures t.requests <= |responses|
    ensures t.outcome.Returned? ==>
      var k1 := AnalysisPass(parse, responses).requests - 1;
      && 0 <= k1 < t.requests - 1
      && RepliedWith(parse, responses[k1], t.outcome.value.infoAnchorsAnalysis)
      && RepliedWith(parse, responses[t.requests - 1], t.outcome.value.objectionsAnalysis)
  {
    var first := AnalysisPass(parse, responses);
    var rest := responses[first.requests..];
    AnalysisPassReplies(parse, responses);
    AnalysisPassReplies(parse, rest);
    var second := AnalysisPass(parse, rest);
    assert second.outcome.Returned? ==> rest[second.requests - 1] == responses[first.requests + second.requests - 1];
    AfterInfoAnchors(parse, first, rest)
  }

  /** What follows an info-anchor pass `first`: its error or pending state
      as it is, or, when it returned, the objection pass on the responses
      `rest` after it, with the waits and requests of both and the merged
      result when the second pass returns too. */
  function AfterInfoAnchors<J>(parse: string -> Option<J>, first: Trace<J>, rest: seq<Response>): (t: Trace<DialogueAnalysis<J>>)
    ensures first.outcome.Raised? ==> t.outcome == Raised(first.outcome.error) && t.requests == first.requests
    ensures |first.waits| <= |t.waits| && t.waits[..|first.waits|] == first.waits
    ensures first.requests <= t.requests <= first.requests + |rest|
  {
    match first.outcome
    case Raised(e) => Trace(Raised(e), first.waits, first.requests)
    case Pending => Trace(Pending, first.waits, first.requests)
    case Returned(anchors) =>
      var second := AnalysisPass(parse, rest);
      var outcome := match second.outcome
        case Returned(objections) => Returned(DialogueAnalysis(anchors, objections))
        case Raised(e) => Raised(e)
        case Pending => Pending;
      assert (first.waits + second.waits)[..|first.waits|] == first.waits;
      Trace(outcome, first.waits + second.waits, first.requests + second.requests)
  }

  /** When the first non-429 response, at `k1`, does not yield a reply, the
      analysis raises that pass's error after `k1 + 1` requests and the
      objection pass never runs. */
  lemma AnalyzeDialogueFirstSettles<J>(parse: string -> Option<J>, responses: seq<Response>, k1: nat)
    requires k1 < |responses|
    requires forall i :: 0 <= i < k1 ==> responses[i].status == 429
    requires responses[k1].status != 429
    ensures var t, p1 := AnalyzeDialogue(parse, responses), PassOutcome(parse, responses[k1]);
      p1.Raised? ==> t == Trace(Raised(p1.error), WaitsFor(responses, k1), k1 + 1)
  {
    AnalysisPassAt(parse, responses, k1);
  }

  /** With the first non-429 response at `k1` and the next one at `k2`, the
      analysis returns the pair of replies exactly when both parse, raises
      the objection pass's error when only the first does, and in both cases
      has sent `k2 + 1` requests and waited for every rate limit in order. */
  lemma AnalyzeDialogueAt<J>(parse: string -> Option<J>, responses: seq<Response>, k1: nat, k2: nat)
    requires k1 < k2 < |responses|
    requires forall i :: 0 <= i < k1 ==> responses[i].status == 429
    requires responses[k1].status != 429
    requires forall i :: k1 < i < k2 ==> responses[i].status == 429
    requires responses[k2].status != 429
    ensures var t, p1, p2 := AnalyzeDialogue(parse, responses), PassOutcome(parse, responses[k1]), PassOutcome(parse, responses[k2]);
      && (forall a, o :: t.outcome == Returned(DialogueAnalysis(a, o)) <==>
            RepliedWith(parse, responses[k1], a) && RepliedWith(parse, responses[k2], o))
      && (p1.Returned? && p2.Raised? ==> t.outcome == Raised(p2.error))
      && (p1.Returned? ==>
            && t.requests == k2 + 1
            && t.waits == WaitsFor(responses, k1) + WaitsFor(responses[k1 + 1..], k2 - k1 - 1))
  {
    var rest := responses[k1 + 1..];
    var j := k2 - k1 - 1;
    var p1, p2 := PassOutcome(parse, responses[k1]), PassOutcome(parse, responses[k2]);
    var first := Trace(p1, WaitsFor(responses, k1), k1 + 1);
    assert AnalysisPass(parse, responses) == first by {
      AnalysisPassAt(parse, responses, k1);
    }
    assert AnalysisPass(parse, rest) == Trace(p2, WaitsFor(rest, j), j + 1) by {
      forall i | 0 <= i < j
        ensures rest[i].status == 429
      {
        assert rest[i] == responses[k1 + 1 + i];
      }
      assert rest[j] == responses[k2];
      AnalysisPassAt(parse, rest, j);
    }
    assert AnalyzeDialogue(parse, responses) == AfterInfoAnchors(parse, first, rest);
  }

  /** Responses after a pass settles are never requested by it. */
  lemma AnalysisPassIgnoresLaterResponses<J>(parse: string -> Option<J>, responses: seq<Response>, later: seq<Response>)
    requires !AnalysisPass(parse, responses).outcome.Pending?
    ensures AnalysisPass(parse, responses + later) == AnalysisPass(parse, responses)
  {
    CallIgnoresLaterResponses(responses, later);
  }

  /** Once the whole analysis has returned or raised, responses the endpoint
      would give afterwards change nothing. */
  lemma AnalyzeDialogueIgnoresLaterResponses<J>(parse: string -> Option<J>, responses: seq<Response>, later: seq<Response>)
    requires !AnalyzeDialogue(parse, responses).outcome.Pending?
    ensures AnalyzeDialogue(parse, responses + later) == AnalyzeDialogue(parse, responses)
  {
    var all := responses + later;
    var first := AnalysisPass(parse, responses);
    var rest := responses[first.requests..];
    assert AnalysisPass(parse, all) == first by {
      AnalysisPassIgnoresLaterResponses(parse, responses, later);
    }
    assert all[first.requests..] == rest + later;
    AfterInfoAnchorsIgnoresLaterResponses(parse, first, rest, later);
  }

  /** The objection pass, once settled, ignores later responses too. */
  lemma AfterInfoAnchorsIgnoresLaterResponses<J>(parse: string -> Option<J>, first: Trace<J>, rest: seq<Response>, later: seq<Response>)
    requires !AfterInfoAnchors(parse, first, rest).outcome.Pending?
    ensures AfterInfoAnchors(parse, first, rest + later) == AfterInfoAnchors(parse, first, rest)
  {
    if first.outcome.Returned? {
      AnalysisPassIgnoresLaterResponses(parse, rest, later);
    }
  }

  /** An error in the first pass is the analysis' error, and the second pass
      sends no request. */
  lemma FirstPassErrorIsFinal<J>(parse: string -> Option<J>, responses: seq<Response>)
    requires AnalysisPass(parse, responses).outcome.Raised?
    ensures AnalyzeDialogue(parse, responses).outcome == Raised(AnalysisPass(parse, responses).outcome.error)
    ensures AnalyzeDialogue(parse, responses).requests == AnalysisPass(parse, responses).requests
  {
  }
}
