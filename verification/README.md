# Dialogue analyzer: retry loop and tolerant JSON extraction

`analyzer.py` sends a manager–client dialogue to a chat-completion endpoint
twice, once for topic ("info anchor") coverage and once for objections. It
then turns each free-text reply into a JSON value. This project models the
script's decision logic in Dafny:

- `Strings`: `str.find`, `str.rfind` and `"\n".join`. It also has a newline
  split, used only to prove that the join loses nothing.
- `Extract`: `extract_json` and the direct-then-fallback parse of a reply.
  The strict JSON parser (`json.loads`) is a parameter
  `parse: string -> Option<J>`, an arbitrary partial function. Every
  property holds for any parser.
- `WaitTime`: the wait chosen after a 429. It models the
  `re.search(r"try again in ([0-9.]+)s", msg)` search declaratively and
  greedily, and proves the two agree. It converts the captured group as
  `float` does, without rounding, into an exact `Decimal`. Then it adds the
  one-second margin or falls back to 20 seconds.
- `Client`: the `while True` loop of `get_groq_response`, as a function
  `Call` over the finite sequence of responses the endpoint gives to
  successive requests. It returns the outcome, the waits slept (in order) and
  the number of requests sent. `GetResponse` is the loop written as a loop
  and is proved equal to `Call`.
- `Analyzer`: the dialogue text both prompts embed, one analysis pass
  (request, then parse), and `analyze_dialogue` running both passes on one
  stream of responses.
- `Scenarios`: concrete runs. A 429 suggesting 3.5 s waits 4.5 s. A 429
  without a suggestion waits 20 s. The suggestion `1.2.3` falls back to
  20 s. A 500 raises at once.

In these cases the model follows the script's error handling exactly:

- A 429 whose `error.message` is missing waits 20 s, because `""` does not
  match.
- A 429 whose body is not JSON, or whose message is not a string, also
  waits 20 s: the `except` catches it.
- A captured group that `float` rejects (`.`, `1.2.3`) waits 20 s for the
  same reason.
- A 200 whose body lacks `choices[0].message.content` raises
  (`MalformedSuccess`); the code does not retry it. A content that is
  present but JSON `null` or not a string is not represented (see below).

## Model

| member | source | states |
|---|---|---|
| Strings.Find | analyzer.py:15 | `text.find('{')` is -1 exactly when `{` is absent; otherwise it is an index holding `{` with none before it |
| Strings.RFind | analyzer.py:16 | `text.rfind('}')` is -1 exactly when `}` is absent; otherwise it is an index holding `}` with none after it |
| Strings.JoinLines | analyzer.py:58 | `"\n".join` of no lines is empty; of one line is that line; of more lines begins with the first line followed by a newline |
| Analyzer.DialogueText | analyzer.py:58 | the dialogue text is empty exactly when there are no messages, is exactly the `sender: text` line of a single message, and otherwise begins with the first message's line and a newline |
| Analyzer.DialogueTextAppend | analyzer.py:58 | one more message adds exactly a newline and its `sender: text` line at the end, so lines appear in message order |
| Analyzer.DialogueTextSplits | analyzer.py:67 | when no sender or text contains a newline, splitting the dialogue text on newlines gives back exactly the messages' lines |
| Strings.SplitJoinLines | analyzer.py:58 | joining newline-free lines with `\n` and splitting again returns the same lines, so the join adds only single separators |
| Strings.JoinSplitLines | analyzer.py:58 | every string is the `\n`-join of its newline-free pieces, so the join is onto |
| Extract.BraceGuard | analyzer.py:15-17 | the guard `start != -1 and end != -1 and end > start` holds exactly when some `{` precedes some `}`, and then find/rfind delimit the unique first-`{`-to-last-`}` span |
| Extract.ExtractJson | analyzer.py:13-22 | a value is returned only as the parse of the first-`{`-to-last-`}` span; an error always carries the prefix followed by the whole text, and is raised only when every such span fails to parse |
| Extract.ExtractWithoutBraces | analyzer.py:15-22 | without a `{` before a `}`, the parser is never consulted (any two parsers give the same result) and the error ends with the original text |
| Extract.ExtractParsesSpan | analyzer.py:17-22 | with braces in order, the result is decided by the span alone: its parse when it parses, the error quoting the text when it does not |
| Extract.ExtractSurrounded | analyzer.py:15-19 | an object with no `{` in the prose before it and no `}` in the prose after it is parsed as exactly `"{" + body + "}"` |
| Extract.ExtractWholeObject | analyzer.py:15-19 | a reply that is itself a brace-delimited value which parses is recovered exactly as the strict parse gives it |
| Extract.ParseReply | analyzer.py:61-64 | a reply that parses directly yields that value, with no fallback; otherwise the result is `extract_json` of the reply, and it fails exactly when the whole reply and its brace span both fail to parse |
| WaitTime.WaitGroup | analyzer.py:45-46 | a captured group is a non-empty run of digits and dots |
| WaitTime.RegexMatchIsMaximalRun | analyzer.py:45 | since `s` is neither a digit nor a dot, the pattern matches at an index with a group exactly when the maximal `[0-9.]` run there is non-empty and followed by `s`, and that run is the group |
| WaitTime.WaitGroupIsLeftmostMatch | analyzer.py:45-46 | the search finds nothing exactly when the pattern matches nowhere; otherwise it returns the group of the leftmost match |
| WaitTime.LeftmostMatchIsWaitGroup | analyzer.py:45-47 | whatever the leftmost match captures is the group the wait is computed from |
| WaitTime.ParseFloat | analyzer.py:47-50 | `float` accepts a string of digits and dots exactly when it has at most one dot and at least one digit |
| WaitTime.ParseFloatPointValue | analyzer.py:47 | `float("W.F")` denotes W plus F divided by ten to the length of F |
| WaitTime.ParseFloatIntegerValue | analyzer.py:47 | `float("D")` for digits alone denotes their integer value |
| WaitTime.PlusOne | analyzer.py:47 | the safety margin adds exactly one second to the suggested wait |
| WaitTime.WaitFor | analyzer.py:42-51 | every wait after a 429 is at least one second |
| WaitTime.WaitForMessage | analyzer.py:45-51 | the wait is the leftmost match's number plus one when it converts, and exactly 20 when nothing matches or the group does not convert |
| WaitTime.WaitForNoMessage | analyzer.py:42-51 | a 429 body without a usable string message waits 20 seconds |
| Client.Call | analyzer.py:36-55 | the retry loop never sends more requests than there are responses to answer them; its trace is characterised by the lemmas below |
| Client.CallAllRateLimited | analyzer.py:36-53 | when every response is a 429, the call waits once per response, in order, and never returns or raises |
| Client.CallTrace | analyzer.py:36-55 | every wait answers a 429, in order, and equals that response's chosen wait; a settled call sends one request more than it waits, and the response after the last wait settles it |
| Client.WaitsForAt | analyzer.py:40-53 | the i-th wait of a call is the one chosen from the i-th response's error message |
| Client.CallSettlesAtFirstNon429 | analyzer.py:36-55 | the first non-429 response at index k decides the call: exactly k waits, k + 1 requests, and nothing after it is requested |
| Client.CallReturnsAfterRateLimits | analyzer.py:36-39 | a 200 at index k after k rate limits returns that response's content after exactly those k waits and k + 1 requests |
| Client.CallRaisesOnOtherStatus | analyzer.py:54-55 | a status other than 200 or 429 raises with its status and body at once, with no wait for it and no request after it |
| Client.CallIgnoresLaterResponses | analyzer.py:36-39 | once a call has returned or raised, responses the endpoint would give afterwards change nothing |
| Client.CallAfterRateLimits | analyzer.py:40-53 | a run of rate limits only prepends its waits and requests to what the following responses do |
| Client.GetResponse | analyzer.py:36-55 | the imperative loop produces the same outcome, waits and request count as the recursive model |
| Analyzer.AnalysisPass | analyzer.py:60-64 | a pass never requests more responses than it is given |
| Analyzer.PassOutcome | analyzer.py:60-64 | a pass settled by one response never stays pending, and returns exactly when that response is a 200 whose content parses directly or by the brace fallback |
| Analyzer.RepliedWithIsPassOutcome | analyzer.py:69-73 | a response "replies with" a value exactly when a pass settled by it returns that value |
| Analyzer.AnalysisPassAt | analyzer.py:60-64 | with the first non-429 response at k, the pass waits for the k rate limits, sends k + 1 requests and ends as that response dictates: a parseable reply is returned, an unparseable one raises `Unparseable` quoting it, `ApiError` and `MalformedSuccess` pass through |
| Analyzer.AnalysisPassPending | analyzer.py:60-64 | a pass given only rate limits waits once per response and never settles |
| Analyzer.AnalysisPassReplies | analyzer.py:69-73 | a pass waits as the retry loop does; any returned value is what the last requested 200 reply parses to, and any raised `Unparseable` quotes that reply |
| Analyzer.AnalyzeDialogue | analyzer.py:75-81 | a merged result holds, as the info-anchor analysis, the parse of the reply that settled the first pass, and as the objection analysis the parse of the last reply requested |
| Analyzer.AfterInfoAnchors | analyzer.py:76-81 | an error of the info-anchor pass is the analysis' error with no further request; the first pass's waits come first, and the objection pass adds at most the remaining responses |
| Analyzer.AnalyzeDialogueFirstSettles | analyzer.py:75-77 | when the reply settling the first pass does not yield a value, the analysis raises that error after exactly the first pass's waits and requests |
| Analyzer.AnalyzeDialogueAt | analyzer.py:75-81 | with the first two non-429 responses at k1 < k2, the analysis returns the pair (a, o) exactly when response k1 replies with a and response k2 with o; an objection-pass error is the analysis' error; and, when the info-anchor pass returns, k2 + 1 requests are sent with one wait per rate limit, in order |
| Analyzer.AnalysisPassIgnoresLaterResponses | analyzer.py:60-64 | a settled pass is unaffected by later responses |
| Analyzer.AnalyzeDialogueIgnoresLaterResponses | analyzer.py:75-81 | once the analysis has returned or raised, later responses change nothing: no request follows the second pass |
| Analyzer.AfterInfoAnchorsIgnoresLaterResponses | analyzer.py:77-81 | the objection pass, once settled, ignores later responses |
| Analyzer.FirstPassErrorIsFinal | analyzer.py:76-77 | an error in the info-anchor pass is the analysis' error and the objection pass sends no request |
| Scenarios.SuggestedWait | analyzer.py:45-47 | for "Please try again in 3.5s." the wait is 4.5 seconds |
| Scenarios.RateLimitedOnceThenReply | analyzer.py:36-53 | a 429 suggesting 3.5 s and then a 200 wait once for 4.5 s and return the reply after two requests, whatever follows |
| Scenarios.RateLimitedWithoutSuggestion | analyzer.py:48-49 | a 429 with no suggestion waits the default 20 seconds before the next request |
| Scenarios.MalformedSuggestion | analyzer.py:47-51 | the captured `1.2.3` does not convert, so the wait is the default |
| Scenarios.ServerErrorRaisesAtOnce | analyzer.py:54-55 | a 500 raises with its body after one request and no wait, whatever follows |

## Left out

- HTTP (`requests.post`, headers, request body, analyzer.py:26-37): a response
  is a value carrying its status, its text, the `choices[0].message.content`
  lookup and the `error.message` lookup, each already decoded.
- `time.sleep` and `print` (analyzer.py:52-53): the model records each wait in
  a trace instead.
- The endless loop: the responses are a finite sequence. A call still
  rate-limited when they run out ends `Pending`, where the script would keep
  requesting.
- Float arithmetic: suggested waits are exact decimals, and `float`
  rounding is not modelled.
- Client.Call: a wait too large for `time.sleep` (above about 9.2e9 seconds,
  for instance from `try again in 9300000000s`) raises `OverflowError` at
  analyzer.py:53, outside the `try`, and ends the call with that exception;
  the model records the wait and keeps requesting.
- `json.loads` internals: the parser is an arbitrary partial function.
- Prompt wording (analyzer.py:59, 68) and the model's replies: the prompts are
  opaque, and the replies are the responses' content.
- `main` (analyzer.py:83-97): file reading, the batch loop and output writing
  are I/O.
- Credential and endpoint configuration (analyzer.py:9-11): configuration,
  not logic.
- Client.Call: a 200 whose `choices[0].message.content` is JSON `null` or a
  non-string is not representable; `get_groq_response` would return it and
  the `TypeError` of `json.loads` at analyzer.py:62 would be caught at :63,
  and `extract_json` would then raise `AttributeError` at `text.find`
  (analyzer.py:15), which escapes instead of the errors modelled here. `Response.content`
  is a string or absent, which covers every reply the endpoint is documented
  to send.
- Error message text: a non-200/429 status is kept as the structured
  `ApiError(status, body)` rather than the formatted string
  `API Error: <status>, <body>`.
