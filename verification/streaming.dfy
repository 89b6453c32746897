/**
 * The fallback streaming call (`sendChat`) as specification functions.
 *
 * The network is abstracted: each attempt is given as an `Attempt`, the
 * deltas its stream delivers, how the stream ends, the chunk index at which a
 * stop request from the user arrives (if it does during this attempt) and the
 * elapsed-seconds string the clock would give. The cooperative cancel flag
 * `continueResponse` is part of the state.
 */
module Streaming {
  import opened Wrappers
  import opened Text

  /** The backend models, in ranked order, and their display names. */
  const Llms: seq<string> := [
    "nvidia/llama-3.1-nemotron-ultra-253b-v1:free",
    "meta-llama/llama-4-maverick:free",
    "qwen/qwen3-235b-a22b:free",
    "deepseek/deepseek-chat:free",
    "google/gemini-2.0-flash-exp:free",
    "google/gemma-3-27b-it:free"
  ]

  const LlmNames: seq<string> := [
    "Llama 3.1 Nemotron",
    "Llama 4 Maverick",
    "Qwen3",
    "Deepseek V3",
    "Gemma 2.0 Flash",
    "Gemma 3.0 (27b)"
  ]

  /** The message of the error raised for a stream that produced no text. */
  const NoResponse := "Error: LLM has given no response!"

  /** How a stream ends: it finishes, or the request or the stream throws. */
  datatype Ending = Finished | Broke(message: string)

  /**
   * One attempt against a backend. `deltas` are `chunk.choices[0]?.delta?.content || ""`
   * in arrival order (a request that fails outright has none and `Broke`);
   * `stopAt: Some(c)` with `c <= |deltas|` means the user's stop arrives
   * before chunk `c` is looked at (or, for `c == |deltas|`, after the last one).
   */
  datatype Attempt = Attempt(deltas: seq<string>, ending: Ending, stopAt: Option<nat>, elapsed: string)

  /** One entry of `questionsAndResponses`. */
  datatype Turn = Turn(question: string, response: string)

  /** What the extension posts to the webview. */
  datatype Event =
    | Chat(text: string)
    | Loading
    | Content(text: string)
    | Response(text: string)
    | Selection(text: string, file: string, maxVal: nat)
    | Error(text: string, question: string)
    | History(responding: bool)

  // ---- the elapsed-time string ----

  /**
   * `totalTime.substring(0, totalTime.indexOf('.') + 5)`: a prefix of the
   * elapsed-seconds string.
   */
  function TruncateSeconds(totalTime: string): (r: string)
    ensures |r| <= |totalTime| && r == totalTime[..|r|]
  {
    var cut := match IndexOf(totalTime, ".") case None => 4 case Some(d) => d + 5;
    totalTime[..if cut <= |totalTime| then cut else |totalTime|]
  }

  /** With a dot, the cut falls four characters after the first one (no rounding). */
  lemma TruncateAtFirstDot(totalTime: string, d: nat)
    requires d < |totalTime| && totalTime[d] == '.'
    requires forall i :: 0 <= i < d ==> totalTime[i] != '.'
    ensures TruncateSeconds(totalTime) == totalTime[..if d + 5 <= |totalTime| then d + 5 else |totalTime|]
    ensures d + 5 <= |totalTime| ==> TruncateSeconds(totalTime) == totalTime[..d] + "." + totalTime[d + 1..d + 5]
  {
    assert OccursAt(totalTime, ".", d) by { assert totalTime[d..d + 1] == [totalTime[d]]; }
    var e := IndexOf(totalTime, ".").value;
    assert totalTime[e] == '.' by { assert totalTime[e..e + 1] == "."; }
    assert e == d;
    if d + 5 <= |totalTime| {
      assert totalTime[..d + 5] == totalTime[..d] + [totalTime[d]] + totalTime[d + 1..d + 5];
    }
  }

  /** Without a dot, `indexOf` gives -1 and the string is cut to four characters. */
  lemma TruncateWithoutDot(totalTime: string)
    requires '.' !in totalTime
    ensures TruncateSeconds(totalTime) == totalTime[..if 4 <= |totalTime| then 4 else |totalTime|]
  {
    forall e | 0 <= e < |totalTime| ensures !OccursAt(totalTime, ".", e) {
      assert totalTime[e..e + 1] == [totalTime[e]];
    }
  }

  function RunTime(index: nat, elapsed: string): string
    requires index < |Llms|
  {
    "Call to " + LlmNames[index] + " took " + TruncateSeconds(elapsed) + " seconds."
  }

  /** The answer with its timing footer, `${currentResponse}\n\n**${runTime}**`. */
  function Footed(response: string, index: nat, elapsed: string): string
    requires index < |Llms|
  {
    response + "\n\n**" + RunTime(index, elapsed) + "**"
  }

  // ---- one attempt ----

  function Concat(deltas: seq<string>): string
  {
    if deltas == [] then "" else Concat(deltas[..|deltas| - 1]) + deltas[|deltas| - 1]
  }

  /** The running text published after each non-empty delta. */
  function Publications(deltas: seq<string>): seq<Event>
  {
    if deltas == [] then []
    else Publications(deltas[..|deltas| - 1]) +
         (if |deltas[|deltas| - 1]| > 0 then [Response(Concat(deltas))] else [])
  }

  /** Whether the user's stop arrives while this attempt's loop still runs. */
  predicate StopsDuring(a: Attempt)
  {
    a.stopAt.Some? && a.stopAt.value <= |a.deltas|
  }

  /** How many deltas the loop appends, given the flag `live` at the start of the attempt. */
  function Consumed(a: Attempt, live: bool): (k: nat)
    ensures k <= |a.deltas|
  {
    if !live then 0 else if StopsDuring(a) then a.stopAt.value else |a.deltas|
  }

  /** `continueResponse` when the loop is over. */
  function FlagAfter(a: Attempt, live: bool): bool
  {
    live && !StopsDuring(a)
  }

  /** The text the attempt accumulated in `currentResponse`. */
  function Streamed(a: Attempt, live: bool): string
  {
    Concat(a.deltas[..Consumed(a, live)])
  }

  /** The error the `try` block raises, if any: a broken stream that was read to its end, or an empty live answer. */
  function Raised(a: Attempt, live: bool): Option<string>
  {
    if Consumed(a, live) == |a.deltas| && a.ending.Broke? then Some(a.ending.message)
    else if |Streamed(a, live)| == 0 && FlagAfter(a, live) then Some(NoResponse)
    else None
  }

  // ---- the fallback chain ----

  /** The part of the session `sendChat` reads and writes. */
  datatype CallState = CallState(
    continueResponse: bool,
    currentResponse: string,
    questionHistory: seq<string>,
    responseHistory: seq<string>,
    questionsAndResponses: seq<Turn>,
    published: seq<Event>)

  /** The state once the stream loop of attempt `a` is over: `currentResponse` restarted and refilled. */
  function AfterStream(s: CallState, a: Attempt): CallState
  {
    var live := s.continueResponse;
    s.(continueResponse := FlagAfter(a, live), currentResponse := Streamed(a, live),
       published := s.published + Publications(a.deltas[..Consumed(a, live)]))
  }

  /** The `catch` block goes on with the next model: an error was raised while not cancelled and retries remain. */
  predicate Retries(live: bool, a: Attempt, count: nat)
  {
    Raised(a, live).Some? && FlagAfter(a, live) && count < |Llms|
  }

  /**
   * The end of an attempt that does not retry: the answer with its footer is
   * published and recorded; or, cancelled, the timing line is published and
   * the flag raised again; or, retries exhausted, the error is published and
   * stands in for the missing response.
   */
  function Settle(s1: CallState, a: Attempt, live: bool, chat: string, index: nat, originalQuestion: string): CallState
    requires index < |Llms|
  {
    match Raised(a, live)
    case None =>
      var total := Footed(Streamed(a, live), index, a.elapsed);
      s1.(continueResponse := true,
          published := s1.published + [Response(total)],
          questionHistory := s1.questionHistory + [chat],
          responseHistory := s1.responseHistory + [total],
          questionsAndResponses := s1.questionsAndResponses + [Turn(originalQuestion, total)])
    case Some(message) =>
      if !FlagAfter(a, live) then
        s1.(continueResponse := true, published := s1.published + [Response(RunTime(index, a.elapsed))])
      else
        s1.(responseHistory := if |s1.responseHistory| < |s1.questionHistory| then s1.responseHistory + [message]
                               else s1.responseHistory,
            published := s1.published + [Error(message, chat)])
  }

  /** The next model of the ring, `(index + 1) % llms.length`. */
  function Next(index: nat): (r: nat)
    requires index < |Llms|
    ensures r < |Llms| && r == (index + 1) % |Llms|
  {
    if index + 1 == |Llms| then 0 else index + 1
  }

  /** The outcome of a call: the final state and the models tried, in order. */
  datatype Call = Call(state: CallState, tried: seq<nat>)

  predicate ChainArgs(index: nat, count: nat, outcomes: seq<Attempt>)
  {
    index < |Llms| && count <= |Llms| && |outcomes| > |Llms| - count
  }

  /** `sendChat(chat, index, count)` against the attempts `outcomes` (one per try). */
  function Run(s: CallState, chat: string, index: nat, count: nat, originalQuestion: string, outcomes: seq<Attempt>): Call
    requires ChainArgs(index, count, outcomes)
    decreases |Llms| - count
  {
    var a := outcomes[0];
    var s1 := AfterStream(s, a);
    if Retries(s.continueResponse, a, count) then
      var rest := Run(s1, chat, Next(index), count + 1, originalQuestion, outcomes[1..]);
      Call(rest.state, [index] + rest.tried)
    else Call(Settle(s1, a, s.continueResponse, chat, index, originalQuestion), [index])
  }

  lemma ModNext(index: nat, j: nat)
    requires index < |Llms|
    ensures (Next(index) + j) % |Llms| == (index + 1 + j) % |Llms|
  {
  }

  /** The models a call tries, given the flag at its start. */
  function Tried(live: bool, index: nat, count: nat, outcomes: seq<Attempt>): seq<nat>
    requires ChainArgs(index, count, outcomes)
    decreases |Llms| - count
  {
    if Retries(live, outcomes[0], count) then [index] + Tried(true, Next(index), count + 1, outcomes[1..])
    else [index]
  }

  lemma {:induction false} RunTried(s: CallState, chat: string, index: nat, count: nat, originalQuestion: string, outcomes: seq<Attempt>)
    requires ChainArgs(index, count, outcomes)
    ensures Run(s, chat, index, count, originalQuestion, outcomes).tried == Tried(s.continueResponse, index, count, outcomes)
    decreases |Llms| - count
  {
    if Retries(s.continueResponse, outcomes[0], count) {
      var s1 := AfterStream(s, outcomes[0]);
      assert s1.continueResponse;
      RunTried(s1, chat, Next(index), count + 1, originalQuestion, outcomes[1..]);
    }
  }

  /**
   * Fallback order: attempt `j` uses model `(index + j) % llms.length`, and at
   * most `llms.length + 1 - count` attempts are made; from `count` 0 that is
   * every model once and the starting model a second time.
   */
  lemma TriedModels(s: CallState, chat: string, index: nat, count: nat, originalQuestion: string, outcomes: seq<Attempt>)
    requires ChainArgs(index, count, outcomes)
    ensures var t := Run(s, chat, index, count, originalQuestion, outcomes).tried;
      1 <= |t| <= |Llms| + 1 - count &&
      forall j :: 0 <= j < |t| ==> t[j] == (index + j) % |Llms|
  {
    RunTried(s, chat, index, count, originalQuestion, outcomes);
    TriedRing(s.continueResponse, index, count, outcomes);
  }

  lemma {:induction false} TriedRing(live: bool, index: nat, count: nat, outcomes: seq<Attempt>)
    requires ChainArgs(index, count, outcomes)
    ensures var t := Tried(live, index, count, outcomes);
      1 <= |t| <= |Llms| + 1 - count &&
      forall j :: 0 <= j < |t| ==> t[j] == (index + j) % |Llms|
    decreases |Llms| - count
  {
    if Retries(live, outcomes[0], count) {
      TriedRing(true, Next(index), count + 1, outcomes[1..]);
      RingShift(index, Tried(true, Next(index), count + 1, outcomes[1..]));
    } else {
      assert index % |Llms| == index;
    }
  }

  /** Putting `index` in front of the ring walk that starts at the next model gives the walk from `index`. */
  lemma RingShift(index: nat, rest: seq<nat>)
    requires index < |Llms|
    requires forall j :: 0 <= j < |rest| ==> rest[j] == (Next(index) + j) % |Llms|
    ensures forall j :: 0 <= j < |rest| + 1 ==> ([index] + rest)[j] == (index + j) % |Llms|
  {
    forall j | 0 <= j < |rest| + 1 ensures ([index] + rest)[j] == (index + j) % |Llms| {
      if j == 0 {
        assert index % |Llms| == index;
      } else {
        assert ([index] + rest)[j] == rest[j - 1];
        ModNext(index, j - 1);
      }
    }
  }

  /** Whether attempt `a`, started with the flag up, fails in a way that sends the chain on. */
  predicate FailsLive(a: Attempt)
  {
    Raised(a, true).Some? && FlagAfter(a, true)
  }

  /**
   * The call `c`, started from `s` with `count` models used, made
   * `llms.length + 1 - count` attempts, recorded no turn, left the flag up,
   * and its last event is an `error` carrying the failure of its last
   * attempt and the failing prompt; that failure stands in for the missing
   * response when the response history is behind the question history.
   */
  predicate Exhausted(s: CallState, c: Call, count: nat, outcomes: seq<Attempt>, chat: string)
    requires count <= |Llms| < |outcomes| + count
  {
    var lastFailure := Raised(outcomes[|Llms| - count], true);
    |c.tried| == |Llms| + 1 - count &&
    c.state.questionsAndResponses == s.questionsAndResponses &&
    c.state.questionHistory == s.questionHistory &&
    lastFailure.Some? &&
    c.state.responseHistory == (if |s.responseHistory| < |s.questionHistory| then s.responseHistory + [lastFailure.value]
                                else s.responseHistory) &&
    c.state.continueResponse &&
    lastFailure.Some? && |c.state.published| > 0 &&
    c.state.published[|c.state.published| - 1] == Error(lastFailure.value, chat)
  }

  /** Exhaustion: when every attempt fails while not cancelled, every model left is tried and the call ends in an error. */
  lemma {:induction false} Exhaustion(s: CallState, chat: string, index: nat, count: nat, originalQuestion: string, outcomes: seq<Attempt>)
    requires ChainArgs(index, count, outcomes) && s.continueResponse
    requires forall j :: 0 <= j <= |Llms| - count ==> FailsLive(outcomes[j])
    ensures Exhausted(s, Run(s, chat, index, count, originalQuestion, outcomes), count, outcomes, chat)
    decreases |Llms| - count
  {
    assert FailsLive(outcomes[0]);
    var s1 := AfterStream(s, outcomes[0]);
    if count < |Llms| {
      forall j | 0 <= j <= |Llms| - (count + 1) ensures FailsLive(outcomes[1..][j]) {
        assert outcomes[1..][j] == outcomes[j + 1];
      }
      Exhaustion(s1, chat, Next(index), count + 1, originalQuestion, outcomes[1..]);
      var c' := RunRetries(s, chat, index, count, originalQuestion, outcomes);
      ExhaustedLater(s, s1, c', index, count, outcomes, chat);
    } else {
      ExhaustedNow(s1, outcomes[0], chat, index, originalQuestion);
      assert outcomes[|Llms| - count] == outcomes[0];
    }
  }

  /** The last model fails too: the `catch` block reports the error. */
  lemma ExhaustedNow(s1: CallState, a: Attempt, chat: string, index: nat, originalQuestion: string)
    requires index < |Llms| && s1.continueResponse && FailsLive(a)
    ensures var c := Settle(s1, a, true, chat, index, originalQuestion);
      c.questionsAndResponses == s1.questionsAndResponses && c.questionHistory == s1.questionHistory &&
      c.responseHistory == (if |s1.responseHistory| < |s1.questionHistory| then s1.responseHistory + [Raised(a, true).value]
                            else s1.responseHistory) &&
      c.continueResponse && |c.published| > 0 && c.published[|c.published| - 1] == Error(Raised(a, true).value, chat)
  {
  }

  lemma ExhaustedLater(s: CallState, s1: CallState, c': Call, index: nat, count: nat, outcomes: seq<Attempt>, chat: string)
    requires count < |Llms| < |outcomes| + count
    requires s1.questionsAndResponses == s.questionsAndResponses && s1.questionHistory == s.questionHistory
    requires s1.responseHistory == s.responseHistory
    requires Exhausted(s1, c', count + 1, outcomes[1..], chat)
    ensures Exhausted(s, Call(c'.state, [index] + c'.tried), count, outcomes, chat)
  {
    assert outcomes[1..][|Llms| - (count + 1)] == outcomes[|Llms| - count];
  }

  /**
   * How the turn log and the question history of `before` compare with
   * those of `after` when the last attempt of a call was `a`, made on model
   * `model` with the flag `live` at its start: when the attempt raised
   * nothing, the turn's answer is its streamed text with the footer naming
   * the model, and the question history gains the prompt; otherwise both
   * are untouched.
   */
  predicate RecordsLast(before: CallState, after: CallState, a: Attempt, live: bool, model: nat, chat: string, originalQuestion: string)
    requires model < |Llms|
  {
    if Raised(a, live).None? then
      after.questionsAndResponses == before.questionsAndResponses +
        [Turn(originalQuestion, Footed(Streamed(a, live), model, a.elapsed))] &&
      after.questionHistory == before.questionHistory + [chat]
    else
      after.questionsAndResponses == before.questionsAndResponses &&
      after.questionHistory == before.questionHistory
  }

  /**
   * The call `c` started from `s`: the last model it tried took the last
   * attempt it made, and it recorded a turn exactly as `RecordsLast` says.
   */
  predicate AnsweredBy(s: CallState, c: Call, outcomes: seq<Attempt>, chat: string, originalQuestion: string)
  {
    var last := |c.tried| - 1;
    0 <= last < |outcomes| && c.tried[last] < |Llms| &&
    RecordsLast(s, c.state, outcomes[last], if last == 0 then s.continueResponse else true, c.tried[last], chat, originalQuestion)
  }

  /** Success: a call records at most one turn, and only for its last attempt. */
  lemma {:induction false} Answered(s: CallState, chat: string, index: nat, count: nat, originalQuestion: string, outcomes: seq<Attempt>)
    requires ChainArgs(index, count, outcomes)
    ensures AnsweredBy(s, Run(s, chat, index, count, originalQuestion, outcomes), outcomes, chat, originalQuestion)
    decreases |Llms| - count
  {
    var s1 := AfterStream(s, outcomes[0]);
    if Retries(s.continueResponse, outcomes[0], count) {
      Answered(s1, chat, Next(index), count + 1, originalQuestion, outcomes[1..]);
      var c' := RunRetries(s, chat, index, count, originalQuestion, outcomes);
      AnsweredLater(s, s1, c', index, outcomes, chat, originalQuestion);
    } else {
      SettleRecords(s1, outcomes[0], s.continueResponse, chat, index, originalQuestion);
    }
  }

  lemma AnsweredLater(s: CallState, s1: CallState, c': Call, index: nat, outcomes: seq<Attempt>, chat: string, originalQuestion: string)
    requires |outcomes| > 0 && s1.continueResponse
    requires s1.questionsAndResponses == s.questionsAndResponses && s1.questionHistory == s.questionHistory
    requires AnsweredBy(s1, c', outcomes[1..], chat, originalQuestion)
    ensures AnsweredBy(s, Call(c'.state, [index] + c'.tried), outcomes, chat, originalQuestion)
  {
    var last' := |c'.tried| - 1;
    assert outcomes[1..][last'] == outcomes[last' + 1];
    RecordsLastFrom(s, s1, c'.state, outcomes[last' + 1], true, c'.tried[last'], chat, originalQuestion);
  }

  /** A call that retries is its first model followed by the call on the next one. */
  lemma RunRetries(s: CallState, chat: string, index: nat, count: nat, originalQuestion: string, outcomes: seq<Attempt>) returns (c': Call)
    requires ChainArgs(index, count, outcomes) && Retries(s.continueResponse, outcomes[0], count)
    ensures c' == Run(AfterStream(s, outcomes[0]), chat, Next(index), count + 1, originalQuestion, outcomes[1..])
    ensures Run(s, chat, index, count, originalQuestion, outcomes) == Call(c'.state, [index] + c'.tried)
    ensures AfterStream(s, outcomes[0]).continueResponse
  {
    c' := Run(AfterStream(s, outcomes[0]), chat, Next(index), count + 1, originalQuestion, outcomes[1..]);
  }

  lemma RecordsLastFrom(s: CallState, s1: CallState, after: CallState, a: Attempt, live: bool, model: nat, chat: string, originalQuestion: string)
    requires model < |Llms|
    requires s1.questionsAndResponses == s.questionsAndResponses && s1.questionHistory == s.questionHistory
    requires RecordsLast(s1, after, a, live, model, chat, originalQuestion)
    ensures RecordsLast(s, after, a, live, model, chat, originalQuestion)
  {
  }

  /** The end of an attempt that does not retry records a turn exactly when the attempt raised nothing. */
  lemma SettleRecords(s1: CallState, a: Attempt, live: bool, chat: string, index: nat, originalQuestion: string)
    requires index < |Llms|
    ensures RecordsLast(s1, Settle(s1, a, live, chat, index, originalQuestion), a, live, index, chat, originalQuestion)
  {
  }

  /**
   * The chain goes on only after a live failure: every attempt before the
   * last raised an error with the flag still up, so an answer or a cancel
   * ends the chain at once.
   */
  lemma {:induction false} RetryOnlyAfterLiveFailure(s: CallState, chat: string, index: nat, count: nat, originalQuestion: string, outcomes: seq<Attempt>)
    requires ChainArgs(index, count, outcomes)
    ensures var c := Run(s, chat, index, count, originalQuestion, outcomes);
      |c.tried| <= |outcomes| &&
      (|c.tried| > 1 ==> Raised(outcomes[0], s.continueResponse).Some? && FlagAfter(outcomes[0], s.continueResponse)) &&
      forall j :: 1 <= j < |c.tried| - 1 ==> FailsLive(outcomes[j])
    decreases |Llms| - count
  {
    TriedModels(s, chat, index, count, originalQuestion, outcomes);
    if Retries(s.continueResponse, outcomes[0], count) {
      var s1 := AfterStream(s, outcomes[0]);
      RetryOnlyAfterLiveFailure(s1, chat, Next(index), count + 1, originalQuestion, outcomes[1..]);
      var c' := Run(s1, chat, Next(index), count + 1, originalQuestion, outcomes[1..]);
      forall j | 1 <= j < |c'.tried| ensures FailsLive(outcomes[j]) {
        assert outcomes[j] == outcomes[1..][j - 1];
      }
    }
  }

  /** Every call ends with the cancel flag up again, whichever way it ends. */
  lemma {:induction false} RunRaisesFlag(s: CallState, chat: string, index: nat, count: nat, originalQuestion: string, outcomes: seq<Attempt>)
    requires ChainArgs(index, count, outcomes)
    ensures Run(s, chat, index, count, originalQuestion, outcomes).state.continueResponse
    decreases |Llms| - count
  {
    if Retries(s.continueResponse, outcomes[0], count) {
      RunRaisesFlag(AfterStream(s, outcomes[0]), chat, Next(index), count + 1, originalQuestion, outcomes[1..]);
    }
  }

  /** The end of an attempt that does not retry appends at most one entry to each list, and raises the flag. */
  lemma SettleAppends(s1: CallState, a: Attempt, live: bool, chat: string, index: nat, originalQuestion: string)
    requires index < |Llms|
    ensures var c := Settle(s1, a, live, chat, index, originalQuestion);
      s1.questionHistory <= c.questionHistory && |c.questionHistory| <= |s1.questionHistory| + 1 &&
      s1.responseHistory <= c.responseHistory && |c.responseHistory| <= |s1.responseHistory| + 1 &&
      s1.questionsAndResponses <= c.questionsAndResponses &&
      |c.questionsAndResponses| <= |s1.questionsAndResponses| + 1 &&
      s1.published <= c.published &&
      (c.continueResponse <==> s1.continueResponse || !FlagAfter(a, live) || Raised(a, live).None?)
  {
  }

  /** The history lists and the transcript only grow, by at most one entry each. */
  lemma {:induction false} RunOnlyAppends(s: CallState, chat: string, index: nat, count: nat, originalQuestion: string, outcomes: seq<Attempt>)
    requires ChainArgs(index, count, outcomes)
    ensures var c := Run(s, chat, index, count, originalQuestion, outcomes).state;
      s.questionHistory <= c.questionHistory && |c.questionHistory| <= |s.questionHistory| + 1 &&
      s.responseHistory <= c.responseHistory && |c.responseHistory| <= |s.responseHistory| + 1 &&
      s.questionsAndResponses <= c.questionsAndResponses &&
      |c.questionsAndResponses| <= |s.questionsAndResponses| + 1 &&
      s.published <= c.published
    decreases |Llms| - count
  {
    var s1 := AfterStream(s, outcomes[0]);
    if Retries(s.continueResponse, outcomes[0], count) {
      RunOnlyAppends(s1, chat, Next(index), count + 1, originalQuestion, outcomes[1..]);
    } else {
      SettleAppends(s1, outcomes[0], s.continueResponse, chat, index, originalQuestion);
    }
  }

  // ---- the cancel branch as written ----

  /** How the `catch` block's cancel branch ends. */
  datatype Settled = Returned(state: CallState) | Threw(error: string, state: CallState)

  /**
   * As written, the cancel branch of the `catch` block passes the undeclared
   * name `runtime` (not `runTime`) to `sendStream` when the answer is shown
   * in the panel, which raises a `ReferenceError` before `continueResponse`
   * is set again; only the write-to-file mode gets through.
   */
  function CancelBranchAsWritten(s1: CallState, writeToFile: bool): (r: Settled)
    ensures !writeToFile ==> r.Threw? && r.state.continueResponse == s1.continueResponse
    ensures writeToFile ==> r.Returned? && r.state.continueResponse
  {
    if writeToFile then Returned(s1.(continueResponse := true))
    else Threw("ReferenceError: runtime is not defined", s1)
  }

  /**
   * A stop that arrives after the last chunk of a stream that then breaks
   * reaches that branch; as written the call ends by throwing with the flag
   * still down, where the corrected `Settle` publishes the timing line and
   * raises the flag.
   */
  lemma StopThenBreakAsWritten(s: CallState, index: nat, chat: string, originalQuestion: string)
    requires index < |Llms| && s.continueResponse
    ensures var a := Attempt(["Hi"], Broke("network error"), Some(1), "1.5");
      var s1 := AfterStream(s, a);
      Raised(a, true) == Some("network error") && !FlagAfter(a, true) &&
      CancelBranchAsWritten(s1, false).Threw? && !CancelBranchAsWritten(s1, false).state.continueResponse &&
      Settle(s1, a, true, chat, index, originalQuestion).continueResponse &&
      Settle(s1, a, true, chat, index, originalQuestion).published == s1.published + [Response(RunTime(index, "1.5"))]
  {
  }

  // ---- what the stream publishes ----

  lemma {:induction false} PublicationsArePrefixes(deltas: seq<string>)
    ensures forall e :: e in Publications(deltas) ==>
      exists i :: 1 <= i <= |deltas| && e == Response(Concat(deltas[..i]))
  {
    if deltas != [] {
      var init := deltas[..|deltas| - 1];
      PublicationsArePrefixes(init);
      forall e | e in Publications(init) ensures exists i :: 1 <= i <= |deltas| && e == Response(Concat(deltas[..i])) {
        var i :| 1 <= i <= |init| && e == Response(Concat(init[..i]));
        assert init[..i] == deltas[..i];
      }
      assert deltas[..|deltas|] == deltas;
    }
  }

  /**
   * Cancellation: with the stop arriving before chunk `k`, the attempt's text
   * is exactly the first `k` deltas, every published text is a prefix of it,
   * and the flag is down afterwards.
   */
  lemma CancelKeepsPrefix(a: Attempt, k: nat)
    requires a.stopAt == Some(k) && k <= |a.deltas|
    ensures Streamed(a, true) == Concat(a.deltas[..k])
    ensures !FlagAfter(a, true)
    ensures forall e :: e in Publications(a.deltas[..k]) ==>
      exists i :: 1 <= i <= k && e == Response(Concat(a.deltas[..i]))
  {
    PublicationsArePrefixes(a.deltas[..k]);
    forall e | e in Publications(a.deltas[..k]) ensures exists i :: 1 <= i <= k && e == Response(Concat(a.deltas[..i])) {
      var i :| 1 <= i <= k && e == Response(Concat(a.deltas[..k][..i]));
      assert a.deltas[..k][..i] == a.deltas[..i];
    }
  }

  /**
   * A stop pressed while no call runs leaves the flag down, so the next call
   * reads no chunk, raises nothing and records an empty answer with its footer.
   */
  lemma StaleStopAnswersEmpty(s: CallState, chat: string, index: nat, count: nat, originalQuestion: string, outcomes: seq<Attempt>)
    requires ChainArgs(index, count, outcomes) && !s.continueResponse && |outcomes[0].deltas| > 0
    ensures var c := Run(s, chat, index, count, originalQuestion, outcomes);
      c.tried == [index] && c.state.continueResponse &&
      c.state.questionsAndResponses == s.questionsAndResponses + [Turn(originalQuestion, Footed("", index, outcomes[0].elapsed))]
  {
    assert outcomes[0].deltas[..0] == [];
  }
}
