/**
 * The extension's chat session: the module-level state of the extension and
 * the webview message handler that drives it.
 *
 * The `chat` handler runs in two parts around its `await sendChat(...)`:
 * `Submit` is everything up to the model call (or up to the point where it
 * asks a question or fails), `Complete` is the model call and the resets
 * after it. Between the two the session is responding, and the call waiting
 * to run is kept in `pending`. The other messages (`stopResponse`,
 * `selectLLM`, `remove`, `clearHistory`) can arrive at any time.
 */
module Session {
  import opened Wrappers
  import opened Text
  import opened Tokens
  import opened FileText
  import opened FileIndex
  import opened Mentions
  import opened Streaming
  import opened AnswerFilter

  /** A `chat` message from the webview: its text, whether it answers a question, and the name asked about. */
  datatype ChatMessage = ChatMessage(text: string, context: bool, file: string)

  /** The arguments of the `sendChat` call the handler is waiting on. */
  datatype Request = Request(prompt: string, index: nat, originalQuestion: string)

  /** How the handler's part up to the model call ends. */
  datatype Status = Ignored | Aborted | Asked | Sent(prompt: string)

  /** The session state as a value. */
  datatype State = State(
    questionsAndResponses: seq<Turn>,
    userQuestions: seq<string>,
    questionHistory: seq<string>,
    responseHistory: seq<string>,
    duplicatedFiles: set<string>,
    originalQuestion: string,
    previousResponse: string,
    currentResponse: string,
    textFromFile: string,
    llmIndex: nat,
    fileTitles: Titles,
    currentlyResponding: bool,
    continueResponse: bool,
    published: seq<Event>,
    pending: Option<Request>)

  // ---- the handler as functions ----

  /** `addFileToPrompt(file, location)`: the dedup set afterwards and the text, `None` when the read fails. */
  function AddFile(seen: set<string>, file: string, location: string, fs: Files): (set<string>, Option<string>)
  {
    if location in seen then (seen, Some(""))
    else if location !in fs then (seen + {location}, None)
    else (seen + {location}, Some(file + ":\n" + DecodeText(fs[location])))
  }

  /**
   * A location is recorded whether or not its read succeeds, and a location
   * already recorded contributes nothing, so a file is injected at most once.
   */
  lemma AddFileOnce(seen: set<string>, file: string, location: string, fs: Files)
    ensures var (seen1, text) := AddFile(seen, file, location, fs);
      seen1 == seen + {location} &&
      (location in seen ==> text == Some("")) &&
      (location !in seen ==> (text.Some? <==> location in fs)) &&
      AddFile(seen1, file, location, fs) == (seen1, Some(""))
  {
  }

  /**
   * The answer to a question (the `context` branch): the numbered line it
   * names in the previous question gives a location, whose file joins the
   * context, and the question it answered is scanned again with the `@`
   * of the asked-about name removed. `None` where the handler throws.
   */
  function Answer(st: State, msg: ChatMessage, fs: Files): (State, Option<string>)
  {
    match GetLocationFromResponse(msg.text, Split(st.previousResponse, '\n'))
    case None => (st, None)
    case Some(location) => Pick(st, msg.file, location, fs)
  }

  /** The rest of the `context` branch once the answer has named `location`, a candidate for `file`. */
  function Pick(st: State, file: string, location: string, fs: Files): (State, Option<string>)
  {
    var (seen, value) := AddFile(st.duplicatedFiles, file, location, fs);
    var st1 := st.(duplicatedFiles := seen);
    if value.None? then (st1, None)
    else
      Rescan(st1.(textFromFile := st1.textFromFile + value.value + "\n"), file)
  }

  /** The last question asked is scanned again with the `@` of `file` removed; `None` where there is none. */
  function Rescan(st: State, file: string): (State, Option<string>)
  {
    var history := st.questionHistory;
    if |history| == 0 then (st, None)
    else
      var text := StripMentions(history[|history| - 1], ["@" + file]);
      (st.(questionHistory := history[|history| - 1 := text]), Some(text))
  }

  /** Resolving the mentions of `text`, then asking about an ambiguous name or sending the prompt. */
  function Mention(st: State, text: string, fs: Files): (State, Status)
  {
    var matches := Matches(MentionPattern, text);
    var scan := Resolve(matches, st.fileTitles, fs, st.duplicatedFiles);
    var st1 := st.(duplicatedFiles := scan.seen);
    match scan.result
    case None => (st1, Aborted)
    case Some(m) =>
      AmbiguousNameKnown(matches, st.fileTitles, fs, st.duplicatedFiles);
      AfterScan(st1, text, m)
  }

  /** The handler once the mentions of `text` resolved to `m`: the first question is kept, the files join the context. */
  function AfterScan(st: State, text: string, m: Mentioned): (State, Status)
    requires !m.clearance ==> m.lastFile.Some? && m.lastFile.value in st.fileTitles
  {
    var st1 := st.(originalQuestion := if st.originalQuestion == "" then text else st.originalQuestion,
                   textFromFile := st.textFromFile + m.files);
    Conclude(st1, m, StripMentions(text, m.fulfilled))
  }

  /** The handler's part before the call, once the scan of `text` has resolved to `m`. */
  lemma MentionResolved(st: State, text: string, fs: Files, m: Mentioned)
    requires Resolve(Matches(MentionPattern, text), st.fileTitles, fs, st.duplicatedFiles).result == Some(m)
    ensures !m.clearance ==> m.lastFile.Some? && m.lastFile.value in st.fileTitles
    ensures Mention(st, text, fs) ==
      AfterScan(st.(duplicatedFiles := Resolve(Matches(MentionPattern, text), st.fileTitles, fs, st.duplicatedFiles).seen), text, m)
  {
    AmbiguousNameKnown(Matches(MentionPattern, text), st.fileTitles, fs, st.duplicatedFiles);
  }

  /** A scan that stops at a question names a file the index knows. */
  lemma AmbiguousNameKnown(matches: seq<string>, titles: Titles, fs: Files, seen: set<string>)
    ensures var r := Resolve(matches, titles, fs, seen);
      r.result.Some? && !r.result.value.clearance ==>
        r.result.value.lastFile.Some? && r.result.value.lastFile.value in titles
  {
    ResolveAmbiguity(matches, titles, fs, seen);
  }

  /** Asking about the ambiguous name, or sending the question with its context. */
  function Conclude(st: State, m: Mentioned, question: string): (State, Status)
    requires !m.clearance ==> m.lastFile.Some? && m.lastFile.value in st.fileTitles
  {
    if !m.clearance then
      var name := m.lastFile.value;
      (st.(previousResponse := m.response,
           published := st.published + [Selection(m.response, name, |st.fileTitles[name]|)]), Asked)
    else
      var prompt := question + "\n\n" + st.textFromFile;
      (st.(published := st.published + [Loading, Content("")], currentlyResponding := true,
           pending := Some(Request(prompt, st.llmIndex, st.originalQuestion))), Sent(prompt))
  }

  /** The `chat` handler up to its model call. */
  function Handle(st: State, msg: ChatMessage, fs: Files): (State, Status)
  {
    if st.currentlyResponding then (st, Ignored)
    else
      var st0 := if msg.context then st
                 else st.(userQuestions := st.userQuestions + [msg.text], questionHistory := st.questionHistory + [msg.text]);
      var st1 := st0.(published := st0.published + [Chat(msg.text)]);
      if msg.context then
        var (st2, text) := Answer(st1, msg, fs);
        if text.None? then (st2, Aborted) else Mention(st2, text.value, fs)
      else Mention(st1, msg.text, fs)
  }

  function CallOf(st: State): CallState
  {
    CallState(st.continueResponse, st.currentResponse, st.questionHistory, st.responseHistory,
              st.questionsAndResponses, st.published)
  }

  /** The model call and the resets after it. */
  function Finish(st: State, attempts: seq<Attempt>): State
    requires st.pending.Some? && ChainArgs(st.pending.value.index, 0, attempts)
  {
    var r := st.pending.value;
    Reset(st, Run(CallOf(st), r.prompt, r.index, 0, r.originalQuestion, attempts).state)
  }

  /** The state after a call that ended in `c`: the handler's resets. */
  function Reset(st: State, c: CallState): State
  {
    st.(continueResponse := c.continueResponse, currentResponse := c.currentResponse,
        questionHistory := c.questionHistory, responseHistory := c.responseHistory,
        questionsAndResponses := c.questionsAndResponses, published := c.published,
        textFromFile := "", originalQuestion := "", duplicatedFiles := {},
        currentlyResponding := false, pending := None)
  }

  // ---- what the handler promises ----

  /**
   * Asking, from `st` to `st1`: a `selection` is published whose text is the
   * numbered question for a name of the index with at least two candidates;
   * the question is kept as `previousResponse`, the answer's maximum is the
   * candidate count, and no call is started.
   */
  predicate Asks(st: State, st1: State)
  {
    |st1.published| > 0 && st1.currentlyResponding == st.currentlyResponding && st1.pending == st.pending &&
    var e := st1.published[|st1.published| - 1];
    e.Selection? && e.file in st.fileTitles && e.maxVal == |st.fileTitles[e.file]| >= 2 &&
    st1.previousResponse == e.text == Question(e.file, st.fileTitles[e.file])
  }

  /** Asking: when the handler asks, it does what `Asks` says, and no call runs. */
  lemma AskedPublishesQuestion(st: State, msg: ChatMessage, fs: Files)
    ensures var (st1, status) := Handle(st, msg, fs);
      status == Asked ==> Asks(st, st1) && !st1.currentlyResponding
  {
    if !st.currentlyResponding {
      var st0 := if msg.context then st
                 else st.(userQuestions := st.userQuestions + [msg.text], questionHistory := st.questionHistory + [msg.text]);
      var stc := st0.(published := st0.published + [Chat(msg.text)]);
      if msg.context {
        var (st2, text) := Answer(stc, msg, fs);
        AnswerFrame(stc, msg, fs);
        assert Handle(st, msg, fs) == if text.None? then (st2, Aborted) else Mention(st2, text.value, fs);
        if text.Some? {
          MentionAsks(st2, text.value, fs);
        }
      } else {
        assert Handle(st, msg, fs) == Mention(stc, msg.text, fs);
        MentionAsks(stc, msg.text, fs);
      }
    }
  }

  /** Answering a question touches neither the index nor the call state. */
  lemma AnswerFrame(st: State, msg: ChatMessage, fs: Files)
    ensures var st1 := Answer(st, msg, fs).0;
      st1.fileTitles == st.fileTitles && st1.pending == st.pending && st1.currentlyResponding == st.currentlyResponding
  {
  }

  /** The part of `AskedPublishesQuestion` after the context branch. */
  lemma MentionAsks(st: State, text: string, fs: Files)
    ensures var (st1, status) := Mention(st, text, fs);
      status == Asked ==> Asks(st, st1)
  {
    ResolveAmbiguity(Matches(MentionPattern, text), st.fileTitles, fs, st.duplicatedFiles);
  }

  /**
   * Answering: with the question for `name` pending, the answer `k` picks the
   * k-th candidate; its location is recorded, and its text joins the context
   * unless it was injected before.
   */
  lemma AnswerPicksCandidate(st: State, name: string, k: nat, fs: Files)
    requires name in st.fileTitles && '\n' !in name && NoNewline(st.fileTitles[name])
    requires st.previousResponse == Question(name, st.fileTitles[name])
    requires 1 <= k <= |st.fileTitles[name]|
    ensures var msg := ChatMessage(NatToString(k), true, name);
      Picks(st, Answer(st, msg, fs), name, st.fileTitles[name][k - 1], fs)
  {
    var msg := ChatMessage(NatToString(k), true, name);
    AnswerRoundTrip(name, st.fileTitles[name], k);
    AnswerAt(st, msg, fs, st.fileTitles[name][k - 1]);
  }

  /**
   * The answer picked `location`: it is recorded; the answer goes on exactly
   * when the file is readable or was injected before, and a question is
   * there to re-scan; the file's text joins the context only the first time;
   * the text to scan next is the last question without the `@` of `file`,
   * and it replaces that question in the history; nothing else changes.
   */
  predicate Picks(st: State, result: (State, Option<string>), file: string, location: string, fs: Files)
  {
    var (st1, text) := result;
    st1 == st.(duplicatedFiles := st1.duplicatedFiles, textFromFile := st1.textFromFile,
               questionHistory := st1.questionHistory) &&
    st1.duplicatedFiles == st.duplicatedFiles + {location} &&
    (text.Some? ==>
       |st.questionHistory| > 0 &&
       text.value == StripMentions(st.questionHistory[|st.questionHistory| - 1], ["@" + file]) &&
       st1.questionHistory == st.questionHistory[|st.questionHistory| - 1 := text.value]) &&
    (text.Some? <==> (location in st.duplicatedFiles || location in fs) && |st.questionHistory| > 0) &&
    (text.Some? && location in st.duplicatedFiles ==> st1.textFromFile == st.textFromFile + "\n") &&
    (text.Some? && location !in st.duplicatedFiles ==>
       st1.textFromFile == st.textFromFile + file + ":\n" + DecodeText(fs[location]) + "\n")
  }

  /** The `context` branch once the answer has picked `location`. */
  lemma AnswerAt(st: State, msg: ChatMessage, fs: Files, location: string)
    requires GetLocationFromResponse(msg.text, Split(st.previousResponse, '\n')) == Some(location)
    ensures Picks(st, Answer(st, msg, fs), msg.file, location, fs)
  {
    PickPicks(st, msg.file, location, fs);
  }

  lemma PickPicks(st: State, file: string, location: string, fs: Files)
    ensures Picks(st, Pick(st, file, location, fs), file, location, fs)
  {
    AddFileOnce(st.duplicatedFiles, file, location, fs);
    var (seen, value) := AddFile(st.duplicatedFiles, file, location, fs);
    if value.Some? {
      var st1 := st.(duplicatedFiles := seen, textFromFile := st.textFromFile + value.value + "\n");
      RescanRewrites(st1, file);
      if location in st.duplicatedFiles {
        assert st.textFromFile + "" + "\n" == st.textFromFile + "\n";
      }
    }
  }

  /** The re-scan goes on exactly when there is a question, which then loses the `@` of `file` in the history. */
  lemma RescanRewrites(st: State, file: string)
    ensures var (st1, text) := Rescan(st, file);
      st1 == st.(questionHistory := st1.questionHistory) &&
      (text.Some? <==> |st.questionHistory| > 0) &&
      (text.Some? ==>
         text.value == StripMentions(st.questionHistory[|st.questionHistory| - 1], ["@" + file]) &&
         st1.questionHistory == st.questionHistory[|st.questionHistory| - 1 := text.value])
  {
  }

  /**
   * The `chat` handler on an answer that goes on: the picked file joins the
   * context, the last question loses the `@` of the asked-about name, and
   * that rewritten question is what the handler scans next.
   */
  lemma AnswerScansQuestion(st: State, msg: ChatMessage, fs: Files, location: string)
    requires !st.currentlyResponding && msg.context
    requires GetLocationFromResponse(msg.text, Split(st.previousResponse, '\n')) == Some(location)
    requires (location in st.duplicatedFiles || location in fs) && |st.questionHistory| > 0
    ensures var text := StripMentions(st.questionHistory[|st.questionHistory| - 1], ["@" + msg.file]);
      var added := if location in st.duplicatedFiles then "" else msg.file + ":\n" + DecodeText(fs[location]);
      Handle(st, msg, fs) ==
        Mention(st.(published := st.published + [Chat(msg.text)],
                    duplicatedFiles := st.duplicatedFiles + {location},
                    textFromFile := st.textFromFile + added + "\n",
                    questionHistory := st.questionHistory[|st.questionHistory| - 1 := text]), text, fs)
  {
    var stc := st.(published := st.published + [Chat(msg.text)]);
    AnswerAt(stc, msg, fs, location);
  }

  /**
   * The webview's filter only lets through answers that pick a candidate:
   * a non-empty filtered answer to a question with `maxVal` candidates
   * names a line of that question.
   */
  lemma FilteredAnswerSelects(n: string, name: string, locations: seq<string>)
    requires '\n' !in name && NoNewline(locations)
    ensures var r := Filter(n, |locations|);
      r != "" ==>
        1 <= Value(r) <= |locations| &&
        GetLocationFromResponse(r, Split(Question(name, locations), '\n')) == Some(locations[Value(r) - 1])
  {
    var r := Filter(n, |locations|);
    if r != "" {
      FilterNoLeadingZero(n, |locations|);
      FilterBounded(n, |locations|);
      ValuePositive(r);
      var k := Value(r);
      AnswerRoundTrip(name, locations, k);
      ValueOfNatToString(k);
      assert ParseNumber(r) == ParseNumber(NatToString(k));
    }
  }

  /**
   * Sending, from `st` to `st1` with `prompt`: no mention of `text` is
   * ambiguous, and the mentions to fulfil are those of `Fresh`, the first
   * mention of each location not injected before, every one of which was
   * read. The dedup set gains exactly their locations; the prompt is the
   * question with the `@` of each of them removed, a blank line, the context
   * gathered so far and one block per such mention; and the call is pending.
   */
  ghost predicate Sends(st: State, st1: State, text: string, fs: Files, prompt: string)
  {
    var matches := Matches(MentionPattern, text);
    var f := Fresh(st.fileTitles, st.duplicatedFiles, matches);
    FirstAmbiguous(st.fileTitles, matches) == None && Readable(st.fileTitles, fs, f) &&
    st1.currentlyResponding &&
    st1.duplicatedFiles == st.duplicatedFiles + Locations(st.fileTitles, f) &&
    InjectedOnce(st.fileTitles, f, st.duplicatedFiles, st1.duplicatedFiles) &&
    prompt == StripMentions(text, f) + "\n\n" + st.textFromFile + Blocks(st.fileTitles, fs, f) &&
    st1.pending == Some(Request(prompt, st.llmIndex, st1.originalQuestion))
  }

  /** Sending: the handler's part before the call sends only what `Sends` says. */
  lemma MentionSent(st: State, text: string, fs: Files)
    ensures var (st1, status) := Mention(st, text, fs);
      status.Sent? ==> Sends(st, st1, text, fs, status.prompt)
  {
    var matches := Matches(MentionPattern, text);
    var r := Resolve(matches, st.fileTitles, fs, st.duplicatedFiles);
    if r.result.Some? {
      var m := r.result.value;
      MentionResolved(st, text, fs, m);
      if m.clearance {
        SendsWhenClear(st, text, fs, m);
      }
    }
  }

  lemma SendsWhenClear(st: State, text: string, fs: Files, m: Mentioned)
    requires Resolve(Matches(MentionPattern, text), st.fileTitles, fs, st.duplicatedFiles).result == Some(m)
    requires m.clearance
    ensures var (st2, status) := AfterScan(st.(duplicatedFiles := Resolve(Matches(MentionPattern, text), st.fileTitles, fs, st.duplicatedFiles).seen), text, m);
      Sends(st, st2, text, fs, status.prompt)
  {
    var matches := Matches(MentionPattern, text);
    var r := Resolve(matches, st.fileTitles, fs, st.duplicatedFiles);
    var (st2, status) := AfterScan(st.(duplicatedFiles := r.seen), text, m);
    var prefix := StripMentions(text, m.fulfilled) + "\n\n";
    assert status == Sent(prefix + (st.textFromFile + m.files));
    assert st2.currentlyResponding && st2.duplicatedFiles == r.seen;
    assert st2.pending == Some(Request(status.prompt, st.llmIndex, st2.originalQuestion));
    ResolveAmbiguity(matches, st.fileTitles, fs, st.duplicatedFiles);
    ResolveDedup(matches, st.fileTitles, fs, st.duplicatedFiles);
    ResolveFresh(matches, st.fileTitles, fs, st.duplicatedFiles);
    assert FirstAmbiguous(st.fileTitles, matches) == None;
    assert prefix + (st.textFromFile + m.files) == prefix + st.textFromFile + m.files;
  }

  /**
   * The converse of `MentionSent`: with an index that lists a location for
   * every name, a question none of whose mentions is ambiguous and whose
   * fresh mentions can all be read is sent.
   */
  lemma MentionSendsWhenReady(st: State, text: string, fs: Files)
    requires Listed(st.fileTitles)
    requires FirstAmbiguous(st.fileTitles, Matches(MentionPattern, text)) == None
    requires Readable(st.fileTitles, fs, Fresh(st.fileTitles, st.duplicatedFiles, Matches(MentionPattern, text)))
    ensures Mention(st, text, fs).1.Sent?
  {
    var matches := Matches(MentionPattern, text);
    ResolveFresh(matches, st.fileTitles, fs, st.duplicatedFiles);
    ResolveAmbiguity(matches, st.fileTitles, fs, st.duplicatedFiles);
    MentionResolved(st, text, fs, Resolve(matches, st.fileTitles, fs, st.duplicatedFiles).result.value);
  }

  /** A question typed by the user (not an answer) that is sent is also recorded in the question history. */
  lemma SentPrompt(st: State, msg: ChatMessage, fs: Files)
    requires !msg.context
    ensures var (st1, status) := Handle(st, msg, fs);
      status.Sent? ==>
        !st.currentlyResponding &&
        st1.questionHistory == st.questionHistory + [msg.text] &&
        st1.userQuestions == st.userQuestions + [msg.text] &&
        Handle(st, msg, fs) == Mention(st.(userQuestions := st.userQuestions + [msg.text],
                                           questionHistory := st.questionHistory + [msg.text],
                                           published := st.published + [Chat(msg.text)]), msg.text, fs)
  {
  }

  lemma MentionKeepsInjected(st: State, text: string, fs: Files)
    ensures st.duplicatedFiles <= Mention(st, text, fs).0.duplicatedFiles
  {
    ResolveDedup(Matches(MentionPattern, text), st.fileTitles, fs, st.duplicatedFiles);
  }

  lemma AnswerKeepsInjected(st: State, msg: ChatMessage, fs: Files)
    ensures st.duplicatedFiles <= Answer(st, msg, fs).0.duplicatedFiles
  {
  }

  /** The handler never forgets an injected location before the call ends. */
  lemma HandleKeepsInjected(st: State, msg: ChatMessage, fs: Files)
    ensures st.duplicatedFiles <= Handle(st, msg, fs).0.duplicatedFiles
  {
    if !st.currentlyResponding {
      var st0 := if msg.context then st
                 else st.(userQuestions := st.userQuestions + [msg.text], questionHistory := st.questionHistory + [msg.text]);
      var stc := st0.(published := st0.published + [Chat(msg.text)]);
      if msg.context {
        AnswerKeepsInjected(stc, msg, fs);
        var (st2, text) := Answer(stc, msg, fs);
        if text.Some? {
          MentionKeepsInjected(st2, text.value, fs);
        }
      } else {
        MentionKeepsInjected(stc, msg.text, fs);
      }
    }
  }

  /**
   * After the call the session accepts questions again, the cancel flag is
   * up, the gathered context and the dedup set are cleared, and the
   * transcript gained at most one turn.
   */
  lemma FinishResets(st: State, attempts: seq<Attempt>)
    requires st.pending.Some? && ChainArgs(st.pending.value.index, 0, attempts)
    ensures var st1 := Finish(st, attempts);
      !st1.currentlyResponding && st1.pending.None? && st1.continueResponse &&
      st1.textFromFile == "" && st1.originalQuestion == "" && st1.duplicatedFiles == {} &&
      st.questionsAndResponses <= st1.questionsAndResponses &&
      |st1.questionsAndResponses| <= |st.questionsAndResponses| + 1
  {
    var r := st.pending.value;
    RunRaisesFlag(CallOf(st), r.prompt, r.index, 0, r.originalQuestion, attempts);
    RunOnlyAppends(CallOf(st), r.prompt, r.index, 0, r.originalQuestion, attempts);
  }

  // ---- a question with one mention ----

  /** Its `@` is removed. */
  lemma SummarizeStripped()
    ensures StripMentions("Summarize @foo.ts", ["@foo.ts"]) == "Summarize foo.ts"
  {
    var s, t := "Summarize @foo.ts", "@foo.ts";
    assert OccursAt(s, t, 10);
    forall j | 0 <= j < 10
      ensures !OccursAt(s, t, j)
    {
      assert s[j] != t[0];
    }
    assert IndexOf(s, t) == Some(10);
    assert ReplaceFirst(s, t, Drop1(t)) == "Summarize foo.ts";
  }

  /** The mention names the one file of that name, which is read. */
  lemma SummarizeResolved(bytes: seq<byte>)
    ensures Resolve(["@foo.ts"], map["foo.ts" := ["/w/foo.ts"]], map["/w/foo.ts" := bytes], {}) ==
      Scan(Some(Mentioned("", true, ["@foo.ts"], Block("foo.ts", bytes), None)), {"/w/foo.ts"})
  {
    var titles, fs := map["foo.ts" := ["/w/foo.ts"]], map["/w/foo.ts" := bytes];
    var m, loc := "@foo.ts", "/w/foo.ts";
    assert Drop1(m) == "foo.ts" && titles["foo.ts"][0] == loc;
    var acc := Unresolved.(files := Unresolved.files + Block("foo.ts", fs[loc]), fulfilled := Unresolved.fulfilled + [m]);
    assert acc == Mentioned("", true, [m], Block("foo.ts", bytes), None);
    assert [m][1..] == [];
    assert ResolveFrom(Unresolved, {}, [m], titles, fs) == ResolveFrom(acc, {} + {loc}, [], titles, fs);
    assert {} + {loc} == {loc};
  }

  /**
   * A typed question whose scan is clear is sent as the question without the
   * `@` of its fulfilled mentions, a blank line, the earlier context and the
   * new files.
   */
  lemma QuestionSent(st: State, msg: ChatMessage, fs: Files, m: Mentioned)
    requires !st.currentlyResponding && !msg.context && m.clearance
    requires Resolve(Matches(MentionPattern, msg.text), st.fileTitles, fs, st.duplicatedFiles).result == Some(m)
    ensures Handle(st, msg, fs).1 == Sent(StripMentions(msg.text, m.fulfilled) + "\n\n" + st.textFromFile + m.files)
  {
    var st1 := st.(userQuestions := st.userQuestions + [msg.text], questionHistory := st.questionHistory + [msg.text],
                   published := st.published + [Chat(msg.text)]);
    assert Handle(st, msg, fs) == Mention(st1, msg.text, fs);
    MentionResolved(st1, msg.text, fs, m);
    var prefix := StripMentions(msg.text, m.fulfilled) + "\n\n";
    assert prefix + (st.textFromFile + m.files) == prefix + st.textFromFile + m.files;
  }

  /**
   * A first question that mentions a file of the workspace is sent with the
   * `@` removed and the file's text after a blank line.
   */
  lemma SummarizeSendsFile()
    ensures var titles := map["foo.ts" := ["/w/foo.ts"]];
      var st := State([], [], [], [], {}, "", "", "", "", 0, titles, false, true, [], None);
      var fs := map["/w/foo.ts" := EncodeText("export x")];
      Handle(st, ChatMessage("Summarize @foo.ts", false, ""), fs).1 ==
        Sent("Summarize foo.ts\n\nfoo.ts:\nexport x\n\n")
  {
    var text, bytes := "Summarize @foo.ts", EncodeText("export x");
    var titles := map["foo.ts" := ["/w/foo.ts"]];
    var st := State([], [], [], [], {}, "", "", "", "", 0, titles, false, true, [], None);
    var m := Mentioned("", true, ["@foo.ts"], Block("foo.ts", bytes), None);
    SummarizeMatches();
    SummarizeResolved(bytes);
    QuestionSent(st, ChatMessage(text, false, ""), map["/w/foo.ts" := bytes], m);
    SummarizeStripped();
    SummarizeBlock();
    SummarizePrompt();
  }

  /** The block of the file holding `export x`. */
  lemma SummarizeBlock()
    ensures Block("foo.ts", EncodeText("export x")) == "foo.ts:\nexport x\n\n"
  {
  }

  lemma SummarizePrompt()
    ensures "Summarize foo.ts" + "\n\n" + "" + "foo.ts:\nexport x\n\n" == "Summarize foo.ts\n\nfoo.ts:\nexport x\n\n"
  {
  }

  // ---- a question with an ambiguous mention, and its answer ----

  /** A workspace with two files named `bar.ts`, at `a` and at `b`. */
  function BarTitles(a: string, b: string): Titles
  {
    map["bar.ts" := [a, b]]
  }

  /** A fresh session over that workspace. */
  function FixStart(a: string, b: string): State
  {
    State([], [], [], [], {}, "", "", "", "", 0, BarTitles(a, b), false, true, [], None)
  }

  /** The session once `Fix @bar.ts` has been asked about. */
  function FixAsking(a: string, b: string): State
  {
    FixStart(a, b).(userQuestions := ["Fix @bar.ts"], questionHistory := ["Fix @bar.ts"],
                    originalQuestion := "Fix @bar.ts", previousResponse := Question("bar.ts", [a, b]),
                    published := [Chat("Fix @bar.ts"), Selection(Question("bar.ts", [a, b]), "bar.ts", 2)])
  }

  /** The scan of `@bar.ts` stops at the ambiguous name and asks about its two candidates. */
  lemma FixResolved(a: string, b: string, fs: Files)
    ensures Resolve(["@bar.ts"], BarTitles(a, b), fs, {}) ==
      Scan(Some(Mentioned(Question("bar.ts", [a, b]), false, [], "", Some("bar.ts"))), {})
  {
    assert Drop1("@bar.ts") == "bar.ts";
    assert |BarTitles(a, b)["bar.ts"]| == 2;
  }

  /**
   * Asking `Fix @bar.ts` posts the numbered question for `bar.ts` with a
   * maximum of 2, keeps it as the previous response, and starts no call.
   */
  lemma FixAsks(a: string, b: string, fs: Files)
    ensures Handle(FixStart(a, b), ChatMessage("Fix @bar.ts", false, ""), fs) == (FixAsking(a, b), Asked)
  {
    var text, st := "Fix @bar.ts", FixStart(a, b);
    var stc := st.(userQuestions := st.userQuestions + [text], questionHistory := st.questionHistory + [text],
                   published := st.published + [Chat(text)]);
    assert Handle(st, ChatMessage(text, false, ""), fs) == Mention(stc, text, fs);
    assert stc.userQuestions == [text] && stc.published == [Chat(text)];
    FixMatches();
    FixResolved(a, b, fs);
    var m := Mentioned(Question("bar.ts", [a, b]), false, [], "", Some("bar.ts"));
    MentionResolved(stc, text, fs, m);
    var st1 := stc.(originalQuestion := text, textFromFile := "");
    assert stc.originalQuestion == "" && stc.textFromFile + m.files == "";
    assert AfterScan(stc, text, m) == Conclude(st1, m, StripMentions(text, []));
    assert |st1.fileTitles["bar.ts"]| == 2;
    var e := Selection(m.response, "bar.ts", 2);
    assert st1.published + [e] == [Chat(text), e];
    assert Conclude(st1, m, StripMentions(text, [])) ==
      (st1.(previousResponse := m.response, published := [Chat(text), e]), Asked);
  }

  /** `Fix @bar.ts` loses the `@` of `bar.ts`. */
  lemma FixStripped()
    ensures StripMentions("Fix @bar.ts", ["@" + "bar.ts"]) == "Fix bar.ts"
  {
    var s, t := "Fix @bar.ts", "@bar.ts";
    assert "@" + "bar.ts" == t;
    assert OccursAt(s, t, 4);
    forall j | 0 <= j < 4
      ensures !OccursAt(s, t, j)
    {
      assert s[j] != t[0];
    }
    assert IndexOf(s, t) == Some(4);
    assert ReplaceFirst(s, t, Drop1(t)) == "Fix bar.ts";
  }

  /** The answer `2` names the second candidate. */
  lemma FixSecond(a: string, b: string)
    requires '\n' !in a && '\n' !in b
    ensures GetLocationFromResponse("2", Split(Question("bar.ts", [a, b]), '\n')) == Some(b)
  {
    assert NatToString(2) == "2";
    AnswerRoundTrip("bar.ts", [a, b], 2);
  }

  /** The session once the answer `2` has been taken in, before the re-scan. */
  function FixAnswering(a: string, b: string, bytes: seq<byte>): State
  {
    FixAsking(a, b).(published := FixAsking(a, b).published + [Chat("2")], duplicatedFiles := {b},
                     textFromFile := "" + ("bar.ts" + ":\n" + DecodeText(bytes)) + "\n",
                     questionHistory := ["Fix bar.ts"])
  }

  /** The state the answer `2` leads to, written as the answer branch builds it. */
  lemma FixAnsweringState(a: string, b: string, bytes: seq<byte>)
    ensures var st := FixAsking(a, b);
      FixAnswering(a, b, bytes) ==
        st.(published := st.published + [Chat("2")],
            duplicatedFiles := st.duplicatedFiles + {b},
            textFromFile := st.textFromFile + ("bar.ts" + ":\n" + DecodeText(map[b := bytes][b])) + "\n",
            questionHistory := st.questionHistory[0 := "Fix bar.ts"])
  {
    var st := FixAsking(a, b);
    assert st.questionHistory[0 := "Fix bar.ts"] == ["Fix bar.ts"];
    assert st.duplicatedFiles + {b} == {b} && st.textFromFile == "";
  }

  /** Answering `2` injects the file at `b` and scans the question without its `@`. */
  lemma FixAnswerScans(a: string, b: string, bytes: seq<byte>)
    requires '\n' !in a && '\n' !in b
    ensures var fs := map[b := bytes];
      Handle(FixAsking(a, b), ChatMessage("2", true, "bar.ts"), fs) == Mention(FixAnswering(a, b, bytes), "Fix bar.ts", fs)
  {
    var st, fs := FixAsking(a, b), map[b := bytes];
    FixSecond(a, b);
    assert !st.currentlyResponding && b in fs && st.questionHistory == ["Fix @bar.ts"] && b !in st.duplicatedFiles;
    AnswerScansQuestion(st, ChatMessage("2", true, "bar.ts"), fs, b);
    FixStripped();
    FixAnsweringState(a, b, bytes);
  }

  /** A question without `@` is sent as it is, followed by the context gathered so far. */
  lemma {:induction false} PlainSent(st: State, text: string, fs: Files)
    requires MentionPattern.lead !in text
    ensures Mention(st, text, fs).1 == Sent(text + "\n\n" + st.textFromFile)
  {
    NoLeadNoMatches(MentionPattern, text);
    ResolveNothing(st.fileTitles, fs, st.duplicatedFiles);
    MentionResolved(st, text, fs, Unresolved);
    assert st.textFromFile + "" == st.textFromFile;
  }

  /** Moves the parentheses of a prompt built from a question and a block. */
  lemma Regroup(x: string, y: string, d: string, z: string)
    ensures x + (y + d + z) == x + y + d + z
  {
  }

  /** The context after the answer is the block of the chosen file. */
  lemma FixContext(a: string, b: string, bytes: seq<byte>)
    ensures FixAnswering(a, b, bytes).textFromFile == "bar.ts:\n" + DecodeText(bytes) + "\n"
  {
    assert "" + ("bar.ts" + ":\n" + DecodeText(bytes)) == "bar.ts:\n" + DecodeText(bytes);
  }

  /** The rewritten question has no mention left, so it is sent with the injected file as context. */
  lemma FixRescanSent(a: string, b: string, bytes: seq<byte>)
    ensures Mention(FixAnswering(a, b, bytes), "Fix bar.ts", map[b := bytes]).1 ==
      Sent("Fix bar.ts" + "\n\n" + ("bar.ts:\n" + DecodeText(bytes) + "\n"))
  {
    PlainSent(FixAnswering(a, b, bytes), "Fix bar.ts", map[b := bytes]);
    FixContext(a, b, bytes);
  }

  /** The prompt of the scenario, written out. */
  lemma FixPrompt(d: string)
    ensures "Fix bar.ts" + "\n\n" + ("bar.ts:\n" + d + "\n") == "Fix bar.ts\n\nbar.ts:\n" + d + "\n"
  {
    Regroup("Fix bar.ts" + "\n\n", "bar.ts:\n", d, "\n");
    assert "Fix bar.ts" + "\n\n" == "Fix bar.ts\n\n";
    assert "Fix bar.ts\n\n" + "bar.ts:\n" == "Fix bar.ts\n\nbar.ts:\n";
  }

  /**
   * The disambiguation round trip: `Fix @bar.ts` is asked about, with the
   * numbered question for the two candidates, and the answer `2` sends the
   * question without its `@` and with the second file as context.
   */
  lemma FixScenario(a: string, b: string, bytes: seq<byte>)
    requires '\n' !in a && '\n' !in b
    ensures var fs := map[b := bytes];
      var (st1, status) := Handle(FixStart(a, b), ChatMessage("Fix @bar.ts", false, ""), fs);
      status == Asked &&
      st1.published[|st1.published| - 1] == Selection(Question("bar.ts", [a, b]), "bar.ts", 2) &&
      Handle(st1, ChatMessage("2", true, "bar.ts"), fs).1 == Sent("Fix bar.ts\n\nbar.ts:\n" + DecodeText(bytes) + "\n")
  {
    FixAsks(a, b, map[b := bytes]);
    FixAnswerScans(a, b, bytes);
    FixRescanSent(a, b, bytes);
    FixPrompt(DecodeText(bytes));
  }

  // ---- the session object ----

  /** `replaceFileMentions(question, files)`. */
  method ReplaceFileMentions(question: string, files: seq<string>) returns (r: string)
    ensures r == StripMentions(question, files)
  {
    r := question;
    for i := 0 to |files|
      invariant StripMentions(question, files) == StripMentions(r, files[i..])
    {
      assert files[i..][1..] == files[i + 1..];
      r := ReplaceFirst(r, files[i], Drop1(files[i]));
    }
  }

  class ChatSession {
    var questionsAndResponses: seq<Turn>
    var userQuestions: seq<string>
    var questionHistory: seq<string>
    var responseHistory: seq<string>
    var duplicatedFiles: set<string>
    var originalQuestion: string
    var previousResponse: string
    var currentResponse: string
    var textFromFile: string
    var llmIndex: nat
    var fileTitles: Titles
    var currentlyResponding: bool
    var continueResponse: bool
    var published: seq<Event>
    var pending: Option<Request>

    /** The session is responding exactly while a call is pending, and every model index is in range. */
    predicate Valid()
      reads this
    {
      llmIndex < |Llms| &&
      (currentlyResponding <==> pending.Some?) &&
      (pending.Some? ==> pending.value.index < |Llms|)
    }

    function Fields(): State
      reads this
    {
      State(questionsAndResponses, userQuestions, questionHistory, responseHistory, duplicatedFiles,
            originalQuestion, previousResponse, currentResponse, textFromFile, llmIndex, fileTitles,
            currentlyResponding, continueResponse, published, pending)
    }

    function Snapshot(): CallState
      reads this
    {
      CallState(continueResponse, currentResponse, questionHistory, responseHistory, questionsAndResponses, published)
    }

    /** The extension's initial state, with the index built from the workspace's files. */
    constructor(allFiles: seq<string>)
      ensures Valid()
      ensures Fields() == State([], [], [], [], {}, "", "", "", "", 0, Index(allFiles), false, true, [], None)
    {
      var titles := GetFileNames(allFiles);
      questionsAndResponses := [];
      userQuestions := [];
      questionHistory := [];
      responseHistory := [];
      duplicatedFiles := {};
      originalQuestion := "";
      previousResponse := "";
      currentResponse := "";
      textFromFile := "";
      llmIndex := 0;
      currentlyResponding := false;
      continueResponse := true;
      published := [];
      pending := None;
      fileTitles := titles;
    }

    /** A file was created or deleted: the index is rebuilt from the new file list. */
    method RefreshFiles(allFiles: seq<string>)
      modifies this`fileTitles
      ensures fileTitles == Index(allFiles)
    {
      fileTitles := GetFileNames(allFiles);
    }

    method AddFileToPrompt(file: string, location: string, fs: Files) returns (text: Option<string>)
      modifies this`duplicatedFiles
      ensures (duplicatedFiles, text) == AddFile(old(duplicatedFiles), file, location, fs)
    {
      if location in duplicatedFiles {
        return Some("");
      }
      duplicatedFiles := duplicatedFiles + {location};
      if location !in fs {
        return None;
      }
      text := Some(file + ":\n" + DecodeText(fs[location]));
    }

    /** `mentionedFiles(matches, fileTitles)`; `None` where a read throws. */
    method MentionedFiles(matches: seq<string>, fs: Files) returns (m: Option<Mentioned>)
      modifies this`duplicatedFiles
      ensures Resolve(matches, fileTitles, fs, old(duplicatedFiles)) == Scan(m, duplicatedFiles)
    {
      var files := "";
      var response := "";
      var clearance := true;
      var lastFile: Option<string> := None;
      var fulfilled: seq<string> := [];
      var i := 0;
      while i < |matches|
        invariant i <= |matches|
        invariant Resolve(matches, fileTitles, fs, old(duplicatedFiles)) ==
          ResolveFrom(Mentioned(response, clearance, fulfilled, files, lastFile), duplicatedFiles, matches[i..], fileTitles, fs)
        invariant clearance && response == "" && lastFile == None
      {
        var token := matches[i];
        ghost var acc := Mentioned(response, clearance, fulfilled, files, lastFile);
        ghost var rest := matches[i..];
        assert rest[0] == token && rest[1..] == matches[i + 1..];
        i := i + 1;
        var fileName := Drop1(token);
        if fileName in fileTitles {
          var locations := fileTitles[fileName];
          if |locations| > 1 {
            lastFile := Some(fileName);
            response := Header(fileName) + "\n";
            clearance := false;
            for j := 0 to |locations|
              invariant response + Numbered(locations[j..], j + 1) == Question(fileName, locations)
            {
              assert locations[j..][1..] == locations[j + 1..];
              response := response + Line(j + 1, locations[j]) + "\n";
            }
            assert locations[|locations|..] == [];
            assert response == Question(fileName, locations);
            assert rest != [] && Drop1(rest[0]) == fileName;
            assert ResolveFrom(acc, duplicatedFiles, rest, fileTitles, fs) ==
              Scan(Some(Mentioned(response, clearance, fulfilled, files, lastFile)), duplicatedFiles);
          } else {
            if |locations| == 0 {
              return None;
            }
            var loc := locations[0];
            if loc in duplicatedFiles {
              continue;
            }
            if loc !in fs {
              return None;
            }
            files := files + Block(fileName, fs[loc]);
            fulfilled := fulfilled + [token];
            duplicatedFiles := duplicatedFiles + {loc};
          }
          if !clearance {
            break;
          }
        }
      }
      if clearance {
        assert matches[i..] == [];
      }
      m := Some(Mentioned(response, clearance, fulfilled, files, lastFile));
    }

    /**
     * The `for await` loop over one attempt's stream and the empty-answer
     * check after it. The user's stop, when it comes during the attempt,
     * lowers the flag just before chunk `a.stopAt` is looked at.
     */
    method ConsumeStream(a: Attempt) returns (raised: Option<string>)
      modifies this`currentResponse, this`continueResponse, this`published
      ensures currentResponse == Streamed(a, old(continueResponse))
      ensures continueResponse == FlagAfter(a, old(continueResponse))
      ensures published == old(published) + Publications(a.deltas[..Consumed(a, old(continueResponse))])
      ensures raised == Raised(a, old(continueResponse))
    {
      ghost var live := continueResponse;
      currentResponse := "";
      var i := 0;
      while i < |a.deltas|
        invariant i <= |a.deltas|
        invariant continueResponse == live
        invariant currentResponse == Concat(a.deltas[..i])
        invariant published == old(published) + Publications(a.deltas[..i])
        invariant live && StopsDuring(a) ==> i <= a.stopAt.value
        invariant !live ==> i == 0
      {
        if a.stopAt == Some(i) {
          continueResponse := false;
        }
        if !continueResponse {
          break;
        }
        var val := a.deltas[i];
        assert a.deltas[..i + 1][..i] == a.deltas[..i];
        currentResponse := currentResponse + val;
        if |val| > 0 {
          published := published + [Response(currentResponse)];
        }
        i := i + 1;
      }
      if i == |a.deltas| && a.stopAt == Some(i) {
        continueResponse := false;
      }
      assert i == Consumed(a, live);
      if i == |a.deltas| && a.ending.Broke? {
        raised := Some(a.ending.message);
      } else if |currentResponse| == 0 && continueResponse {
        raised := Some(NoResponse);
      } else {
        raised := None;
      }
    }

    /** `sendChat(chat, index, count, originalQuestion)` against the attempts it will meet. */
    method SendChat(chat: string, index: nat, count: nat, originalQuestion: string, attempts: seq<Attempt>)
      requires ChainArgs(index, count, attempts)
      modifies this`continueResponse, this`currentResponse, this`questionHistory, this`responseHistory,
               this`questionsAndResponses, this`published
      ensures Snapshot() == Run(old(Snapshot()), chat, index, count, originalQuestion, attempts).state
      decreases |Llms| - count
    {
      var a := attempts[0];
      var raised := ConsumeStream(a);
      if raised.None? {
        continueResponse := true;
        var totalResponse := Footed(currentResponse, index, a.elapsed);
        published := published + [Response(totalResponse)];
        questionHistory := questionHistory + [chat];
        responseHistory := responseHistory + [totalResponse];
        questionsAndResponses := questionsAndResponses + [Turn(originalQuestion, totalResponse)];
      } else if !continueResponse {
        published := published + [Response(RunTime(index, a.elapsed))];
        continueResponse := true;
      } else if count == |Llms| {
        if |responseHistory| < |questionHistory| {
          responseHistory := responseHistory + [raised.value];
        }
        published := published + [Error(raised.value, chat)];
      } else {
        SendChat(chat, (index + 1) % |Llms|, count + 1, originalQuestion, attempts[1..]);
      }
    }

    /** The `context` branch of the `chat` handler; `None` where it throws. */
    method AnswerQuestion(msg: ChatMessage, fs: Files) returns (text: Option<string>)
      modifies this`duplicatedFiles, this`textFromFile, this`questionHistory
      ensures (Fields(), text) == Answer(old(Fields()), msg, fs)
    {
      var locations := Split(previousResponse, '\n');
      var file := GetLocationFromResponse(msg.text, locations);
      if file.None? {
        return None;
      }
      text := PickLocation(msg.file, file.value, fs);
    }

    /** The `context` branch once the answer has named `location`. */
    method PickLocation(file: string, location: string, fs: Files) returns (text: Option<string>)
      modifies this`duplicatedFiles, this`textFromFile, this`questionHistory
      ensures (Fields(), text) == Pick(old(Fields()), file, location, fs)
    {
      ghost var st := Fields();
      var fileValue := AddFileToPrompt(file, location, fs);
      ghost var st1 := st.(duplicatedFiles := duplicatedFiles);
      assert Fields() == st1;
      if fileValue.None? {
        return None;
      }
      textFromFile := textFromFile + fileValue.value + "\n";
      ghost var st2 := st1.(textFromFile := textFromFile);
      assert Fields() == st2;
      text := RescanQuestion(file);
    }

    /** The question the answer belongs to loses the `@` of `file`, and is what gets scanned next. */
    method RescanQuestion(file: string) returns (text: Option<string>)
      modifies this`questionHistory
      ensures (Fields(), text) == Rescan(old(Fields()), file)
    {
      if |questionHistory| == 0 {
        return None;
      }
      var question := ReplaceFileMentions(questionHistory[|questionHistory| - 1], ["@" + file]);
      questionHistory := questionHistory[|questionHistory| - 1 := question];
      text := Some(question);
    }

    /** The rest of the `chat` handler up to its model call: resolve the mentions of `text`, then ask or send. */
    method MentionStep(text: string, fs: Files) returns (status: Status)
      requires Valid() && !currentlyResponding
      modifies this`duplicatedFiles, this`originalQuestion, this`textFromFile, this`previousResponse,
               this`published, this`currentlyResponding, this`pending
      ensures Valid()
      ensures (Fields(), status) == Mention(old(Fields()), text, fs)
    {
      ghost var st := Fields();
      var matches := Matches(MentionPattern, text);
      ghost var scan := Resolve(matches, fileTitles, fs, duplicatedFiles);
      var mentioned := MentionedFiles(matches, fs);
      if mentioned.None? {
        return Aborted;
      }
      var m := mentioned.value;
      assert scan.result == Some(m) && scan.seen == duplicatedFiles;
      MentionResolved(st, text, fs, m);
      status := Proceed(text, m);
    }

    /** The handler once the mentions of `text` resolved to `m`, up to its model call. */
    method Proceed(text: string, m: Mentioned) returns (status: Status)
      requires Valid() && !currentlyResponding
      requires !m.clearance ==> m.lastFile.Some? && m.lastFile.value in fileTitles
      modifies this`originalQuestion, this`textFromFile, this`previousResponse,
               this`published, this`currentlyResponding, this`pending
      ensures Valid()
      ensures (Fields(), status) == AfterScan(old(Fields()), text, m)
    {
      ghost var st := Fields();
      if originalQuestion == "" {
        originalQuestion := text;
      }
      var question := ReplaceFileMentions(text, m.fulfilled);
      textFromFile := textFromFile + m.files;
      assert Fields() == st.(originalQuestion := if st.originalQuestion == "" then text else st.originalQuestion,
                             textFromFile := st.textFromFile + m.files);
      status := AskOrSend(m, question);
    }

    /** The end of the `chat` handler's part before the call: ask about the ambiguous name, or send. */
    method AskOrSend(m: Mentioned, question: string) returns (status: Status)
      requires Valid() && !currentlyResponding
      requires !m.clearance ==> m.lastFile.Some? && m.lastFile.value in fileTitles
      modifies this`previousResponse, this`published, this`currentlyResponding, this`pending
      ensures Valid()
      ensures (Fields(), status) == Conclude(old(Fields()), m, question)
    {
      if !m.clearance {
        previousResponse := m.response;
        published := published + [Selection(m.response, m.lastFile.value, |fileTitles[m.lastFile.value]|)];
        return Asked;
      }
      var prompt := question + "\n\n" + textFromFile;
      published := published + [Loading, Content("")];
      currentlyResponding := true;
      pending := Some(Request(prompt, llmIndex, originalQuestion));
      status := Sent(prompt);
    }

    /** The `chat` handler up to its model call. */
    method Submit(msg: ChatMessage, fs: Files) returns (status: Status)
      requires Valid()
      modifies this
      ensures Valid()
      ensures (Fields(), status) == Handle(old(Fields()), msg, fs)
    {
      if currentlyResponding {
        return Ignored;
      }
      var userQuestion := msg.text;
      if !msg.context {
        userQuestions := userQuestions + [userQuestion];
        questionHistory := questionHistory + [userQuestion];
      }
      published := published + [Chat(userQuestion)];
      ghost var st := old(Fields());
      ghost var st0 := if msg.context then st
                       else st.(userQuestions := st.userQuestions + [msg.text], questionHistory := st.questionHistory + [msg.text]);
      assert Fields() == st0.(published := st0.published + [Chat(msg.text)]);
      if msg.context {
        var text := AnswerQuestion(msg, fs);
        if text.None? {
          return Aborted;
        }
        status := MentionStep(text.value, fs);
      } else {
        status := MentionStep(msg.text, fs);
      }
    }

    /** The model call of the `chat` handler and the resets after it. */
    method Complete(attempts: seq<Attempt>)
      requires Valid() && currentlyResponding && |attempts| > |Llms|
      modifies this
      ensures Valid()
      ensures Fields() == Finish(old(Fields()), attempts)
    {
      ghost var st := Fields();
      var r := pending.value;
      SendChat(r.prompt, r.index, 0, r.originalQuestion, attempts);
      ghost var c := Snapshot();
      textFromFile := "";
      originalQuestion := "";
      duplicatedFiles := {};
      currentlyResponding := false;
      pending := None;
      assert Fields() == Reset(st, c);
    }

    /** `stopResponse`: the running stream stops at its next chunk. */
    method Stop()
      modifies this`continueResponse
      ensures !continueResponse
    {
      continueResponse := false;
    }

    /** `selectLLM`: later calls start from model `index`. */
    method SelectModel(index: nat)
      requires Valid() && index < |Llms|
      modifies this`llmIndex
      ensures Valid() && llmIndex == index
    {
      llmIndex := index;
    }

    /** `remove`: the gathered file context is dropped. */
    method RemoveContext()
      modifies this`textFromFile
      ensures textFromFile == ""
    {
      textFromFile := "";
    }

    /** `clearHistory`: the webview learns whether a call runs, and the transcript is emptied. */
    method ClearHistory()
      modifies this`published, this`questionsAndResponses
      ensures published == old(published) + [History(currentlyResponding)]
      ensures questionsAndResponses == []
    {
      published := published + [History(currentlyResponding)];
      questionsAndResponses := [];
    }
  }
}
