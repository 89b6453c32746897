# vscode-ai-chat core, modelled in Dafny

This project models the core of the vscode-ai-chat VS Code extension. The
extension is a chat panel that sends the user's question to a ranked list of
free OpenRouter models. When a model fails, the question falls back to the next
model. A question can mention workspace files as `@name.ext`, and the text of
each mentioned file is injected into the prompt once. A name that matches
several files makes the extension ask which one is meant. The webview then lets
through only a valid candidate number.

Modules, one concept each:

- `Text` (`text.dfy`): the JavaScript string operations the core relies on.
  - `indexOf` and `replace` with a string pattern (first occurrence only).
  - `split` on one character.
  - `Number`, restricted to digit strings.
  - Decimal rendering of a count.
- `Tokens` (`tokens.dfy`): the three regular expressions.
  - The file-title search `\\[[\[\]a-zA-Z]+\.[a-zA-Z]+`.
  - The mention search `\B@[\[\]a-zA-Z]+\.[a-zA-Z]+` with the `g` flag.
  - The webview's highlight search `@[a-zA-Z]+\.[a-zA-Z]+`.
  - Each match is leftmost-longest, as a backtracking engine finds it for these patterns.
  - `Highlight` wraps each match in `<code>…</code>`.
- `FileIndex` (`file_index.dfy`): `getFileNames`, the index from file name to the paths that carry it.
- `FileText` (`file_text.dfy`): how the bytes of a file read from disk become prompt text.
- `AnswerFilter` (`answer_filter.dfy`): the webview's `validateInput` filter on the answer to a "which file" question.
- `Mentions` (`mentions.dfy`): the parts of the chat handler that deal with file mentions.
  - `mentionedFiles`: resolve the mentions against the index, deduplicated by location.
  - The numbered question for an ambiguous name.
  - `getLocationFromResponse`.
  - `replaceFileMentions`.
- `Streaming` (`streaming.dfy`): `sendChat`, the streaming call with its fallback chain over the six models and the cooperative stop flag `continueResponse`.
- `Session` (`session.dfy`): the extension's state and its message handler.
  - The handler is given as specification functions (`Handle`, `Answer`, `Mention`, `Finish`).
  - `ChatSession` is a class whose methods update the same fields in place.
  - Each method is proved equal to its specification function.
  - The `chat` message is split into two methods at its `await sendChat`:
    - `Submit` runs everything up to the model call.
    - `Complete` runs the call and the resets after it.

The network is a parameter. Each model attempt is an `Attempt`:

- the deltas its stream yields;
- whether it finishes or throws;
- where a stop request from the user arrives;
- the elapsed-seconds string.

File reads are also a parameter: `fs` maps a location to its bytes, and a location missing from `fs` is a read that throws. Everything posted to the webview is appended to `published`.

## Model

| member | source | states |
|---|---|---|
| Text.IndexFrom | extension.js:163-165 | the index found is the first occurrence of the pattern at or after the start; none means there is no occurrence |
| Text.ReplaceFirst | extension.js:164 | `replace` with a string pattern: only the first occurrence is replaced, and text without it is unchanged; see `Mentions.StripFirst` |
| Text.Split | extension.js:446 | `split` yields at least one part, and no part contains the separator |
| Text.SplitCons | extension.js:446 | splitting `a + sep + b` with no separator in `a` gives `a` followed by the parts of `b` |
| Text.ValueOfNatToString | extension.js:232 | the decimal text of `n` reads back as `n` |
| Text.ParseNumber | extension.js:170 | `Number(response)` yields a value exactly for digit strings (the empty string reads as 0) |
| Tokens.NameRunEnd | extension.js:184 | the name run after `@` is maximal: it stops at the first character outside the class |
| Tokens.MatchEndIsLongest | extension.js:184 | `MatchEnd` gives a match at `i` that is the longest one there, and gives none exactly when no match starts at `i` |
| Tokens.FirstMatch | extension.js:442-443 | the match found from `i` is the leftmost: no match starts between `i` and it |
| Tokens.SpansAreMatches | extension.js:442-443 | every match of a global search is a real longest match, and the matches are in order and do not overlap |
| Tokens.NoLeadNoMatches | extension.js:442-443 | text without `@` has no mentions (`match` returns null, modelled as no matches) |
| Tokens.MatchEnd | extension.js:184 | a match found at `i` is at least four characters long and ends within the text |
| Tokens.Matches | extension.js:442-443 | `text.match(regEx)`: the text of every span of a global search, in order; see `SpansAreMatches` (every span is a real match) and `SpansComplete` (every match is covered by a span) |
| Tokens.SpansComplete | extension.js:442-443 | the global search misses nothing: every position where a match starts lies inside one of the spans it returns |
| Tokens.Highlight | extension.js:183-188 | `text.replace(regEx, …)`: each match wrapped in `<code>` and `</code>`, everything else copied; see `HighlightFromFirstMatch`, `HighlightRoundTrip` and `HighlightNoMatch` |
| Tokens.HighlightFromFirstMatch | extension.js:183-188 | highlighting from `i` copies the text up to the leftmost match that `FirstMatch` finds, wraps that match in `<code>` and `</code>`, and goes on after it; with no match the rest is copied unchanged |
| Tokens.HighlightRoundTrip | webview.js:106-111 | removing the `<code>` tags from the highlighted text gives back the original text, for any text that contains neither tag and any lead character other than `<` (so for the webview's `HighlightPattern` of webview.js:107 and the mention pattern); a lone `<` as in `List<T>` is allowed |
| Tokens.HighlightAfterWord | webview.js:107 | the webview's pattern has no `\B`, so it finds `@foo.ts` in `x@foo.ts` |
| Tokens.HighlightMarksToken | webview.js:106-111 | the webview turns `x@foo.ts` into `x<code>@foo.ts</code>` |
| Tokens.MentionNeedsBoundary | extension.js:442 | the mention pattern's `\B` finds nothing in `x@foo.ts` |
| Tokens.SummarizeMatches | extension.js:442-443 | `Summarize @foo.ts` holds the single mention `@foo.ts` |
| Tokens.SummarizeSpans | extension.js:442-443 | the only span of `Summarize @foo.ts` runs from its `@` to its end |
| Tokens.SummarizeToken | extension.js:442 | no match starts before the `@` of `Summarize @foo.ts`, and the one at the `@` ends at the end of the text |
| Tokens.FixMatches | extension.js:442-443 | `Fix @bar.ts` holds the single mention `@bar.ts` |
| Tokens.FixSpans | extension.js:442-443 | the only span of `Fix @bar.ts` runs from its `@` to its end |
| Tokens.FixToken | extension.js:442 | no match starts before the `@` of `Fix @bar.ts`, and the one at the `@` ends at the end of the text |
| Tokens.HighlightNoMatch | extension.js:183-188 | text with no mention is left unchanged by highlighting |
| FileIndex.Title | extension.js:195-200 | the title of a path: its first `\name.ext` match without the backslash, none when there is no match; see `TitleNone` and `TitleIsFirstMatch` |
| FileIndex.Index | extension.js:190-207 | the index the loop builds, one path at a time in enumeration order; see `IndexBuckets` |
| FileIndex.Normalise | extension.js:195-196 | the path loses its first character, and every `/` becomes `\` |
| FileIndex.TitleNone | extension.js:197-198 | a file is skipped exactly when its normalised path has no title match |
| FileIndex.TitleIsFirstMatch | extension.js:192-201 | the title is the leftmost and longest match, without its leading `\` |
| FileIndex.Bucket | extension.js:200-202 | every path in a name's bucket is one of the files, and its title is that name |
| FileIndex.IndexBuckets | extension.js:190-207 | a name is in the index exactly when some file has that title; its entry lists those files in order |
| FileIndex.IndexOfNothing | extension.js:190-207 | an empty workspace gives the empty index |
| FileIndex.GetFileNames | extension.js:190-207 | the loop builds exactly `Index(allFiles)`; each entry is its bucket and is non-empty |
| FileText.DecodeText | extension.js:209-213 | the text has one character per byte, with the same code |
| FileText.DecodeEncodedText | extension.js:209-213 | decoding the bytes of a one-byte-per-character text gives the text back |
| FileText.JoinedBytes | extension.js:179-180 | a `Uint8Array` joined into a string has only digits and commas |
| FileText.JoinedBytesIsNotText | extension.js:179-180 | the file `hi` would be injected as `104,105` |
| FileText.JoinedBytesLosesLetters | extension.js:237-239 | any file holding a letter is injected as something other than its text |
| AnswerFilter.Filter | webview.js:65-82 | the kept text is all digits |
| AnswerFilter.ValidateInput | webview.js:65-82 | the loop over the `[0-9]` matches returns exactly `Filter(n, maximumVal)` |
| AnswerFilter.FilterSubsequence | webview.js:65-82 | what is kept is a subsequence of the digits of the input, in input order |
| AnswerFilter.FilterNoLeadingZero | webview.js:71-72 | the kept text never starts with `0` |
| AnswerFilter.FilterBounded | webview.js:74-77 | the kept text is empty or a number at most `maximumVal` |
| AnswerFilter.FilterZero | webview.js:154 | with `maximumVal` 0 (no selection pending) nothing gets through |
| AnswerFilter.FilterStep | webview.js:73-77 | a digit after the kept prefix is taken exactly when the number stays within `maximumVal`, and dropped exactly when it would exceed it |
| AnswerFilter.FilterIdempotent | webview.js:84-86 | re-filtering an already filtered field changes nothing |
| Mentions.Lines | extension.js:231-233 | the numbered lines of the question are `(k) location`, one per candidate, in order |
| Mentions.NumberedLines | extension.js:231-233 | splitting the numbered part on newlines gives its lines and a final empty part |
| Mentions.QuestionLines | extension.js:229-233 | the question splits into the header, then line `k` naming candidate `k`, then an empty part |
| Mentions.GetLocationFromResponse | extension.js:169-174 | a location comes back exactly when the answer is a number that indexes a line; it is the line's text after the first space; otherwise the handler throws |
| Mentions.AnswerRoundTrip | extension.js:169-174 | answering `k` to the numbered question for `name` selects candidate `k` |
| Mentions.Known | extension.js:226 | every mention kept names a file of the index |
| Mentions.ResolveIgnoresUnknown | extension.js:224-246 | mentions of names outside the index do not affect the scan |
| Mentions.InjectOne | extension.js:234-242 | injecting one more unseen single-candidate file keeps the dedup facts and adds its block |
| Mentions.ResolveDedup | extension.js:234-242 | the dedup set only grows and records every location injected; no location is injected twice or when it was already in the set; the injected text is one block per fulfilled mention |
| Mentions.FirstAmbiguous | extension.js:227-233 | reference definition: the index of the first mention whose name has several candidates |
| Mentions.ResolveAmbiguity | extension.js:227-244 | the scan is clear exactly when no mention is ambiguous; otherwise it stops at the first ambiguous one, whose name and numbered question it reports |
| Mentions.ResolveNothing | extension.js:222 | no mentions resolve to a clear, empty result with the dedup set unchanged |
| Mentions.Question | extension.js:229-233 | the `Which … are you referring to` header and one numbered line per candidate; see `QuestionLines` |
| Mentions.LineAfterSpace | extension.js:172 | the text after the first space of the numbered line `(k) location` is the location |
| Mentions.Block | extension.js:239 | a file's block: its name, a colon and newline, its text and a blank line |
| Mentions.ResolveFrom | extension.js:224-246 | the `mentionedFiles` loop from a given state over the remaining mentions; see `ResolveFromFresh` and `ResolveFromReads` |
| Mentions.Resolve | extension.js:215-249 | `mentionedFiles` against the dedup set; see `ResolveFresh`, `ResolveDedup` and `ResolveAmbiguity` |
| Mentions.Fresh | extension.js:224-246 | reference definition of the fulfilled mentions: up to the first ambiguous mention, each mention whose name has one candidate whose location was not injected before or earlier in the scan; each is single-candidate |
| Mentions.ResolveFromFresh | extension.js:224-246 | from any state, a scan that succeeds appends exactly `Fresh` to the fulfilled list and adds exactly their locations to the dedup set |
| Mentions.ResolveFromReads | extension.js:234-242 | from any state, a scan succeeds only when every fresh mention's file is readable, and does succeed when they are and every name of the index has a candidate |
| Mentions.ResolveFresh | extension.js:215-249 | the fulfilled mentions are exactly `Fresh`, the dedup set gains exactly their locations, the injected text is their blocks, and the scan fails exactly when one of their files cannot be read (for an index that lists a candidate for every name) |
| Mentions.IndexListed | extension.js:190-207 | every name in the index `getFileNames` builds has at least one location |
| Mentions.MentionedTwice | extension.js:234-242 | a file mentioned twice in one question is injected once, and only its first mention is fulfilled |
| Mentions.StripMentions | extension.js:162-167 | `replaceFileMentions`: each token in turn loses the `@` of its first occurrence; see `StripFirst` |
| Mentions.StripFirst | extension.js:162-167 | each stripped token loses only the `@` at its first occurrence; text without the token is unchanged |
| Streaming.AfterStream | extension.js:93-101 | the call state after the stream loop: the streamed text, the flag and the updates posted |
| Streaming.Raised | extension.js:96-102 | the error an attempt raises: its stream's failure once every chunk was read, or the empty-response error when nothing was streamed and the flag is still up |
| Streaming.Settle | extension.js:102-153 | the end of an attempt that does not retry: the answer with its footer is recorded; a cancelled attempt posts its run time and raises the flag (the corrected cancel branch, see Findings); an exhausted chain posts the error; see `Answered`, `Exhaustion` and `RunRaisesFlag` |
| Streaming.Run | extension.js:76-160 | `sendChat` as a function of the attempts it meets, retrying on the next model; see `RunTried`, `TriedModels`, `RunOnlyAppends` and `Answered` |
| Streaming.TruncateSeconds | extension.js:105-106 | the truncated elapsed time is a prefix of the original |
| Streaming.TruncateAtFirstDot | extension.js:105-106 | with a dot, the time keeps four digits after the first dot |
| Streaming.TruncateWithoutDot | extension.js:105-106 | without a dot, `indexOf` gives -1 and the time keeps its first four characters |
| Streaming.Consumed | extension.js:93-100 | the loop stops within the stream |
| Streaming.Next | extension.js:155-156 | the next model index is `index + 1` modulo the number of models |
| Streaming.RunTried | extension.js:141-158 | the models a call tries are given by the reference definition `Tried` |
| Streaming.TriedModels | extension.js:141-158 | a call tries at least one model and at most `llms.length + 1 - count`; they are consecutive modulo the list, starting at `index` |
| Streaming.TriedRing | extension.js:154-158 | `Tried` walks the ring of models from `index` |
| Streaming.Exhaustion | extension.js:141-153 | when every attempt fails with the flag up, `llms.length + 1 - count` attempts are made, no turn is recorded, the question history is unchanged, the flag stays up, the last failure is pushed to the response history exactly when that history is behind the question history, and the last event is an error with the last failure and the prompt |
| Streaming.Answered | extension.js:102-129 | a call records at most one turn, and only for its last attempt: its streamed text with the footer naming the model that produced it |
| Streaming.RetryOnlyAfterLiveFailure | extension.js:131-158 | a further model is tried only after the previous attempt threw with the flag up |
| Streaming.RunRaisesFlag | extension.js:104-139 | every call that returns leaves `continueResponse` up (corrected cancel branch) |
| Streaming.RunOnlyAppends | extension.js:124-150 | a call only appends: at most one entry to each history and one turn, and events are only added |
| Streaming.PublicationsArePrefixes | extension.js:98-99 | every streamed update shows a prefix of the answer that ends at a chunk |
| Streaming.CancelKeepsPrefix | extension.js:93-100 | a stop before chunk `k` keeps exactly the first `k` chunks, and every update shown is a prefix of them |
| Streaming.StaleStopAnswersEmpty | extension.js:93-129 | a stop left over from an earlier call makes the next call answer empty on its first model |
| Streaming.CancelBranchAsWritten | extension.js:133-139 | in display mode the cancel branch throws before raising the flag; with `writeToFile` it raises the flag and returns |
| Streaming.StopThenBreakAsWritten | extension.js:133-139 | a stop followed by a failing stream throws as written, while the corrected branch reports the run time and raises the flag |
| Session.AddFile | extension.js:176-181 | `addFileToPrompt`: a seen location adds the empty text; otherwise the location is recorded and the file is read; see `AddFileOnce` |
| Session.AddFileOnce | extension.js:176-181 | the location is recorded; a seen location adds no text; an unseen one adds text exactly when it is readable; a second call adds nothing |
| Session.Handle | extension.js:423-479 | the `chat` handler up to its model call; see `SentPrompt`, `AskedPublishesQuestion`, `HandleKeepsInjected`, `AnswerScansQuestion`, `SummarizeSendsFile` and `FixScenario` |
| Session.Answer | extension.js:445-453 | the `context` branch: the answer's numbered line gives the location, or the handler throws; see `AnswerAt` and `AnswerPicksCandidate` |
| Session.Pick | extension.js:448-453 | the file at the picked location joins the context, and the last question loses the `@` of the name, replaces the last history entry and is what gets scanned; see `PickPicks` and `AnswerScansQuestion` |
| Session.PickPicks | extension.js:448-453 | `Pick` does what `Picks` says: the location is recorded, the file's block joins the context once, the last question without the `@` of the name replaces the last history entry, and nothing else changes |
| Session.RescanRewrites | extension.js:450-452 | a rescan happens exactly when a question exists; its text is the last question without the `@` of the chosen name, it replaces that entry, and nothing else changes |
| Session.AnswerScansQuestion | extension.js:445-453 | an answer that names a readable or already injected location, after a question, is handled exactly as the mention step on the rewritten question, from the state with the answer posted, the location recorded, the file's block added once and the history entry replaced |
| Session.Rescan | extension.js:450-452 | the last question loses the `@` of the asked-about name and replaces the last history entry |
| Session.Mention | extension.js:455-479 | the scan of the question, then asking or sending; see `MentionSent`, `MentionSendsWhenReady` and `MentionAsks` |
| Session.AfterScan | extension.js:456-458 | the first question of the turn is kept, and the scanned files join the context |
| Session.Conclude | extension.js:460-479 | with an ambiguous name the numbered question is posted; otherwise the prompt is the question, a blank line and the context, and the call is pending |
| Session.Finish | extension.js:481-487 | the pending call runs, then the handler's resets; see `FinishResets` |
| Session.Reset | extension.js:484-487 | the context, the original question and the dedup set are cleared and the session stops responding |
| Session.MentionResolved | extension.js:455-458 | once the scan resolved, the handler continues from the scan's dedup set; an ambiguous name is in the index |
| Session.AmbiguousNameKnown | extension.js:227-230 | the name the scan asks about is in the index |
| Session.AskedPublishesQuestion | extension.js:460-473 | when the handler asks, it posts a `selection` with the numbered question for a name with at least two candidates; `maxVal` is the count; the question is kept; no call starts |
| Session.AnswerFrame | extension.js:445-453 | answering a question leaves the index, the pending call and the responding flag alone |
| Session.MentionAsks | extension.js:460-473 | the mention step asks only as `AskedPublishesQuestion` says |
| Session.AnswerPicksCandidate | extension.js:445-453 | answering `k` to the question for `name` picks the `k`th location of `name` |
| Session.AnswerAt | extension.js:445-453 | the picked location is recorded; the answer goes on exactly when the file is readable or already injected and a question exists; the file's text joins the context only the first time; the last question loses the `@` of the name and replaces the last history entry |
| Session.FilteredAnswerSelects | webview.js:65-82 | any non-empty answer the webview lets through selects a candidate line of the question |
| Session.MentionSent | extension.js:455-481 | the handler sends only when no mention is ambiguous; the mentions fulfilled are exactly `Fresh` (the first mention of each location not injected before), all readable; the dedup set gains exactly their locations; the prompt is the question without their `@`, a blank line, the earlier context and one block per fulfilled mention; the call is pending |
| Session.SendsWhenClear | extension.js:455-481 | a clear scan leads to exactly the send that `MentionSent` describes |
| Session.MentionSendsWhenReady | extension.js:455-481 | conversely, for an index that lists a candidate for every name, a question with no ambiguous mention whose fresh files can all be read is sent |
| Session.QuestionSent | extension.js:423-481 | a typed question whose scan is clear is sent as the question without the `@` of its fulfilled mentions, a blank line, the earlier context and the new blocks |
| Session.SummarizeStripped | extension.js:457 | `Summarize @foo.ts` becomes `Summarize foo.ts` |
| Session.SummarizeResolved | extension.js:215-249 | with one file named `foo.ts`, the scan of `@foo.ts` fulfils it and injects its block |
| Session.SummarizeBlock | extension.js:239 | the block of `foo.ts` holding `export x` is `foo.ts:`, the text and a blank line |
| Session.SummarizeSendsFile | extension.js:423-481 | in a fresh session whose workspace has one `foo.ts` holding `export x`, the question `Summarize @foo.ts` is sent as `Summarize foo.ts`, a blank line, `foo.ts:`, `export x` and a blank line |
| Session.PlainSent | extension.js:455-479 | a question without `@` is sent unchanged, followed by a blank line and the context gathered so far |
| Session.FixResolved | extension.js:215-249 | with two files named `bar.ts`, the scan of `@bar.ts` stops and asks about `bar.ts` with both locations |
| Session.FixAsks | extension.js:423-473 | in a fresh session, `Fix @bar.ts` posts the numbered question for `bar.ts` with a maximum of 2, keeps it as the previous response and starts no call |
| Session.FixStripped | extension.js:450-452 | `Fix @bar.ts` becomes `Fix bar.ts` |
| Session.FixSecond | extension.js:445-446 | the answer `2` names the second candidate |
| Session.FixAnsweringState | extension.js:445-453 | after the answer the second location is recorded, its block is the context and the history holds `Fix bar.ts` |
| Session.FixAnswerScans | extension.js:445-453 | the answer `2` is handled as the mention step on `Fix bar.ts` with the second file injected |
| Session.FixRescanSent | extension.js:455-479 | the rewritten question is sent with the injected block as context |
| Session.FixScenario | extension.js:423-479 | `Fix @bar.ts` with two candidates is asked about with the numbered question; the answer `2` sends `Fix bar.ts`, a blank line, `bar.ts:`, the text of the second file and a newline |
| Session.SentPrompt | extension.js:425-437 | a new question is sent only when no call is running; it is pushed to both histories before the scan |
| Session.MentionKeepsInjected | extension.js:455 | the dedup set only grows during a scan |
| Session.AnswerKeepsInjected | extension.js:447 | the dedup set only grows during an answer |
| Session.HandleKeepsInjected | extension.js:423-479 | within a turn the dedup set never shrinks, so no file is injected twice |
| Session.FinishResets | extension.js:481-487 | after the call the context, the original question and the dedup set are cleared, the flag is up, and at most one turn is added |
| Session.ReplaceFileMentions | extension.js:162-167 | the loop removes the `@` of each listed token in turn, as `StripMentions` |
| Session.ChatSession.constructor | extension.js:338 | the session starts empty, with the index of the workspace's files |
| Session.ChatSession.RefreshFiles | extension.js:340-347 | a created or deleted file rebuilds the index |
| Session.ChatSession.AddFileToPrompt | extension.js:176-181 | updates the dedup set and returns text as `AddFile` |
| Session.ChatSession.MentionedFiles | extension.js:215-249 | the loop over the mentions ends with the result and dedup set of `Resolve` |
| Session.ChatSession.ConsumeStream | extension.js:93-102 | the stream loop leaves the streamed text, the flag, the updates and the raised error described by `Streamed`, `FlagAfter`, `Publications` and `Raised` |
| Session.ChatSession.SendChat | extension.js:76-160 | the recursive call leaves the call state that `Run` gives |
| Session.ChatSession.AnswerQuestion | extension.js:445-453 | the `context` branch updates the state as `Answer` |
| Session.ChatSession.PickLocation | extension.js:447-451 | the state after the answer named a location is as `Pick` |
| Session.ChatSession.RescanQuestion | extension.js:450-452 | the last question loses the `@` of the chosen file, as `Rescan` |
| Session.ChatSession.MentionStep | extension.js:455-479 | the scan and what follows it update the state as `Mention` |
| Session.ChatSession.Proceed | extension.js:456-479 | after the scan, the state is as `AfterScan` |
| Session.ChatSession.AskOrSend | extension.js:460-479 | the handler asks or marks the call pending, as `Conclude` |
| Session.ChatSession.Submit | extension.js:423-479 | the `chat` handler up to its model call updates the state as `Handle` and keeps the session valid |
| Session.ChatSession.Complete | extension.js:481-487 | the model call and the resets leave the state that `Finish` gives |
| Session.ChatSession.Stop | extension.js:497-499 | a stop lowers `continueResponse` |
| Session.ChatSession.SelectModel | extension.js:490-491 | later calls start from the chosen model |
| Session.ChatSession.RemoveContext | extension.js:492-493 | the gathered file context is dropped |
| Session.ChatSession.ClearHistory | extension.js:494-496 | the webview learns whether a call is running, and the transcript is emptied |

## Left out

- The VS Code API, the OpenAI client and the network are not modelled. Each attempt's outcome is given as an `Attempt`.
- `Response(text)` carries the raw markdown. The showdown conversion to HTML is not modelled.
- The clock is not modelled. `performance.now()` is replaced by the elapsed-seconds string the attempt carries.
- The `writeToFile` output mode is not modelled:
  - `sendToFile`;
  - `outputFileName`;
  - the `## question` header;
  - the file-path response.
  Only display mode is modelled, apart from `CancelBranchAsWritten`, which takes the flag.
- Several events and helpers are left out because they do not affect the state modelled:
  - the `cancelView` and `disableAsk` side events (the `loading` call is recorded as the `Loading` event);
  - the `copy` command, which writes to the clipboard;
  - `activate`/`deactivate` and `getNonce`;
  - the webview's DOM code.
- File-watcher events are the `RefreshFiles` method with the new file list. `findFiles` and its glob filters are not modelled.
- Concurrency is not modelled beyond the split at `await sendChat`:
  - `Stop` can run between `Submit` and `Complete`, and its effect during a stream is the `stopAt` of an attempt.
  - Other interleavings of the async handler are not modelled.
- `Text.ParseNumber`: `Number` is modelled for digit strings only. Whitespace, signs, decimals and hexadecimal forms are treated as `NaN`, which makes the handler throw.
- File bytes are decoded one byte per character (Latin-1). UTF-8 decoding of multi-byte sequences is not modelled.
- `Session.ChatSession.SelectModel`: requires an index within the model list. `parseInt` of other values from the menu is not modelled.
- `userQuestions` is pushed to but never read by the core. It is kept as a field.
- A name whose bucket is empty is treated as a read that throws. `getFileNames` never produces one, so this case does not arise.
- In `Session.ChatSession.Complete`, a call that throws out of `sendChat` is not a state the model reaches. The model uses the corrected cancel branch (see Findings); the behaviour as written is shown by `Streaming.CancelBranchAsWritten`.
- `Streaming.Exhaustion`: stated for attempts that fail with the flag up. When the flag is down, the call stops after its first attempt (`Streaming.RetryOnlyAfterLiveFailure`).
- `readFile` (extension.js:209-213) hands its bytes straight to string concatenation (extension.js:180 and 239). `Mentions.Block` and `Session.AddFile` use `FileText.DecodeText`, the evidently intended text of the file. `FileText.JoinedBytes` is the behaviour as written for a plain `Uint8Array` (Findings, first row).
- Only the first ambiguous mention of a question is reported: the scan stops there (`break` at extension.js:244), and `Mentions.ResolveAmbiguity` states this.
- `Tokens.HighlightRoundTrip`: stated for text that contains neither `<code>` nor `</code>`. Text that already holds a tag loses it when the tags are removed.

## Findings

| source | as written | input that shows it | evidently intended | confidence | as-written member | corrected member |
|---|---|---|---|---|---|---|
| extension.js:176-239 | `readFile` returns a `Uint8Array`. It is concatenated into the prompt directly, which renders a plain `Uint8Array` as comma-separated byte values (a Node `Buffer`, if the host returned one, would be decoded as UTF-8 instead) | a file holding `hi`, read as a plain `Uint8Array`, is injected as `104,105` | the file's text is injected | not executed | FileText.JoinedBytesIsNotText | FileText.DecodeEncodedText |
| extension.js:137 | the cancel branch passes `runtime`, an undeclared name, so it throws a ReferenceError in display mode. The flag is never raised, and the handler's resets (484-487) are skipped, so the panel stays "responding" | stop during an attempt whose stream then fails: `Attempt(["Hi"], Broke("network error"), Some(1), "1.5")` | post the run-time line, raise the flag and return | not executed | Streaming.StopThenBreakAsWritten | Streaming.RunRaisesFlag |
