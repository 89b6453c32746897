/**
 * Resolution of `@name.ext` mentions against the file index (`mentionedFiles`),
 * the numbered disambiguation question, the decoding of the user's numeric
 * answer from that question (`getLocationFromResponse`) and the stripping of
 * the `@` of resolved mentions (`replaceFileMentions`).
 *
 * The file system is a map from location to bytes; a location missing from
 * it is a failed read.
 */
module Mentions {
  import opened Wrappers
  import opened Text
  import opened FileText
  import opened FileIndex

  type Files = map<string, seq<byte>>

  /** The object `mentionedFiles` returns; its `match` field is `lastFile` here, `None` for `null`. */
  datatype Mentioned = Mentioned(response: string, clearance: bool, fulfilled: seq<string>, files: string, lastFile: Option<string>)

  /** What a scan yields: the result (`None` when a file read failed) and the dedup set afterwards. */
  datatype Scan = Scan(result: Option<Mentioned>, seen: set<string>)

  const Unresolved := Mentioned("", true, [], "", None)

  // ---- the numbered question ----

  function Line(k: nat, location: string): string
  {
    "(" + NatToString(k) + ") " + location
  }

  /** `(k) loc\n` for each candidate, numbered from `k`. */
  function Numbered(locations: seq<string>, k: nat): string
    decreases |locations|
  {
    if locations == [] then ""
    else Line(k, locations[0]) + "\n" + Numbered(locations[1..], k + 1)
  }

  function Header(name: string): string
  {
    "Which " + name + " are you referring to:"
  }

  /** The disambiguation question for a name with several candidates. */
  function Question(name: string, locations: seq<string>): string
  {
    Header(name) + "\n" + Numbered(locations, 1)
  }

  predicate NoNewline(locations: seq<string>)
  {
    forall i :: 0 <= i < |locations| ==> '\n' !in locations[i]
  }

  /** The candidate lines of the question, numbered from `k`. */
  function Lines(locations: seq<string>, k: nat): (r: seq<string>)
    ensures |r| == |locations|
    ensures forall i :: 0 <= i < |r| ==> r[i] == Line(k + i, locations[i])
    decreases |locations|
  {
    if locations == [] then []
    else [Line(k, locations[0])] + Lines(locations[1..], k + 1)
  }

  lemma {:induction false} NumberedLines(locations: seq<string>, k: nat)
    requires NoNewline(locations)
    ensures Split(Numbered(locations, k), '\n') == Lines(locations, k) + [""]
    decreases |locations|
  {
    if locations == [] {
      SplitNoSep("", '\n');
    } else {
      var head := Line(k, locations[0]);
      var tail := Numbered(locations[1..], k + 1);
      NumberedLines(locations[1..], k + 1);
      assert '\n' !in head;
      SplitCons(head, '\n', tail);
      assert Numbered(locations, k) == head + ['\n'] + tail;
    }
  }

  /** The question, split on newlines: the header, one line per candidate, and a final empty line. */
  lemma QuestionLines(name: string, locations: seq<string>)
    requires '\n' !in name && NoNewline(locations)
    ensures var lines := Split(Question(name, locations), '\n');
      |lines| == |locations| + 2 && lines[0] == Header(name) &&
      (forall i :: 0 <= i < |locations| ==> lines[i + 1] == Line(i + 1, locations[i])) &&
      lines[|locations| + 1] == ""
  {
    assert '\n' !in Header(name);
    SplitCons(Header(name), '\n', Numbered(locations, 1));
    assert Question(name, locations) == Header(name) + ['\n'] + Numbered(locations, 1);
    NumberedLines(locations, 1);
  }

  // ---- decoding the answer ----

  /** `location.substring(location.indexOf(" ") + 1)`: the text after the first space, or all of it. */
  function AfterFirstSpace(line: string): string
  {
    match IndexOf(line, " ")
    case None => line
    case Some(i) => line[i + 1..]
  }

  /**
   * `getLocationFromResponse(response, locations)`: the line numbered by the
   * answer, after its first space. `None` where the source throws: an answer
   * that is not a number, or a line that does not exist.
   */
  function GetLocationFromResponse(response: string, locations: seq<string>): (r: Option<string>)
    ensures r.Some? <==> ParseNumber(response).Some? && ParseNumber(response).value < |locations|
    ensures r.Some? ==> r.value == AfterFirstSpace(locations[ParseNumber(response).value])
  {
    match ParseNumber(response)
    case None => None
    case Some(k) => if k < |locations| then Some(AfterFirstSpace(locations[k])) else None
  }

  /** Round trip: answering `k` to the question gives back exactly the k-th candidate. */
  lemma AnswerRoundTrip(name: string, locations: seq<string>, k: nat)
    requires '\n' !in name && NoNewline(locations)
    requires 1 <= k <= |locations|
    ensures GetLocationFromResponse(NatToString(k), Split(Question(name, locations), '\n')) == Some(locations[k - 1])
  {
    QuestionLines(name, locations);
    ValueOfNatToString(k);
    LineAfterSpace(k, locations[k - 1]);
  }

  /** The text after the first space of a numbered line is its location. */
  lemma LineAfterSpace(k: nat, loc: string)
    ensures AfterFirstSpace(Line(k, loc)) == loc
  {
    var digits := NatToString(k);
    assert Line(k, loc) == ("(" + digits + ")") + [' '] + loc;
    IndexOfFirstChar("(" + digits + ")", ' ', loc);
    assert Line(k, loc)[|digits| + 3..] == loc;
  }

  // ---- resolving mentions ----

  /** The text injected for one file: `name:\n<content>\n\n`. */
  function Block(name: string, bytes: seq<byte>): string
  {
    name + ":\n" + DecodeText(bytes) + "\n\n"
  }

  predicate Ambiguous(titles: Titles, token: string)
  {
    Drop1(token) in titles && |titles[Drop1(token)]| > 1
  }

  /** The loop of `mentionedFiles` over the remaining tokens, from the state `acc` and dedup set `seen`. */
  function ResolveFrom(acc: Mentioned, seen: set<string>, matches: seq<string>, titles: Titles, fs: Files): Scan
    decreases |matches|
  {
    if matches == [] then Scan(Some(acc), seen)
    else
      var name := Drop1(matches[0]);
      if name !in titles then ResolveFrom(acc, seen, matches[1..], titles, fs)
      else if |titles[name]| > 1 then
        Scan(Some(acc.(response := Question(name, titles[name]), clearance := false, lastFile := Some(name))), seen)
      else if |titles[name]| == 0 then Scan(None, seen)
      else
        var loc := titles[name][0];
        if loc in seen then ResolveFrom(acc, seen, matches[1..], titles, fs)
        else if loc !in fs then Scan(None, seen)
        else
          ResolveFrom(acc.(files := acc.files + Block(name, fs[loc]), fulfilled := acc.fulfilled + [matches[0]]),
                      seen + {loc}, matches[1..], titles, fs)
  }

  /** `mentionedFiles(matches, titles)` against the dedup set `seen`. */
  function Resolve(matches: seq<string>, titles: Titles, fs: Files, seen: set<string>): Scan
  {
    ResolveFrom(Unresolved, seen, matches, titles, fs)
  }

  /**
   * Reference definition, a plain filter: the mentions whose names the
   * index knows, in order. `ResolveIgnoresUnknown` relates the scan to it.
   */
  function Known(titles: Titles, matches: seq<string>): (r: seq<string>)
    ensures forall i :: 0 <= i < |r| ==> Drop1(r[i]) in titles
    decreases |matches|
  {
    if matches == [] then []
    else (if Drop1(matches[0]) in titles then [matches[0]] else []) + Known(titles, matches[1..])
  }

  /** Names absent from the index are ignored: the scan sees only the known ones. */
  lemma {:induction false} ResolveIgnoresUnknown(acc: Mentioned, seen: set<string>, matches: seq<string>, titles: Titles, fs: Files)
    ensures ResolveFrom(acc, seen, matches, titles, fs) == ResolveFrom(acc, seen, Known(titles, matches), titles, fs)
    decreases |matches|
  {
    if matches != [] {
      var k := Known(titles, matches);
      if Drop1(matches[0]) in titles {
        assert k[0] == matches[0] && k[1..] == Known(titles, matches[1..]);
        var name := Drop1(matches[0]);
        if |titles[name]| == 1 {
          var loc := titles[name][0];
          if loc in seen {
            ResolveIgnoresUnknown(acc, seen, matches[1..], titles, fs);
          } else if loc in fs {
            ResolveIgnoresUnknown(acc.(files := acc.files + Block(name, fs[loc]), fulfilled := acc.fulfilled + [matches[0]]),
                                  seen + {loc}, matches[1..], titles, fs);
          }
        }
      } else {
        assert k == [] + Known(titles, matches[1..]) == Known(titles, matches[1..]);
        ResolveIgnoresUnknown(acc, seen, matches[1..], titles, fs);
      }
    }
  }

  /** The single location of a token that resolved without ambiguity. */
  function Location(titles: Titles, token: string): string
    requires Drop1(token) in titles && |titles[Drop1(token)]| >= 1
  {
    titles[Drop1(token)][0]
  }

  predicate Single(titles: Titles, token: string)
  {
    Drop1(token) in titles && |titles[Drop1(token)]| == 1
  }

  /**
   * Each fulfilled token names a single-candidate file that was not injected
   * before the scan and is recorded now, and no location is injected twice.
   */
  ghost predicate InjectedOnce(titles: Titles, fulfilled: seq<string>, seen0: set<string>, seen: set<string>)
  {
    (forall i :: 0 <= i < |fulfilled| ==> Single(titles, fulfilled[i])) &&
    (forall i :: 0 <= i < |fulfilled| ==> Single(titles, fulfilled[i]) ==>
       Location(titles, fulfilled[i]) !in seen0 && Location(titles, fulfilled[i]) in seen) &&
    (forall i, j :: 0 <= i < j < |fulfilled| && Single(titles, fulfilled[i]) && Single(titles, fulfilled[j]) ==>
       Location(titles, fulfilled[i]) != Location(titles, fulfilled[j]))
  }

  /** The injected text: one block per fulfilled token, in order. */
  function Blocks(titles: Titles, fs: Files, fulfilled: seq<string>): string
  {
    if fulfilled == [] then ""
    else
      var token := fulfilled[|fulfilled| - 1];
      Blocks(titles, fs, fulfilled[..|fulfilled| - 1]) +
      (if Single(titles, token) && Location(titles, token) in fs
       then Block(Drop1(token), fs[Location(titles, token)]) else "")
  }

  /** Injecting one more single-candidate file, not seen before, keeps the dedup facts. */
  lemma InjectOne(acc: Mentioned, seen0: set<string>, seen: set<string>, token: string, titles: Titles, fs: Files)
    requires seen0 <= seen && InjectedOnce(titles, acc.fulfilled, seen0, seen)
    requires acc.files == Blocks(titles, fs, acc.fulfilled)
    requires Single(titles, token) && Location(titles, token) !in seen && Location(titles, token) in fs
    ensures var loc := Location(titles, token);
      var ful := acc.fulfilled + [token];
      InjectedOnce(titles, ful, seen0, seen + {loc}) &&
      acc.files + Block(Drop1(token), fs[loc]) == Blocks(titles, fs, ful)
  {
    var loc := Location(titles, token);
    var ful := acc.fulfilled + [token];
    assert ful[..|ful| - 1] == acc.fulfilled;
    assert forall i :: 0 <= i < |acc.fulfilled| ==> ful[i] == acc.fulfilled[i];
    assert forall i :: 0 <= i < |acc.fulfilled| ==> Location(titles, ful[i]) in seen;
  }

  lemma {:induction false} ResolveFromDedup(acc: Mentioned, seen0: set<string>, seen: set<string>, matches: seq<string>, titles: Titles, fs: Files)
    requires seen0 <= seen && InjectedOnce(titles, acc.fulfilled, seen0, seen)
    requires acc.files == Blocks(titles, fs, acc.fulfilled)
    ensures var r := ResolveFrom(acc, seen, matches, titles, fs);
      seen <= r.seen &&
      (r.result.Some? ==> InjectedOnce(titles, r.result.value.fulfilled, seen0, r.seen) &&
                          r.result.value.files == Blocks(titles, fs, r.result.value.fulfilled))
    decreases |matches|
  {
    if matches != [] {
      var name := Drop1(matches[0]);
      if name in titles && |titles[name]| == 1 {
        var loc := titles[name][0];
        if loc in seen {
          ResolveFromDedup(acc, seen0, seen, matches[1..], titles, fs);
        } else if loc in fs {
          InjectOne(acc, seen0, seen, matches[0], titles, fs);
          ResolveFromDedup(acc.(files := acc.files + Block(name, fs[loc]), fulfilled := acc.fulfilled + [matches[0]]),
                           seen0, seen + {loc}, matches[1..], titles, fs);
        }
      } else if name !in titles {
        ResolveFromDedup(acc, seen0, seen, matches[1..], titles, fs);
      }
    }
  }

  /**
   * Dedup: a file is injected at most once per turn, never when its location
   * was already in the dedup set, and the dedup set records every injected
   * location; the injected text is one `name:\n<content>\n\n` block per
   * fulfilled token. A repeated mention is therefore not fulfilled twice.
   */
  lemma ResolveDedup(matches: seq<string>, titles: Titles, fs: Files, seen: set<string>)
    ensures var r := Resolve(matches, titles, fs, seen);
      seen <= r.seen &&
      (r.result.Some? ==> InjectedOnce(titles, r.result.value.fulfilled, seen, r.seen) &&
                          r.result.value.files == Blocks(titles, fs, r.result.value.fulfilled))
  {
    ResolveFromDedup(Unresolved, seen, seen, matches, titles, fs);
  }

  /** Reference definition: the index of the first mention whose name has several candidates. */
  function FirstAmbiguous(titles: Titles, matches: seq<string>): (r: Option<nat>)
    ensures r.None? ==> forall i :: 0 <= i < |matches| ==> !Ambiguous(titles, matches[i])
    ensures r.Some? ==> r.value < |matches| && Ambiguous(titles, matches[r.value])
    ensures r.Some? ==> forall j :: 0 <= j < r.value ==> !Ambiguous(titles, matches[j])
    decreases |matches|
  {
    if matches == [] then None
    else if Ambiguous(titles, matches[0]) then Some(0)
    else match FirstAmbiguous(titles, matches[1..])
      case None => None
      case Some(i) => Some(i + 1)
  }

  /** What a scan that read every file it needed says about ambiguity. */
  predicate AmbiguityReported(titles: Titles, matches: seq<string>, m: Mentioned)
  {
    match FirstAmbiguous(titles, matches)
    case None => m.clearance && m.response == "" && m.lastFile.None?
    case Some(i) =>
      var name := Drop1(matches[i]);
      !m.clearance && m.lastFile == Some(name) && m.response == Question(name, titles[name])
  }

  lemma {:induction false} ResolveFromAmbiguity(acc: Mentioned, seen: set<string>, matches: seq<string>, titles: Titles, fs: Files)
    requires acc.clearance && acc.response == "" && acc.lastFile == None
    ensures var r := ResolveFrom(acc, seen, matches, titles, fs);
      r.result.Some? ==> AmbiguityReported(titles, matches, r.result.value)
    decreases |matches|
  {
    if matches != [] && !Ambiguous(titles, matches[0]) {
      var name := Drop1(matches[0]);
      var rest := matches[1..];
      assert FirstAmbiguous(titles, matches) ==
        match FirstAmbiguous(titles, rest) case None => None case Some(i) => Some(i + 1);
      if name in titles && |titles[name]| == 1 {
        var loc := titles[name][0];
        if loc in seen {
          ResolveFromAmbiguity(acc, seen, rest, titles, fs);
        } else if loc in fs {
          ResolveFromAmbiguity(acc.(files := acc.files + Block(name, fs[loc]), fulfilled := acc.fulfilled + [matches[0]]),
                               seen + {loc}, rest, titles, fs);
        }
      } else if name !in titles {
        ResolveFromAmbiguity(acc, seen, rest, titles, fs);
      }
      var r := ResolveFrom(acc, seen, matches, titles, fs);
      if r.result.Some? && FirstAmbiguous(titles, rest).Some? {
        assert matches[FirstAmbiguous(titles, rest).value + 1] == rest[FirstAmbiguous(titles, rest).value];
      }
    }
  }

  /**
   * Ambiguity: a scan that reads every file it needs either stays clear (no
   * mention is ambiguous, the response is empty) or stops at the FIRST
   * ambiguous mention, whose name becomes `lastFile` and whose numbered
   * question becomes `response`.
   */
  lemma ResolveAmbiguity(matches: seq<string>, titles: Titles, fs: Files, seen: set<string>)
    ensures var r := Resolve(matches, titles, fs, seen);
      r.result.Some? ==> AmbiguityReported(titles, matches, r.result.value)
  {
    ResolveFromAmbiguity(Unresolved, seen, matches, titles, fs);
  }

  /** A prompt without mentions resolves to nothing: clear, empty injection, same dedup set. */
  lemma ResolveNothing(titles: Titles, fs: Files, seen: set<string>)
    ensures Resolve([], titles, fs, seen) == Scan(Some(Mentioned("", true, [], "", None)), seen)
  {
  }

  // ---- which mentions a scan fulfils ----

  /**
   * Reference definition: the mentions a scan from the dedup set `seen`
   * should fulfil, in order. Up to the first ambiguous mention, each mention
   * of a single-candidate name whose location is neither in `seen` nor taken
   * by an earlier mention; unknown names and repeats are passed over.
   */
  function Fresh(titles: Titles, seen: set<string>, matches: seq<string>): (r: seq<string>)
    ensures forall i :: 0 <= i < |r| ==> Single(titles, r[i])
    decreases |matches|
  {
    if matches == [] || Ambiguous(titles, matches[0]) then []
    else if Single(titles, matches[0]) && Location(titles, matches[0]) !in seen then
      [matches[0]] + Fresh(titles, seen + {Location(titles, matches[0])}, matches[1..])
    else Fresh(titles, seen, matches[1..])
  }

  /** The locations of the single-candidate tokens among `tokens`. */
  function Locations(titles: Titles, tokens: seq<string>): set<string>
    decreases |tokens|
  {
    if tokens == [] then {}
    else (if Single(titles, tokens[0]) then {Location(titles, tokens[0])} else {}) + Locations(titles, tokens[1..])
  }

  /** Every token names a single-candidate file whose location can be read. */
  predicate Readable(titles: Titles, fs: Files, tokens: seq<string>)
  {
    forall i :: 0 <= i < |tokens| ==> Single(titles, tokens[i]) && Location(titles, tokens[i]) in fs
  }

  /** Every name of the index has a candidate, as the index `getFileNames` builds does. */
  predicate Listed(titles: Titles)
  {
    forall name :: name in titles ==> titles[name] != []
  }

  /** The index built from any file list lists a location for every name. */
  lemma {:induction false} IndexListed(files: seq<string>)
    ensures Listed(Index(files))
    decreases |files|
  {
    if files != [] {
      IndexListed(files[..|files| - 1]);
    }
  }

  lemma {:induction false} ResolveFromFresh(acc: Mentioned, seen: set<string>, matches: seq<string>, titles: Titles, fs: Files)
    ensures var r := ResolveFrom(acc, seen, matches, titles, fs);
      var f := Fresh(titles, seen, matches);
      r.result.Some? ==> r.result.value.fulfilled == acc.fulfilled + f && r.seen == seen + Locations(titles, f)
    decreases |matches|
  {
    if matches == [] || Ambiguous(titles, matches[0]) {
      assert acc.fulfilled + [] == acc.fulfilled;
    } else {
      var name := Drop1(matches[0]);
      var rest := matches[1..];
      if name in titles && |titles[name]| == 1 {
        var loc := titles[name][0];
        if loc in seen {
          ResolveFromFresh(acc, seen, rest, titles, fs);
        } else if loc in fs {
          var acc' := acc.(files := acc.files + Block(name, fs[loc]), fulfilled := acc.fulfilled + [matches[0]]);
          ResolveFromFresh(acc', seen + {loc}, rest, titles, fs);
          var f' := Fresh(titles, seen + {loc}, rest);
          var f := [matches[0]] + f';
          assert Fresh(titles, seen, matches) == f;
          assert f[1..] == f';
          assert Locations(titles, f) == {loc} + Locations(titles, f');
          assert acc'.fulfilled + f' == acc.fulfilled + f;
        }
      } else if name !in titles {
        ResolveFromFresh(acc, seen, rest, titles, fs);
      }
    }
  }

  lemma {:induction false} ResolveFromReads(acc: Mentioned, seen: set<string>, matches: seq<string>, titles: Titles, fs: Files)
    ensures var ok := Readable(titles, fs, Fresh(titles, seen, matches));
      (ResolveFrom(acc, seen, matches, titles, fs).result.Some? ==> ok) &&
      (Listed(titles) && ok ==> ResolveFrom(acc, seen, matches, titles, fs).result.Some?)
    decreases |matches|
  {
    if matches != [] && !Ambiguous(titles, matches[0]) {
      var name := Drop1(matches[0]);
      var rest := matches[1..];
      if name in titles && |titles[name]| == 1 {
        var loc := titles[name][0];
        if loc in seen {
          ResolveFromReads(acc, seen, rest, titles, fs);
        } else {
          var f' := Fresh(titles, seen + {loc}, rest);
          var f := [matches[0]] + f';
          assert Fresh(titles, seen, matches) == f;
          if loc in fs {
            var acc' := acc.(files := acc.files + Block(name, fs[loc]), fulfilled := acc.fulfilled + [matches[0]]);
            ResolveFromReads(acc', seen + {loc}, rest, titles, fs);
            assert forall i :: 1 <= i < |f| ==> f[i] == f'[i - 1];
            assert Readable(titles, fs, f') ==> Readable(titles, fs, f);
            assert Readable(titles, fs, f) ==> Readable(titles, fs, f') by {
              assert forall i :: 0 <= i < |f'| ==> f'[i] == f[i + 1];
            }
          } else {
            assert f[0] == matches[0];
          }
        }
      } else if name !in titles {
        ResolveFromReads(acc, seen, rest, titles, fs);
      }
    }
  }

  /**
   * Fulfilment: a scan that reads every file it needs fulfils exactly the
   * mentions `Fresh` names, in order, adds exactly their locations to the
   * dedup set and injects one block per such mention. Every read it makes
   * succeeds only if those locations can be read; when every name of the
   * index has a candidate, that is also enough.
   */
  lemma ResolveFresh(matches: seq<string>, titles: Titles, fs: Files, seen: set<string>)
    ensures var r := Resolve(matches, titles, fs, seen);
      var f := Fresh(titles, seen, matches);
      (r.result.Some? ==> r.result.value.fulfilled == f && r.seen == seen + Locations(titles, f) &&
                          r.result.value.files == Blocks(titles, fs, f) && Readable(titles, fs, f)) &&
      (Listed(titles) && Readable(titles, fs, f) ==> r.result.Some?)
  {
    ResolveFromFresh(Unresolved, seen, matches, titles, fs);
    ResolveFromReads(Unresolved, seen, matches, titles, fs);
    ResolveDedup(matches, titles, fs, seen);
    assert [] + Fresh(titles, seen, matches) == Fresh(titles, seen, matches);
  }

  /** A file mentioned twice is injected once. */
  lemma MentionedTwice(bytes: seq<byte>)
    ensures var r := Resolve(["@foo.ts", "@foo.ts"], map["foo.ts" := ["/w/foo.ts"]], map["/w/foo.ts" := bytes], {});
      r == Scan(Some(Mentioned("", true, ["@foo.ts"], Block("foo.ts", bytes), None)), {"/w/foo.ts"})
  {
    var titles, fs := map["foo.ts" := ["/w/foo.ts"]], map["/w/foo.ts" := bytes];
    var m, loc := "@foo.ts", "/w/foo.ts";
    assert Drop1(m) == "foo.ts" && titles["foo.ts"][0] == loc;
    var acc := Unresolved.(files := Unresolved.files + Block("foo.ts", fs[loc]), fulfilled := Unresolved.fulfilled + [m]);
    assert acc == Mentioned("", true, [m], Block("foo.ts", bytes), None);
    assert [m, m][1..] == [m] && [m][1..] == [];
    assert ResolveFrom(acc, {loc}, [m], titles, fs) == Scan(Some(acc), {loc});
    assert ResolveFrom(Unresolved, {}, [m, m], titles, fs) == ResolveFrom(acc, {} + {loc}, [m], titles, fs);
    assert {} + {loc} == {loc};
  }

  // ---- stripping the `@` of resolved mentions ----

  /** `replaceFileMentions(question, files)`: each listed token loses the `@` of its first occurrence. */
  function StripMentions(question: string, tokens: seq<string>): string
    decreases |tokens|
  {
    if tokens == [] then question
    else StripMentions(ReplaceFirst(question, tokens[0], Drop1(tokens[0])), tokens[1..])
  }

  /**
   * Replacing a token by itself without its first character deletes exactly
   * that character at the token's first occurrence; every other character is
   * kept, and text without the token is unchanged.
   */
  lemma StripFirst(question: string, token: string)
    requires |token| > 0
    ensures match IndexOf(question, token)
      case None => ReplaceFirst(question, token, Drop1(token)) == question
      case Some(i) => (i < |question| && question[i] == token[0] &&
        ReplaceFirst(question, token, Drop1(token)) == question[..i] + question[i + 1..])
  {
    match IndexOf(question, token)
    case None =>
    case Some(i) =>
      var n := |token|;
      assert OccursAt(question, token, i);
      var mid, tail := question[i + 1..i + n], question[i + n..];
      assert ReplaceFirst(question, token, Drop1(token)) == question[..i] + Drop1(token) + tail;
      assert question[i..i + n] == token;
      assert question[i] == question[i..i + n][0] == token[0];
      assert mid == question[i..i + n][1..] == Drop1(token);
      assert question[i + 1..] == mid + tail;
  }
}
