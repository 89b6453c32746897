/**
 * The three regular expressions of the chat client that find `name.ext`
 * tokens, as one parameterised matcher:
 *
 *   TitlePattern     `\\[\[\]a-zA-Z]+\.[a-zA-Z]+`       (file index, extension.js)
 *   MentionPattern   `\B@[\[\]a-zA-Z]+\.[a-zA-Z]+`      (mention scan and transcript
 *                                                         highlighting, extension.js)
 *   HighlightPattern `@[a-zA-Z]+\.[a-zA-Z]+`            (live highlighting, webview.js)
 *
 * `MatchEnd` is the matcher the regex engine amounts to; `IsMatch` is the
 * reference reading of the pattern, and `MatchEndIsLongest` ties the two.
 */
module Tokens {
  import opened Wrappers
  import opened Text

  /**
   * `lead`: the first character; `boundary`: the pattern starts with `\B`
   * (only used with a non-word `lead`, where `\B` means "at the start of the
   * text or after a non-word character"); `brackets`: the name may contain
   * `[` and `]`.
   */
  datatype Pattern = Pattern(lead: char, boundary: bool, brackets: bool)

  const TitlePattern := Pattern('\\', false, true)
  const MentionPattern := Pattern('@', true, true)
  const HighlightPattern := Pattern('@', false, false)

  datatype Span = Span(start: nat, end: nat)

  predicate NameChar(p: Pattern, c: char)
  {
    IsLetter(c) || (p.brackets && (c == '[' || c == ']'))
  }

  /** Characters `i..` that the name class, or the letter class, accepts. */
  predicate AllName(p: Pattern, s: string, i: nat, j: nat)
    requires i <= j <= |s|
  {
    forall k :: i <= k < j ==> NameChar(p, s[k])
  }

  predicate AllLetters(s: string, i: nat, j: nat)
    requires i <= j <= |s|
  {
    forall k :: i <= k < j ==> IsLetter(s[k])
  }

  /** `\B` before `s[i]` (or no assertion at all). */
  predicate BoundaryOk(p: Pattern, s: string, i: nat)
    requires i <= |s|
  {
    !p.boundary || i == 0 || !IsWordChar(s[i - 1])
  }

  /**
   * Reference reading: `s[i..k]` is a match of `p` — the lead, a non-empty
   * name, a dot, a non-empty run of letters.
   */
  ghost predicate IsMatch(p: Pattern, s: string, i: nat, k: nat)
  {
    i < k <= |s| && s[i] == p.lead && BoundaryOk(p, s, i) &&
    exists j :: i + 1 < j < k - 1 && s[j] == '.' && AllName(p, s, i + 1, j) && AllLetters(s, j + 1, k)
  }

  /** The end of the longest run of name characters starting at `i`. */
  function NameRunEnd(p: Pattern, s: string, i: nat): (j: nat)
    requires i <= |s|
    decreases |s| - i
    ensures i <= j <= |s| && AllName(p, s, i, j)
    ensures j < |s| ==> !NameChar(p, s[j])
  {
    if i < |s| && NameChar(p, s[i]) then NameRunEnd(p, s, i + 1) else i
  }

  /** The end of the longest run of letters starting at `i`. */
  function LetterRunEnd(s: string, i: nat): (j: nat)
    requires i <= |s|
    decreases |s| - i
    ensures i <= j <= |s| && AllLetters(s, i, j)
    ensures j < |s| ==> !IsLetter(s[j])
  {
    if i < |s| && IsLetter(s[i]) then LetterRunEnd(s, i + 1) else i
  }

  /**
   * What the regex engine finds when it tries position `i`: the name class
   * excludes `.`, so the only dot that can follow the name is the one after
   * its longest run, and the greedy extension takes every letter after it.
   */
  function MatchEnd(p: Pattern, s: string, i: nat): (r: Option<nat>)
    requires i <= |s|
    ensures r.Some? ==> i + 4 <= r.value <= |s|
  {
    if i >= |s| || s[i] != p.lead || !BoundaryOk(p, s, i) then None
    else
      var j := NameRunEnd(p, s, i + 1);
      if j == i + 1 || j >= |s| || s[j] != '.' then None
      else
        var k := LetterRunEnd(s, j + 1);
        if k == j + 1 then None else Some(k)
  }

  /** `MatchEnd` finds exactly the longest match at `i`, and nothing when there is none. */
  lemma MatchEndIsLongest(p: Pattern, s: string, i: nat)
    requires i <= |s|
    ensures MatchEnd(p, s, i).Some? ==>
      IsMatch(p, s, i, MatchEnd(p, s, i).value) &&
      forall k :: MatchEnd(p, s, i).value < k ==> !IsMatch(p, s, i, k)
    ensures MatchEnd(p, s, i).None? ==> forall k :: !IsMatch(p, s, i, k)
  {
    if i < |s| && s[i] == p.lead && BoundaryOk(p, s, i) {
      var j := NameRunEnd(p, s, i + 1);
      forall k: nat | IsMatch(p, s, i, k)
        ensures MatchEnd(p, s, i).Some? && k <= MatchEnd(p, s, i).value
      {
        MatchShape(p, s, i, k);
      }
      if MatchEnd(p, s, i).Some? {
        var k := MatchEnd(p, s, i).value;
        assert i + 1 < j < k - 1 && s[j] == '.' && AllName(p, s, i + 1, j) && AllLetters(s, j + 1, k);
      }
    }
  }

  /** A match at `i` has its dot where the name run ends, and ends within the letter run after it. */
  lemma MatchShape(p: Pattern, s: string, i: nat, k: nat)
    requires IsMatch(p, s, i, k)
    ensures var j := NameRunEnd(p, s, i + 1);
      j < |s| && s[j] == '.' && i + 1 < j && k <= LetterRunEnd(s, j + 1)
  {
    var j := NameRunEnd(p, s, i + 1);
    var j' :| i + 1 < j' < k - 1 && s[j'] == '.' && AllName(p, s, i + 1, j') && AllLetters(s, j' + 1, k);
    assert !NameChar(p, s[j']);
    assert j' >= j;
    assert j < |s| && !NameChar(p, s[j]);
    assert j >= j';
    var e := LetterRunEnd(s, j + 1);
    assert e < |s| ==> !IsLetter(s[e]);
    assert k <= e;
  }

  /** `regex.exec` from `lastIndex = i`: the leftmost match starting at or after `i`. */
  function FirstMatch(p: Pattern, s: string, i: nat): (r: Option<Span>)
    requires i <= |s|
    decreases |s| - i
    ensures r.Some? ==> i <= r.value.start < |s| && MatchEnd(p, s, r.value.start) == Some(r.value.end)
    ensures r.Some? ==> forall j :: i <= j < r.value.start ==> MatchEnd(p, s, j).None?
    ensures r.None? ==> forall j :: i <= j <= |s| ==> MatchEnd(p, s, j).None?
  {
    if i == |s| then None
    else match MatchEnd(p, s, i)
      case Some(k) => Some(Span(i, k))
      case None => FirstMatch(p, s, i + 1)
  }

  /** The spans a global `match` or `replace` visits: left to right, not overlapping. */
  function Spans(p: Pattern, s: string, i: nat): (r: seq<Span>)
    requires i <= |s|
    decreases |s| - i
    ensures forall n :: 0 <= n < |r| ==> i <= r[n].start < r[n].end <= |s|
  {
    match FirstMatch(p, s, i)
    case None => []
    case Some(sp) => [sp] + Spans(p, s, sp.end)
  }

  /** `s.match(p)` with the global flag; an empty result stands for `null`. */
  function Matches(p: Pattern, s: string): (r: seq<string>)
  {
    var sp := Spans(p, s, 0);
    seq(|sp|, n requires 0 <= n < |sp| => s[sp[n].start..sp[n].end])
  }

  /** Every match is a token of the pattern that begins with its lead character. */
  lemma {:induction false} SpansAreMatches(p: Pattern, s: string, i: nat)
    requires i <= |s|
    ensures forall n :: 0 <= n < |Spans(p, s, i)| ==>
      MatchEnd(p, s, Spans(p, s, i)[n].start) == Some(Spans(p, s, i)[n].end)
    ensures forall n :: 0 < n < |Spans(p, s, i)| ==> Spans(p, s, i)[n - 1].end <= Spans(p, s, i)[n].start
    decreases |s| - i
  {
    match FirstMatch(p, s, i)
    case None =>
    case Some(sp) =>
      SpansAreMatches(p, s, sp.end);
  }

  /**
   * The global search misses nothing: every position where a match starts
   * lies within one of the spans found, either as its start or inside an
   * earlier match that the search consumed.
   */
  lemma {:induction false} SpansComplete(p: Pattern, s: string, i: nat, j: nat)
    requires i <= j <= |s| && MatchEnd(p, s, j).Some?
    ensures exists n :: 0 <= n < |Spans(p, s, i)| && Spans(p, s, i)[n].start <= j < Spans(p, s, i)[n].end
    decreases |s| - i
  {
    match FirstMatch(p, s, i)
    case None =>
      assert false;
    case Some(sp) =>
      var r := Spans(p, s, i);
      assert r == [sp] + Spans(p, s, sp.end);
      if j < sp.end {
        assert r[0].start <= j < r[0].end;
      } else {
        SpansComplete(p, s, sp.end, j);
        var n :| 0 <= n < |Spans(p, s, sp.end)| && Spans(p, s, sp.end)[n].start <= j < Spans(p, s, sp.end)[n].end;
        assert r[n + 1] == Spans(p, s, sp.end)[n];
      }
  }

  /** Text without the lead character holds no token. */
  lemma NoLeadNoMatches(p: Pattern, s: string)
    requires p.lead !in s
    ensures Matches(p, s) == []
  {
    assert forall j :: 0 <= j <= |s| ==> MatchEnd(p, s, j).None?;
  }

  // ---- highlighting ----

  const OpenTag := "<code>"
  const CloseTag := "</code>"

  /** `s.replace(p, m => "<code>" + m + "</code>")` from position `i` on. */
  function HighlightFrom(p: Pattern, s: string, i: nat): string
    requires i <= |s|
    decreases |s| - i
  {
    if i == |s| then ""
    else match MatchEnd(p, s, i)
      case Some(k) => OpenTag + s[i..k] + CloseTag + HighlightFrom(p, s, k)
      case None => [s[i]] + HighlightFrom(p, s, i + 1)
  }

  function Highlight(p: Pattern, s: string): string
  {
    HighlightFrom(p, s, 0)
  }

  /** Deletes every `<code>` and `</code>` tag. */
  function RemoveTags(t: string): string
    decreases |t|
  {
    if |t| == 0 then ""
    else if |t| >= 6 && t[..6] == OpenTag then RemoveTags(t[6..])
    else if |t| >= 7 && t[..7] == CloseTag then RemoveTags(t[7..])
    else [t[0]] + RemoveTags(t[1..])
  }

  lemma {:induction false} RemoveTagsPlain(a: string, b: string)
    requires '<' !in a
    ensures RemoveTags(a + b) == a + RemoveTags(b)
    decreases |a|
  {
    if a != [] {
      var t := a + b;
      assert t[0] == a[0] && t[0] != '<';
      assert OpenTag[0] == '<' && CloseTag[0] == '<';
      assert |t| >= 6 ==> t[..6][0] == t[0];
      assert |t| >= 7 ==> t[..7][0] == t[0];
      assert t[1..] == a[1..] + b;
      assert !(|t| >= 6 && t[..6] == OpenTag) by { assert |t| >= 6 ==> t[..6][0] != OpenTag[0]; }
      assert !(|t| >= 7 && t[..7] == CloseTag) by { assert |t| >= 7 ==> t[..7][0] != CloseTag[0]; }
      assert RemoveTags(t) == [t[0]] + RemoveTags(t[1..]);
      RemoveTagsPlain(a[1..], b);
      assert [a[0]] + a[1..] == a;
      assert RemoveTags(t) == [a[0]] + (a[1..] + RemoveTags(b));
      assert [a[0]] + (a[1..] + RemoveTags(b)) == a + RemoveTags(b);
    } else {
      assert a + b == b;
    }
  }

  lemma RemoveTagsWrapped(m: string, rest: string)
    requires '<' !in m
    ensures RemoveTags(OpenTag + m + CloseTag + rest) == m + RemoveTags(rest)
  {
    var t := OpenTag + m + CloseTag + rest;
    var u := CloseTag + rest;
    assert t[..6] == OpenTag && t[6..] == m + u;
    assert RemoveTags(t) == RemoveTags(m + u);
    RemoveTagsPlain(m, u);
    assert u[..7] == CloseTag && u[7..] == rest;
    assert u[..6] != OpenTag by { assert u[..6][1] == '/' && OpenTag[1] == 'c'; }
    assert RemoveTags(u) == RemoveTags(rest);
  }

  /** `t` starts with one of the two tags. */
  predicate StartsWithTag(t: string)
  {
    (|t| >= 6 && t[..6] == OpenTag) || (|t| >= 7 && t[..7] == CloseTag)
  }

  /** Neither `<code>` nor `</code>` occurs in `s`. */
  predicate NoTags(s: string)
  {
    forall j :: 0 <= j < |s| ==> !StartsWithTag(s[j..])
  }

  /** Up to the next match, highlighting copies the text. */
  lemma {:induction false} HighlightFromCopies(p: Pattern, s: string, i: nat, j: nat)
    requires i <= j <= |s|
    requires forall l :: i <= l < j ==> MatchEnd(p, s, l).None?
    ensures HighlightFrom(p, s, i) == s[i..j] + HighlightFrom(p, s, j)
    decreases j - i
  {
    if i < j {
      HighlightFromCopies(p, s, i + 1, j);
      CopyOne(p, s, i);
      var rest := HighlightFrom(p, s, j);
      assert s[i..j] == [s[i]] + s[i + 1..j];
      assert [s[i]] + (s[i + 1..j] + rest) == s[i..j] + rest;
    }
  }

  lemma CopyOne(p: Pattern, s: string, i: nat)
    requires i < |s| && MatchEnd(p, s, i).None?
    ensures HighlightFrom(p, s, i) == [s[i]] + HighlightFrom(p, s, i + 1)
  {
  }

  /** Whether a text starts with a tag is decided by its first seven characters. */
  lemma TagPrefix(a: string, b: string)
    requires |a| >= 7
    ensures StartsWithTag(a + b) <==> StartsWithTag(a)
  {
    assert (a + b)[..6] == a[..6] && (a + b)[..7] == a[..7];
  }

  /** A `<` at offset 1 to 6 rules out both tags, unless the first six characters are `<code>`. */
  lemma NoTagBeforeOpen(a: string, b: string)
    requires 1 <= |a| <= 6 && |b| > 0 && b[0] == '<'
    requires |a| == 6 ==> a != OpenTag
    ensures !StartsWithTag(a + b)
  {
    var t := a + b;
    assert t[|a|] == '<';
    assert forall n :: 1 <= n < 6 ==> OpenTag[n] != '<';
    assert forall n :: 1 <= n < 7 ==> CloseTag[n] != '<';
    if |a| == 6 {
      assert t[..6] == a;
    }
  }

  /**
   * Where no match starts, the highlighted text does not start with a tag:
   * its first characters are the text's own, up to a `<code>` inserted for
   * a later match, and neither tag has a `<` after its first character.
   */
  lemma HighlightFromHead(p: Pattern, s: string, i: nat)
    requires i < |s| && NoTags(s) && MatchEnd(p, s, i).None?
    ensures !StartsWithTag(HighlightFrom(p, s, i))
  {
    var e := if i + 7 <= |s| then i + 7 else |s|;
    var j := match FirstMatch(p, s, i + 1)
      case Some(sp) => if sp.start < e then sp.start else e
      case None => e;
    assert forall l :: i <= l < j ==> MatchEnd(p, s, l).None?;
    HighlightFromCopies(p, s, i, j);
    assert !StartsWithTag(s[i..]);
    if j < e {
      HeadBeforeMatch(p, s, i, j);
    } else if e == |s| {
      assert HighlightFrom(p, s, i) == s[i..] + "";
    } else {
      HeadCopied(p, s, i);
    }
  }

  lemma HeadBeforeMatch(p: Pattern, s: string, i: nat, j: nat)
    requires i < j < |s| && j <= i + 6 && MatchEnd(p, s, j).Some? && !StartsWithTag(s[i..])
    requires HighlightFrom(p, s, i) == s[i..j] + HighlightFrom(p, s, j)
    ensures !StartsWithTag(HighlightFrom(p, s, i))
  {
    OpensTag(p, s, j);
    if j - i == 6 {
      TagPrefix(s[i..j] + [s[j]], s[j + 1..]);
      assert s[i..] == s[i..j] + [s[j]] + s[j + 1..];
      assert s[i..j] != OpenTag by { assert (s[i..j] + [s[j]])[..6] == s[i..j]; }
    }
    NoTagBeforeOpen(s[i..j], HighlightFrom(p, s, j));
  }

  lemma OpensTag(p: Pattern, s: string, j: nat)
    requires j < |s| && MatchEnd(p, s, j).Some?
    ensures |HighlightFrom(p, s, j)| > 0 && HighlightFrom(p, s, j)[0] == '<'
  {
    var k := MatchEnd(p, s, j).value;
    assert HighlightFrom(p, s, j) == OpenTag + s[j..k] + CloseTag + HighlightFrom(p, s, k);
  }

  lemma HeadCopied(p: Pattern, s: string, i: nat)
    requires i + 7 <= |s| && !StartsWithTag(s[i..])
    requires HighlightFrom(p, s, i) == s[i..i + 7] + HighlightFrom(p, s, i + 7)
    ensures !StartsWithTag(HighlightFrom(p, s, i))
  {
    TagPrefix(s[i..i + 7], HighlightFrom(p, s, i + 7));
    TagPrefix(s[i..i + 7], s[i + 7..]);
    assert s[i..] == s[i..i + 7] + s[i + 7..];
  }

  lemma {:induction false} HighlightFromRoundTrip(p: Pattern, s: string, i: nat)
    requires i <= |s| && p.lead != '<' && NoTags(s)
    ensures RemoveTags(HighlightFrom(p, s, i)) == s[i..]
    decreases |s| - i
  {
    if i < |s| {
      match MatchEnd(p, s, i)
      case Some(k) =>
        HighlightFromRoundTrip(p, s, k);
        var j := NameRunEnd(p, s, i + 1);
        assert s[j] == '.' && k == LetterRunEnd(s, j + 1);
        assert forall l :: i <= l < k ==> s[l] != '<';
        assert '<' !in s[i..k];
        RemoveTagsWrapped(s[i..k], HighlightFrom(p, s, k));
        assert s[i..] == s[i..k] + s[k..];
      case None =>
        HighlightFromRoundTrip(p, s, i + 1);
        HighlightFromHead(p, s, i);
        var h := HighlightFrom(p, s, i);
        assert h == [s[i]] + HighlightFrom(p, s, i + 1);
        assert RemoveTags(h) == [h[0]] + RemoveTags(h[1..]);
        assert s[i..] == [s[i]] + s[i + 1..];
    }
  }

  /**
   * Deleting the inserted tags gives back the original text, for every
   * text that does not itself contain one of the tags (a lone `<`, as in
   * `List<T>`, is fine); the leads of the three patterns are not `<`.
   */
  lemma HighlightRoundTrip(p: Pattern, s: string)
    requires p.lead != '<' && NoTags(s)
    ensures RemoveTags(Highlight(p, s)) == s
  {
    HighlightFromRoundTrip(p, s, 0);
  }

  /** The webview's pattern, which has no `\B`, finds a token right after a word character... */
  lemma HighlightAfterWord()
    ensures Matches(HighlightPattern, "x@foo.ts") == ["@foo.ts"]
  {
    var s, p := "x@foo.ts", HighlightPattern;
    assert NameRunEnd(p, s, 2) == 5;
    assert LetterRunEnd(s, 6) == 8;
    assert MatchEnd(p, s, 0) == None && MatchEnd(p, s, 1) == Some(8);
    assert FirstMatch(p, s, 0) == Some(Span(1, 8));
    assert Spans(p, s, 8) == [];
    assert s[1..8] == "@foo.ts";
  }

  /** ...and wraps it in the tags. */
  lemma HighlightMarksToken()
    ensures Highlight(HighlightPattern, "x@foo.ts") == "x<code>@foo.ts</code>"
  {
    var s, p := "x@foo.ts", HighlightPattern;
    assert NameRunEnd(p, s, 2) == 5;
    assert LetterRunEnd(s, 6) == 8;
    assert MatchEnd(p, s, 0) == None && MatchEnd(p, s, 1) == Some(8);
    assert s[1..8] == "@foo.ts";
    assert HighlightFrom(p, s, 8) == "";
    assert HighlightFrom(p, s, 1) == OpenTag + "@foo.ts" + CloseTag;
    assert HighlightFrom(p, s, 0) == "x" + HighlightFrom(p, s, 1);
  }

  /** The extension's mention pattern does not match that token: `\B` fails between `x` and `@`. */
  lemma MentionNeedsBoundary()
    ensures Matches(MentionPattern, "x@foo.ts") == []
  {
    var s := "x@foo.ts";
    assert !BoundaryOk(MentionPattern, s, 1);
    assert forall j :: 0 <= j <= |s| ==> MatchEnd(MentionPattern, s, j).None?;
  }

  /** After a space, a mention is found... */
  lemma SummarizeMatches()
    ensures Matches(MentionPattern, "Summarize @foo.ts") == ["@foo.ts"]
  {
    var s := "Summarize @foo.ts";
    SummarizeSpans();
    var r := Matches(MentionPattern, s);
    assert |r| == 1 && r[0] == s[10..17];
    assert s[10..17] == "@foo.ts";
  }

  lemma SummarizeSpans()
    ensures Spans(MentionPattern, "Summarize @foo.ts", 0) == [Span(10, 17)]
  {
    var s, p := "Summarize @foo.ts", MentionPattern;
    SummarizeToken();
    assert FirstMatch(p, s, 0) == Some(Span(10, 17));
    assert Spans(p, s, 17) == [];
  }

  /** ...from its `@` to the end of the extension. */
  lemma SummarizeToken()
    ensures MatchEnd(MentionPattern, "Summarize @foo.ts", 10) == Some(17)
    ensures forall j :: 0 <= j < 10 ==> MatchEnd(MentionPattern, "Summarize @foo.ts", j).None?
  {
    var s, p := "Summarize @foo.ts", MentionPattern;
    assert NameRunEnd(p, s, 11) == 14;
    assert LetterRunEnd(s, 15) == 17;
  }

  /** `Fix @bar.ts` holds the single mention `@bar.ts`. */
  lemma FixMatches()
    ensures Matches(MentionPattern, "Fix @bar.ts") == ["@bar.ts"]
  {
    var s := "Fix @bar.ts";
    FixSpans();
    var r := Matches(MentionPattern, s);
    assert |r| == 1 && r[0] == s[4..11];
    assert s[4..11] == "@bar.ts";
  }

  lemma FixSpans()
    ensures Spans(MentionPattern, "Fix @bar.ts", 0) == [Span(4, 11)]
  {
    var s, p := "Fix @bar.ts", MentionPattern;
    FixToken();
    assert FirstMatch(p, s, 0) == Some(Span(4, 11));
    assert Spans(p, s, 11) == [];
  }

  lemma FixToken()
    ensures MatchEnd(MentionPattern, "Fix @bar.ts", 4) == Some(11)
    ensures forall j :: 0 <= j < 4 ==> MatchEnd(MentionPattern, "Fix @bar.ts", j).None?
  {
    var s, p := "Fix @bar.ts", MentionPattern;
    assert NameRunEnd(p, s, 5) == 8;
    assert LetterRunEnd(s, 9) == 11;
  }

  lemma {:induction false} HighlightFromNoMatch(p: Pattern, s: string, i: nat)
    requires i <= |s|
    requires forall j :: i <= j <= |s| ==> MatchEnd(p, s, j).None?
    ensures HighlightFrom(p, s, i) == s[i..]
    decreases |s| - i
  {
    if i < |s| {
      HighlightFromNoMatch(p, s, i + 1);
      assert s[i..] == [s[i]] + s[i + 1..];
    }
  }

  /** Text with no match is returned unchanged. */
  lemma HighlightNoMatch(p: Pattern, s: string)
    requires Matches(p, s) == []
    ensures Highlight(p, s) == s
  {
    assert FirstMatch(p, s, 0).None?;
    HighlightFromNoMatch(p, s, 0);
  }

  /**
   * Highlighting visits the matches the search finds: the text up to the
   * next match is copied, the match is wrapped in the tags and highlighting
   * goes on after it; with no match left, the rest is copied.
   */
  lemma HighlightFromFirstMatch(p: Pattern, s: string, i: nat)
    requires i <= |s|
    ensures FirstMatch(p, s, i).None? ==> HighlightFrom(p, s, i) == s[i..]
    ensures FirstMatch(p, s, i).Some? ==>
      var sp := FirstMatch(p, s, i).value;
      HighlightFrom(p, s, i) == s[i..sp.start] + OpenTag + s[sp.start..sp.end] + CloseTag + HighlightFrom(p, s, sp.end)
  {
    match FirstMatch(p, s, i)
    case None =>
      HighlightFromNoMatch(p, s, i);
    case Some(sp) =>
      HighlightFromCopies(p, s, i, sp.start);
      var rest := OpenTag + s[sp.start..sp.end] + CloseTag + HighlightFrom(p, s, sp.end);
      assert HighlightFrom(p, s, sp.start) == rest;
      assert s[i..sp.start] + rest == s[i..sp.start] + OpenTag + s[sp.start..sp.end] + CloseTag + HighlightFrom(p, s, sp.end);
  }
}
