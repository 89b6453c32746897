/**
 * The string operations of JavaScript that the chat pipeline relies on:
 * `indexOf`, `replace` with a string pattern, `split` on one character,
 * `substring(1)`, `String(n)` and `Number(s)` on decimal digits.
 */
module Text {
  import opened Wrappers

  predicate IsLetter(c: char) { 'a' <= c <= 'z' || 'A' <= c <= 'Z' }

  predicate IsDigit(c: char) { '0' <= c <= '9' }

  /** The class `\w` of a JavaScript regular expression. */
  predicate IsWordChar(c: char) { IsLetter(c) || IsDigit(c) || c == '_' }

  predicate AllDigits(s: string) { forall i :: 0 <= i < |s| ==> IsDigit(s[i]) }

  /** `s.substring(1)`: everything after the first character ("" stays ""). */
  function Drop1(s: string): (r: string)
    ensures |s| > 0 ==> s == [s[0]] + r
    ensures |s| == 0 ==> r == ""
  {
    if |s| == 0 then "" else s[1..]
  }

  predicate OccursAt(s: string, pat: string, i: nat)
  {
    i + |pat| <= |s| && s[i..i + |pat|] == pat
  }

  /** `s.indexOf(pat, i)`, with `None` for -1. */
  function IndexFrom(s: string, pat: string, i: nat): (r: Option<nat>)
    requires i <= |s|
    decreases |s| - i
    ensures r.Some? ==> i <= r.value && OccursAt(s, pat, r.value)
    ensures r.Some? ==> forall j :: i <= j < r.value ==> !OccursAt(s, pat, j)
    ensures r.None? ==> forall j :: i <= j ==> !OccursAt(s, pat, j)
  {
    if i + |pat| > |s| then None
    else if s[i..i + |pat|] == pat then Some(i)
    else IndexFrom(s, pat, i + 1)
  }

  function IndexOf(s: string, pat: string): Option<nat>
  {
    IndexFrom(s, pat, 0)
  }

  /** `s.replace(pat, rep)` with a string pattern: only the first occurrence is replaced. */
  function ReplaceFirst(s: string, pat: string, rep: string): string
  {
    match IndexOf(s, pat)
    case None => s
    case Some(i) => s[..i] + rep + s[i + |pat|..]
  }

  /** `s.split(sep)` for a one-character separator. */
  function Split(s: string, sep: char): (r: seq<string>)
    decreases |s|
    ensures |r| >= 1
    ensures forall k :: 0 <= k < |r| ==> sep !in r[k]
  {
    match IndexOf(s, [sep])
    case None =>
      assert forall j :: 0 <= j < |s| ==> s[j] != sep by {
        forall j | 0 <= j < |s| ensures s[j] != sep {
          assert !OccursAt(s, [sep], j);
          assert s[j..j + 1] == [s[j]];
        }
      }
      [s]
    case Some(i) =>
      assert forall j :: 0 <= j < i ==> s[j..j + 1] == [s[j]] && !OccursAt(s, [sep], j);
      [s[..i]] + Split(s[i + 1..], sep)
  }

  /** The first occurrence of a character is the one after a prefix free of it. */
  lemma IndexOfFirstChar(a: string, c: char, b: string)
    requires c !in a
    ensures IndexOf(a + [c] + b, [c]) == Some(|a|)
  {
    var s := a + [c] + b;
    assert OccursAt(s, [c], |a|);
    forall j | 0 <= j < |a| ensures !OccursAt(s, [c], j) {
      assert s[j..j + 1] == [a[j]];
    }
  }

  lemma SplitCons(a: string, sep: char, b: string)
    requires sep !in a
    ensures Split(a + [sep] + b, sep) == [a] + Split(b, sep)
  {
    var s := a + [sep] + b;
    IndexOfFirstChar(a, sep, b);
    assert s[..|a|] == a && s[|a| + 1..] == b;
  }

  lemma {:induction false} SplitNoSep(s: string, sep: char)
    requires sep !in s
    ensures Split(s, sep) == [s]
  {
    forall j | 0 <= j < |s| ensures !OccursAt(s, [sep], j) {
      assert s[j..j + 1] == [s[j]];
    }
    assert IndexOf(s, [sep]).None?;
  }

  // ---- decimal numbers ----

  function DigitChar(d: nat): (c: char)
    requires d < 10
    ensures IsDigit(c)
  {
    ('0' as int + d) as char
  }

  function DigitValue(c: char): (d: nat)
    requires IsDigit(c)
    ensures d < 10
  {
    c as int - '0' as int
  }

  /** The value of a string of decimal digits ("" counts as 0, as `Number("")` does). */
  function Value(s: string): nat
    requires AllDigits(s)
  {
    if s == [] then 0 else 10 * Value(s[..|s| - 1]) + DigitValue(s[|s| - 1])
  }

  /** `String(n)` for a natural number: decimal digits, no leading zero. */
  function NatToString(n: nat): (r: string)
    ensures AllDigits(r) && |r| >= 1
    ensures ' ' !in r && '\n' !in r
  {
    if n < 10 then [DigitChar(n)] else NatToString(n / 10) + [DigitChar(n % 10)]
  }

  lemma {:induction false} ValueOfNatToString(n: nat)
    ensures Value(NatToString(n)) == n
  {
    var r := NatToString(n);
    if n >= 10 {
      ValueOfNatToString(n / 10);
      assert r[..|r| - 1] == NatToString(n / 10);
    }
  }

  /**
   * `Number(s)` restricted to what a disambiguation answer can be: a run of
   * decimal digits (empty gives 0). Anything else is `NaN`, shown as `None`.
   */
  function ParseNumber(s: string): (r: Option<nat>)
    ensures r.Some? <==> AllDigits(s)
  {
    if AllDigits(s) then Some(Value(s)) else None
  }

  /** A non-empty digit string without a leading zero is at least 1. */
  lemma {:induction false} ValuePositive(s: string)
    requires AllDigits(s) && s != [] && s[0] != '0'
    ensures Value(s) >= 1
  {
    if |s| > 1 {
      ValuePositive(s[..|s| - 1]);
    }
  }
}
