/**
 * The webview's filter for a disambiguation answer (`validateInput`): it
 * keeps the digits of the field in order, skips leading zeros, and takes a
 * digit only while the number typed so far stays at most `maximumVal`, the
 * number of candidates. `maximumVal` is a small count, so `parseInt` is exact
 * on every value it is compared with.
 */
module AnswerFilter {
  import opened Text

  /** One match of the global `[0-9]` search: the digit `c` offered to `valid`. */
  function Offer(valid: string, c: char, maximumVal: nat): string
    requires AllDigits(valid)
  {
    if !IsDigit(c) then valid
    else if valid == [] && c == '0' then valid
    else if Value(valid + [c]) <= maximumVal then valid + [c]
    else valid
  }

  /** What the filter keeps of `n`. */
  function Filter(n: string, maximumVal: nat): (r: string)
    ensures AllDigits(r)
  {
    if n == [] then ""
    else
      var valid := Filter(n[..|n| - 1], maximumVal);
      var r := Offer(valid, n[|n| - 1], maximumVal);
      assert AllDigits(r) by { assert r == valid || r == valid + [n[|n| - 1]]; }
      r
  }

  /** `validateInput(n)` with the webview's `maximumVal`. */
  method ValidateInput(n: string, maximumVal: nat) returns (valid: string)
    ensures valid == Filter(n, maximumVal)
  {
    valid := "";
    var i := 0;
    while i < |n|
      invariant 0 <= i <= |n|
      invariant valid == Filter(n[..i], maximumVal)
    {
      assert n[..i + 1][..i] == n[..i];
      var c := n[i];
      i := i + 1;
      if !IsDigit(c) {
        continue;
      }
      if |valid| == 0 && c == '0' {
        continue;
      } else {
        var tempVal := valid + [c];
        if Value(tempVal) <= maximumVal {
          valid := tempVal;
        }
      }
    }
    assert n[..|n|] == n;
  }

  /** The digits of `n`, in order. */
  function Digits(n: string): (r: string)
    ensures AllDigits(r)
  {
    if n == [] then ""
    else Digits(n[..|n| - 1]) + (if IsDigit(n[|n| - 1]) then [n[|n| - 1]] else [])
  }

  /** `a` is a subsequence of `b`: `b` with some characters deleted. */
  predicate Subsequence(a: string, b: string)
    decreases |b|
  {
    if a == [] then true
    else if b == [] then false
    else if a[|a| - 1] == b[|b| - 1] then Subsequence(a[..|a| - 1], b[..|b| - 1])
    else Subsequence(a, b[..|b| - 1])
  }

  lemma {:induction false} SubsequenceDropLast(a: string, b: string)
    requires a != [] && Subsequence(a, b)
    ensures Subsequence(a[..|a| - 1], b)
    decreases |b|, 0
  {
    if b != [] {
      var a' := a[..|a| - 1];
      if a[|a| - 1] == b[|b| - 1] {
        SubsequenceExtend(a', b[..|b| - 1], b[|b| - 1]);
        assert b[..|b| - 1] + [b[|b| - 1]] == b;
      } else {
        SubsequenceDropLast(a, b[..|b| - 1]);
        SubsequenceExtend(a', b[..|b| - 1], b[|b| - 1]);
        assert b[..|b| - 1] + [b[|b| - 1]] == b;
      }
    }
  }

  lemma {:induction false} SubsequenceExtend(a: string, b: string, c: char)
    requires Subsequence(a, b)
    ensures Subsequence(a, b + [c])
    decreases |b|, 1
  {
    if a != [] {
      var b' := b + [c];
      assert b'[..|b'| - 1] == b;
      if a[|a| - 1] == c {
        SubsequenceDropLast(a, b);
      }
    }
  }

  /** The filter returns digits of its input, in input order. */
  lemma {:induction false} FilterSubsequence(n: string, maximumVal: nat)
    ensures Subsequence(Filter(n, maximumVal), Digits(n))
  {
    if n != [] {
      var n' := n[..|n| - 1];
      var c := n[|n| - 1];
      FilterSubsequence(n', maximumVal);
      var valid := Filter(n', maximumVal);
      if IsDigit(c) {
        var d := Digits(n');
        assert Digits(n) == d + [c];
        if Filter(n, maximumVal) == valid + [c] {
          assert (valid + [c])[..|valid|] == valid && (d + [c])[..|d|] == d;
        } else {
          SubsequenceExtend(valid, d, c);
        }
      } else {
        assert Digits(n) == Digits(n') + [];
        assert Digits(n) == Digits(n');
      }
    }
  }

  /** The result never starts with `0`. */
  lemma {:induction false} FilterNoLeadingZero(n: string, maximumVal: nat)
    ensures Filter(n, maximumVal) == [] || Filter(n, maximumVal)[0] != '0'
  {
    if n != [] {
      FilterNoLeadingZero(n[..|n| - 1], maximumVal);
    }
  }

  /** The result is empty or a number at most `maximumVal`. */
  lemma {:induction false} FilterBounded(n: string, maximumVal: nat)
    ensures Filter(n, maximumVal) == [] || Value(Filter(n, maximumVal)) <= maximumVal
  {
    if n != [] {
      FilterBounded(n[..|n| - 1], maximumVal);
    }
  }

  /** With no candidates (`maximumVal` 0) nothing gets through. */
  lemma {:induction false} FilterZero(n: string)
    ensures Filter(n, 0) == ""
  {
    if n != [] {
      var valid := Filter(n[..|n| - 1], 0);
      FilterZero(n[..|n| - 1]);
      var c := n[|n| - 1];
      if IsDigit(c) && c != '0' {
        assert Value([] + [c]) == DigitValue(c) > 0 by { assert ([] + [c])[..0] == []; }
      }
    }
  }

  /** A digit after the kept prefix is dropped exactly when taking it would exceed `maximumVal`. */
  lemma FilterStep(n: string, c: char, maximumVal: nat)
    requires IsDigit(c) && !(Filter(n, maximumVal) == [] && c == '0')
    ensures Filter(n + [c], maximumVal) == Filter(n, maximumVal) + [c] <==> Value(Filter(n, maximumVal) + [c]) <= maximumVal
    ensures Filter(n + [c], maximumVal) == Filter(n, maximumVal) <==> Value(Filter(n, maximumVal) + [c]) > maximumVal
  {
    assert (n + [c])[..|n|] == n;
    var v := Filter(n, maximumVal);
    assert v + [c] != v by { assert |v + [c]| != |v|; }
  }

  lemma {:induction false} ValuePrefix(s: string, i: nat)
    requires AllDigits(s) && i <= |s|
    ensures Value(s[..i]) <= Value(s)
    decreases |s|
  {
    if i < |s| {
      ValuePrefix(s[..|s| - 1], i);
      assert s[..|s| - 1][..i] == s[..i];
    } else {
      assert s[..i] == s;
    }
  }

  /** Re-filtering the field on every edit changes nothing once it is filtered. */
  lemma FilterIdempotent(n: string, maximumVal: nat)
    ensures Filter(Filter(n, maximumVal), maximumVal) == Filter(n, maximumVal)
  {
    var r := Filter(n, maximumVal);
    FilterNoLeadingZero(n, maximumVal);
    FilterBounded(n, maximumVal);
    FilterPrefixes(r, |r|, maximumVal);
    assert r[..|r|] == r;
  }

  lemma {:induction false} FilterPrefixes(r: string, i: nat, maximumVal: nat)
    requires AllDigits(r) && i <= |r|
    requires r == [] || (r[0] != '0' && Value(r) <= maximumVal)
    ensures Filter(r[..i], maximumVal) == r[..i]
  {
    if i > 0 {
      FilterPrefixes(r, i - 1, maximumVal);
      var p, v, c := r[..i], r[..i - 1], r[i - 1];
      assert p[..i - 1] == v && p[i - 1] == c && v + [c] == p;
      assert Filter(p, maximumVal) == Offer(v, c, maximumVal);
      assert !(v == [] && c == '0') by {
        if i == 1 {
          assert c == r[0];
        }
      }
      ValuePrefix(r, i);
      assert Value(v + [c]) <= maximumVal;
    }
  }
}
