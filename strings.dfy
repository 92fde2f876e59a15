/**
 * The string operations the acquisition core relies on, with Python's
 * semantics: substring test (`m in s`), `str.split(sep)` with a non-empty
 * separator, and the subset of `float(text)` that reads plain decimals.
 */
module Strings {
  import opened Wrappers

  /** `m` occurs in `s` starting at index `i`. */
  predicate OccursAt(s: string, m: string, i: nat)
  {
    i + |m| <= |s| && s[i..i + |m|] == m
  }

  /** Python's `m in s`. */
  predicate Contains(s: string, m: string)
  {
    exists i: nat :: i <= |s| && OccursAt(s, m, i)
  }

  /** The first occurrence of `m` in `s` at or after `i`. */
  function FindFrom(s: string, m: string, i: nat): (r: Option<nat>)
    requires i <= |s|
    decreases |s| - i
    ensures r.Some? ==> i <= r.value <= |s| && OccursAt(s, m, r.value)
    ensures r.Some? ==> forall j: nat :: i <= j < r.value ==> !OccursAt(s, m, j)
    ensures r.None? ==> forall j: nat :: i <= j ==> !OccursAt(s, m, j)
  {
    if OccursAt(s, m, i) then Some(i)
    else if i == |s| then None
    else FindFrom(s, m, i + 1)
  }

  /** Python's `s.find(m)`, with None for -1. */
  function Find(s: string, m: string): (r: Option<nat>)
    ensures r.Some? <==> Contains(s, m)
    ensures r.Some? ==> OccursAt(s, m, r.value)
    ensures r.Some? ==> forall j: nat :: j < r.value ==> !OccursAt(s, m, j)
  {
    FindFrom(s, m, 0)
  }

  lemma OccursInPrefix(s: string, m: string, i: nat, j: nat)
    requires i <= |s| && OccursAt(s[..i], m, j)
    ensures OccursAt(s, m, j)
  {
    assert s[..i][j..j + |m|] == s[j..j + |m|];
  }

  /** A prefix of a text free of `m` is free of `m`. */
  lemma NoOccurrenceInPrefix(s: string, m: string, n: nat)
    requires !Contains(s, m) && n <= |s|
    ensures !Contains(s[..n], m)
  {
    forall j: nat | j <= n ensures !OccursAt(s[..n], m, j) {
      if OccursAt(s[..n], m, j) { OccursInPrefix(s, m, n, j); }
    }
  }

  /** Glues `parts` back together with `sep` between neighbours (Python's `sep.join`). */
  function Join(parts: seq<string>, sep: string): string
    requires |parts| >= 1
  {
    if |parts| == 1 then parts[0] else parts[0] + sep + Join(parts[1..], sep)
  }

  /**
   * Python's `s.split(sep)` for a non-empty separator: the pieces between
   * the non-overlapping occurrences of `sep`, scanning left to right.
   */
  function Split(s: string, sep: string): (parts: seq<string>)
    requires sep != []
    decreases |s|
    ensures |parts| >= 1 && |parts[0]| <= |s| && parts[0] == s[..|parts[0]|]
    ensures Join(parts, sep) == s
    ensures forall k :: 0 <= k < |parts| ==> !Contains(parts[k], sep)
    ensures |parts| >= 2 <==> Contains(s, sep)
  {
    match Find(s, sep)
    case None => [s]
    case Some(i) =>
      var head, rest := s[..i], Split(s[i + |sep|..], sep);
      assert !Contains(head, sep) by {
        forall j: nat | j <= |head| ensures !OccursAt(head, sep, j) {
          if OccursAt(head, sep, j) { OccursInPrefix(s, sep, i, j); }
        }
      }
      assert s == head + sep + s[i + |sep|..];
      [head] + rest
  }

  /** The first piece of a split is the text before the first separator. */
  lemma SplitHead(s: string, sep: string)
    requires sep != [] && Contains(s, sep)
    ensures var i := Find(s, sep).value; Split(s, sep)[0] == s[..i] && Split(s, sep)[1..] == Split(s[i + |sep|..], sep)
  {
  }

  /** The first piece of a split ends at the end of the text or where a separator starts. */
  lemma SplitStop(s: string, sep: string)
    requires sep != []
    ensures var p := Split(s, sep)[0]; |p| == |s| || OccursAt(s, sep, |p|)
  {
    if Contains(s, sep) {
      SplitHead(s, sep);
    }
  }

  // ---------------------------------------------------------------------
  // Whitespace and decimal numbers (Python's float() on plain decimals)
  // ---------------------------------------------------------------------

  /** ASCII whitespace as Python's `str.isspace` sees it. */
  predicate IsSpace(c: char)
  {
    c == ' ' || ('\t' <= c <= '\r') || ('\U{1c}' <= c <= '\U{1f}')
  }

  predicate IsDigit(c: char)
  {
    '0' <= c <= '9'
  }

  predicate AllDigits(s: string)
  {
    forall k :: 0 <= k < |s| ==> IsDigit(s[k])
  }

  /** Drops leading whitespace. */
  function StripLeft(s: string): (t: string)
    ensures |t| <= |s| && t == s[|s| - |t|..]
    ensures t == [] || !IsSpace(t[0])
    ensures forall k :: 0 <= k < |s| - |t| ==> IsSpace(s[k])
  {
    if s != [] && IsSpace(s[0]) then StripLeft(s[1..]) else s
  }

  /** Drops trailing whitespace. */
  function StripRight(s: string): (t: string)
    ensures |t| <= |s| && t == s[..|t|]
    ensures t == [] || !IsSpace(t[|t| - 1])
    ensures forall k :: |t| <= k < |s| ==> IsSpace(s[k])
  {
    if s != [] && IsSpace(s[|s| - 1]) then StripRight(s[..|s| - 1]) else s
  }

  /** Python's `s.strip()` restricted to ASCII whitespace. */
  function Strip(s: string): string
  {
    StripRight(StripLeft(s))
  }

  function Pow10(n: nat): (r: nat)
    ensures r >= 1
  {
    if n == 0 then 1 else 10 * Pow10(n - 1)
  }

  function DigitValue(c: char): nat
    requires IsDigit(c)
  {
    (c as int) - ('0' as int)
  }

  /** The number a string of decimal digits denotes (0 for the empty string). */
  function DigitsValue(ds: string): (n: nat)
    requires AllDigits(ds)
    ensures n < Pow10(|ds|)
  {
    if ds == [] then 0 else DigitsValue(ds[..|ds| - 1]) * 10 + DigitValue(ds[|ds| - 1])
  }

  lemma AllDigitsConcat(a: string, b: string)
    requires AllDigits(a) && AllDigits(b)
    ensures AllDigits(a + b)
  {
    forall k | 0 <= k < |a + b| ensures IsDigit((a + b)[k]) {
      if k < |a| { assert (a + b)[k] == a[k]; } else { assert (a + b)[k] == b[k - |a|]; }
    }
  }

  lemma ShiftOnePlace(x: int, p: int, y: int, d: int)
    ensures (x * p + y) * 10 + d == x * (p * 10) + (y * 10 + d)
  {
  }

  /** Reading the digits of `a + b` is reading `a`, shifted by `|b|` places, then `b`. */
  lemma {:induction false} DigitsValueSplit(a: string, b: string)
    requires AllDigits(a) && AllDigits(b)
    ensures AllDigits(a + b) && DigitsValue(a + b) == DigitsValue(a) * Pow10(|b|) + DigitsValue(b)
    decreases |b|
  {
    AllDigitsConcat(a, b);
    if b == [] {
      assert a + b == a;
    } else {
      var ab, b' := a + b, b[..|b| - 1];
      assert ab[..|ab| - 1] == a + b';
      assert ab[|ab| - 1] == b[|b| - 1];
      DigitsValueSplit(a, b');
      var x: int, y: int, p: int, d: int := DigitsValue(a), DigitsValue(b'), Pow10(|b'|), DigitValue(b[|b| - 1]);
      assert DigitsValue(ab) == DigitsValue(a + b') * 10 + d;
      assert DigitsValue(a + b') == x * p + y;
      ShiftOnePlace(x, p, y, d);
      assert Pow10(|b|) == p * 10;
      assert DigitsValue(b) == y * 10 + d;
    }
  }

  /** The value of the digits after a decimal point: "25" is 0.25. */
  function FractionValue(ds: string): (x: real)
    requires AllDigits(ds)
    ensures 0.0 <= x < 1.0
  {
    if ds == [] then 0.0 else (DigitValue(ds[0]) as real + FractionValue(ds[1..])) / 10.0
  }

  /**
   * The unsigned part of a decimal literal: digits, optionally followed by a
   * point and more digits, with at least one digit in all ("7", "7.", ".5", "7.25").
   */
  function ParseUnsigned(s: string): (r: Option<real>)
    ensures r.Some? ==> r.value >= 0.0
  {
    match Find(s, ".")
    case None =>
      if s != [] && AllDigits(s) then Some(DigitsValue(s) as real) else None
    case Some(p) =>
      var whole, frac := s[..p], s[p + 1..];
      if AllDigits(whole) && AllDigits(frac) && |whole| + |frac| > 0
      then Some(DigitsValue(whole) as real + FractionValue(frac))
      else None
  }

  /**
   * Python's `float(text)` on plain decimal literals: surrounding whitespace
   * is ignored, an optional sign is honoured, anything else is a ValueError
   * (None).
   */
  function ParseDecimal(text: string): (r: Option<real>)
  {
    ParseSigned(Strip(text))
  }

  /** An optional sign followed by an unsigned decimal, with no surrounding space. */
  function ParseSigned(t: string): (r: Option<real>)
  {
    if t != [] && (t[0] == '-' || t[0] == '+') then
      match ParseUnsigned(t[1..])
      case None => None
      case Some(x) => Some(if t[0] == '-' then -x else x)
    else ParseUnsigned(t)
  }

  /** A text with no whitespace at either end is left alone by strip. */
  lemma StripUnpadded(t: string)
    requires t != [] && !IsSpace(t[0]) && !IsSpace(t[|t| - 1])
    ensures Strip(t) == t
  {
    assert StripLeft(t) == t;
  }

  /** Digits, a point and digits read as the whole part plus the fraction. */
  lemma {:induction false} ParseUnsignedPoint(w: string, f: string)
    requires AllDigits(w) && AllDigits(f) && |w| + |f| > 0
    ensures ParseUnsigned(w + "." + f) == Some(PointValue(w, f))
  {
    var u := w + "." + f;
    assert u[..|w| + 1][|w|..] == ".";
    assert OccursAt(u, ".", |w|);
    forall j: nat | j < |w| ensures !OccursAt(u, ".", j) {
      assert u[j] == w[j];
    }
    assert Find(u, ".") == Some(|w|);
    assert u[..|w|] == w && u[|w| + 1..] == f;
  }

  /** Digits alone read as the whole number they denote. */
  lemma ParseUnsignedWhole(w: string)
    requires w != [] && AllDigits(w)
    ensures ParseUnsigned(w) == Some(DigitsValue(w) as real)
  {
    assert !Contains(w, ".") by {
      forall i: nat | i <= |w| ensures !OccursAt(w, ".", i) {
        if i < |w| { assert IsDigit(w[i]); }
      }
    }
  }

  /**
   * float() reads a decimal literal with a point (an optional sign, digits,
   * the point, digits, at least one digit in all) as the number it denotes:
   * "120.5", ".5", "7.", "-0.25".
   */
  lemma {:induction false} ParseDecimalOfLiteral(sign: string, w: string, f: string)
    requires sign == "" || sign == "+" || sign == "-"
    requires AllDigits(w) && AllDigits(f) && |w| + |f| > 0
    ensures ParseDecimal(sign + (w + "." + f)) == Some(ApplySign(sign, PointValue(w, f)))
  {
    LiteralEnds(w, f);
    ParseUnsignedPoint(w, f);
    SignedLiteral(sign, w + "." + f, PointValue(w, f));
  }

  /** The value of the literal `w.f`: the whole part plus the fraction. */
  function PointValue(w: string, f: string): real
    requires AllDigits(w) && AllDigits(f)
  {
    DigitsValue(w) as real + FractionValue(f)
  }

  /** `w.f` starts and ends in a digit or the point. */
  lemma LiteralEnds(w: string, f: string)
    requires AllDigits(w) && AllDigits(f)
    ensures var u := w + "." + f;
            && (IsDigit(u[0]) || u[0] == '.') && (IsDigit(u[|u| - 1]) || u[|u| - 1] == '.')
  {
    var u := w + "." + f;
    assert u[0] == if w != [] then w[0] else '.';
    assert u[|u| - 1] == if f != [] then f[|f| - 1] else '.';
  }

  /** float() reads an optionally signed run of digits as that whole number: "-3", "+12". */
  lemma {:induction false} ParseDecimalOfWhole(sign: string, w: string)
    requires sign == "" || sign == "+" || sign == "-"
    requires w != [] && AllDigits(w)
    ensures ParseDecimal(sign + w) == Some(ApplySign(sign, DigitsValue(w) as real))
  {
    ParseUnsignedWhole(w);
    SignedLiteral(sign, w, DigitsValue(w) as real);
  }

  /** The value a sign prefix gives an unsigned number. */
  function ApplySign(sign: string, x: real): real
  {
    if sign == "-" then -x else x
  }

  /** A sign in front of an unsigned literal that starts and ends in a digit or a point. */
  lemma SignedLiteral(sign: string, u: string, x: real)
    requires sign == "" || sign == "+" || sign == "-"
    requires u != [] && (IsDigit(u[0]) || u[0] == '.') && (IsDigit(u[|u| - 1]) || u[|u| - 1] == '.')
    requires ParseUnsigned(u) == Some(x)
    ensures ParseDecimal(sign + u) == Some(ApplySign(sign, x))
  {
    var t := sign + u;
    assert t[|t| - 1] == u[|u| - 1];
    StripUnpadded(t);
    ParseSignedPrefix(sign, u, x);
  }

  /** Without surrounding space, the sign prefix is honoured and the rest read unsigned. */
  lemma ParseSignedPrefix(sign: string, u: string, x: real)
    requires sign == "" || sign == "+" || sign == "-"
    requires u != [] && (IsDigit(u[0]) || u[0] == '.')
    requires ParseUnsigned(u) == Some(x)
    ensures ParseSigned(sign + u) == Some(ApplySign(sign, x))
  {
    var t := sign + u;
    if sign == "" {
      assert t == u;
    } else {
      assert t[0] == sign[0] && t[1..] == u;
    }
  }

  /** float() ignores the whitespace around a number, as after a log marker. */
  lemma {:induction false} ParseDecimalIgnoresSpace(pre: string, text: string, post: string)
    requires AllSpace(pre) && AllSpace(post)
    ensures ParseDecimal(pre + text + post) == ParseDecimal(text)
  {
    StripOuterSpace(pre, text, post);
  }

  predicate AllSpace(s: string)
  {
    forall k :: 0 <= k < |s| ==> IsSpace(s[k])
  }

  lemma {:induction false} StripLeftAppend(x: string, post: string)
    ensures StripLeft(x + post) == if StripLeft(x) == [] then StripLeft(post) else StripLeft(x) + post
    decreases |x|
  {
    if x != [] {
      assert (x + post)[0] == x[0];
      if IsSpace(x[0]) {
        assert (x + post)[1..] == x[1..] + post;
        StripLeftAppend(x[1..], post);
      }
    } else {
      assert x + post == post;
    }
  }

  lemma {:induction false} StripRightAppend(y: string, post: string)
    requires AllSpace(post)
    ensures StripRight(y + post) == StripRight(y)
    decreases |post|
  {
    if post == [] {
      assert y + post == y;
    } else {
      var z := y + post;
      assert z[|z| - 1] == post[|post| - 1];
      assert z[..|z| - 1] == y + post[..|post| - 1];
      StripRightAppend(y, post[..|post| - 1]);
    }
  }

  lemma {:induction false} StripOuterSpace(pre: string, text: string, post: string)
    requires AllSpace(pre) && AllSpace(post)
    ensures Strip(pre + text + post) == Strip(text)
  {
    assert pre + text + post == pre + (text + post);
    StripLeftAppend(pre, text + post);
    StripLeftAppend(text, post);
    if StripLeft(text) != [] {
      StripRightAppend(StripLeft(text), post);
    }
  }
}
