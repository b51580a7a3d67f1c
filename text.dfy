/**
 * String helpers shared by the model: Python's `str.strip()`, decimal digit
 * strings, the `decimal.Decimal(str)` constructor, `str.replace` and the
 * comma joins/splits used by the chart parameters.
 */
module Text {
  import opened Wrappers

  /** The characters Python 2's `str.strip()` removes by default. */
  predicate IsSpace(c: char) {
    c == ' ' || c == '\t' || c == '\n' || c == '\r' || c == '\U{000B}' || c == '\U{000C}'
  }

  predicate AllSpace(s: string) {
    forall i :: 0 <= i < |s| ==> IsSpace(s[i])
  }

  predicate NoSpace(s: string) {
    forall i :: 0 <= i < |s| ==> !IsSpace(s[i])
  }

  /** `s.lstrip()`: drops the leading whitespace and nothing else. */
  function TrimLeft(s: string): string
  {
    if s != [] && IsSpace(s[0]) then TrimLeft(s[1..]) else s
  }

  /** `s.rstrip()`: drops the trailing whitespace and nothing else. */
  function TrimRight(s: string): string
  {
    if s != [] && IsSpace(s[|s| - 1]) then TrimRight(s[..|s| - 1]) else s
  }

  /** `s.strip()`: the middle of `s` between its leading and trailing whitespace. */
  function Strip(s: string): string
  {
    TrimRight(TrimLeft(s))
  }

  lemma {:induction false} TrimLeftBlank(s: string)
    ensures AllSpace(TrimLeft(s)) <==> AllSpace(s)
  {
    if s != [] && IsSpace(s[0]) {
      TrimLeftBlank(s[1..]);
      assert AllSpace(s[1..]) ==> AllSpace(s);
    }
  }

  lemma {:induction false} TrimRightBlank(s: string)
    ensures TrimRight(s) == [] <==> AllSpace(s)
  {
    if s != [] && IsSpace(s[|s| - 1]) {
      TrimRightBlank(s[..|s| - 1]);
      assert AllSpace(s[..|s| - 1]) ==> AllSpace(s);
    }
  }

  /** `s.strip() == ''` exactly when `s` is empty or all whitespace. */
  lemma StripBlank(s: string)
    ensures Strip(s) == [] <==> AllSpace(s)
  {
    TrimLeftBlank(s);
    TrimRightBlank(TrimLeft(s));
  }

  /** Text without any whitespace is left alone by `strip()`. */
  lemma StripNoSpace(s: string)
    requires NoSpace(s)
    ensures Strip(s) == s
  {
    if s != [] {
      assert !IsSpace(s[0]) && !IsSpace(s[|s| - 1]);
    }
  }

  predicate StartsWith(s: string, prefix: string) {
    |prefix| <= |s| && s[..|prefix|] == prefix
  }

  /** `s.replace(',', '')`. */
  function RemoveCommas(s: string): (r: string)
    ensures ',' !in r
  {
    if s == [] then []
    else (if s[0] == ',' then [] else [s[0]]) + RemoveCommas(s[1..])
  }

  lemma RemoveCommasNoComma(s: string)
    requires ',' !in s
    ensures RemoveCommas(s) == s
  {
    if s != [] {
      assert s == [s[0]] + s[1..];
      RemoveCommasNoComma(s[1..]);
    }
  }

  // ---------------------------------------------------------------------
  // Decimal digits

  predicate IsDigit(c: char) { '0' <= c <= '9' }

  predicate AllDigits(s: string) {
    forall i :: 0 <= i < |s| ==> IsDigit(s[i])
  }

  function DigitValue(c: char): nat
    requires IsDigit(c)
  {
    c as int - '0' as int
  }

  function DigitChar(d: nat): (c: char)
    requires d < 10
    ensures IsDigit(c) && DigitValue(c) == d
  {
    ('0' as int + d) as char
  }

  /** The number a string of decimal digits denotes (most significant first). */
  function DigitsValue(s: string): nat
    requires AllDigits(s)
  {
    if s == [] then 0 else 10 * DigitsValue(s[..|s| - 1]) + DigitValue(s[|s| - 1])
  }

  /** One more digit on the right: ten times the value, plus the digit. */
  lemma DigitsSnoc(s: string, c: char)
    requires AllDigits(s) && IsDigit(c)
    ensures AllDigits(s + [c]) && DigitsValue(s + [c]) == 10 * DigitsValue(s) + DigitValue(c)
  {
    assert (s + [c])[..|s|] == s;
  }

  /** Python's `str(n)` for a non-negative integer. */
  function NatToString(n: nat): (r: string)
    ensures |r| >= 1 && AllDigits(r)
    ensures |r| > 1 ==> r[0] != '0'
    decreases n
  {
    if n < 10 then [DigitChar(n)] else NatToString(n / 10) + [DigitChar(n % 10)]
  }

  /** Python's `str(i)` (and `'%d' % i`) for any integer. */
  function IntToString(i: int): (r: string)
    ensures r != []
    ensures i >= 0 <==> AllDigits(r)
    ensures i < 0 <==> r[0] == '-'
  {
    if i < 0 then
      var r := "-" + NatToString(-i);
      assert !IsDigit(r[0]);
      r
    else NatToString(i)
  }

  lemma {:induction false} NatToStringRoundTrip(n: nat)
    ensures DigitsValue(NatToString(n)) == n
    decreases n
  {
    if n >= 10 {
      NatToStringRoundTrip(n / 10);
      var s := NatToString(n);
      assert s[..|s| - 1] == NatToString(n / 10);
    }
  }

  /** The longest prefix of `s` made of decimal digits. */
  function DigitPrefix(s: string): (r: string)
    ensures AllDigits(r) && StartsWith(s, r)
    ensures |r| < |s| ==> !IsDigit(s[|r|])
  {
    if s != [] && IsDigit(s[0]) then [s[0]] + DigitPrefix(s[1..]) else []
  }

  lemma DigitPrefixAll(s: string)
    requires AllDigits(s)
    ensures DigitPrefix(s) == s
  {
  }

  /** `\d+` takes exactly the digits before the first non-digit. */
  lemma {:induction false} DigitPrefixStops(digits: string, rest: string)
    requires AllDigits(digits)
    requires rest != [] && !IsDigit(rest[0])
    ensures DigitPrefix(digits + rest) == digits
  {
    if digits != [] {
      assert (digits + rest)[1..] == digits[1..] + rest;
      DigitPrefixStops(digits[1..], rest);
    } else {
      assert digits + rest == rest;
    }
  }

  /** The value of the digits after a decimal point: `0.d1d2...`. */
  function FractionValue(s: string): real
    requires AllDigits(s)
  {
    if s == [] then 0.0 else (DigitValue(s[0]) as real + FractionValue(s[1..])) / 10.0
  }

  /** `x` times ten to the power `e`. */
  function Scale(x: real, e: int): real
    decreases if e < 0 then -e else e
  {
    if e == 0 then x else if e > 0 then 10.0 * Scale(x, e - 1) else Scale(x, e + 1) / 10.0
  }

  /** The exponent of a decimal literal: `e`/`E`, an optional sign and digits. */
  function ParseExponent(s: string): Option<int>
  {
    if s == [] then Some(0)
    else if s[0] != 'e' && s[0] != 'E' then None
    else
      var t := s[1..];
      var neg := t != [] && t[0] == '-';
      var u := if t != [] && (t[0] == '-' || t[0] == '+') then t[1..] else t;
      if u != [] && AllDigits(u) then
        Some(if neg then -(DigitsValue(u) as int) else DigitsValue(u) as int)
      else None
  }

  /** An unsigned decimal literal: digits, an optional fraction, an optional exponent. */
  function ParseUnsigned(s: string): Option<real>
  {
    var whole := DigitPrefix(s);
    var rest := s[|whole|..];
    var hasPoint := rest != [] && rest[0] == '.';
    var frac := if hasPoint then DigitPrefix(rest[1..]) else [];
    var tail := if hasPoint then rest[1 + |frac|..] else rest;
    if |whole| + |frac| == 0 then None
    else
      match ParseExponent(tail)
      case None => None
      case Some(e) =>
        Some(Scale(DigitsValue(whole) as real + FractionValue(frac), e))
  }

  function Negate(v: Option<real>): Option<real>
  {
    match v
    case None => None
    case Some(x) => Some(-x)
  }

  /** A literal with an optional leading sign. */
  function ParseSigned(t: string): Option<real>
  {
    if t != [] && t[0] == '-' then Negate(ParseUnsigned(t[1..]))
    else if t != [] && t[0] == '+' then ParseUnsigned(t[1..])
    else ParseUnsigned(t)
  }

  /**
   * `decimal.Decimal(s)` for finite literals: surrounding whitespace is
   * ignored, an optional sign, then an unsigned literal. `None` stands for
   * the `InvalidOperation` the constructor raises.
   */
  function ParseDecimal(s: string): Option<real>
  {
    ParseSigned(Strip(s))
  }

  lemma ParseUnsignedDigits(s: string)
    requires s != [] && AllDigits(s)
    ensures ParseUnsigned(s) == Some(DigitsValue(s) as real)
  {
    DigitPrefixAll(s);
    assert s[|s|..] == [];
  }

  lemma DigitsNoSpace(s: string)
    requires AllDigits(s)
    ensures NoSpace(s)
  {
  }

  lemma ParseNoSpace(s: string)
    requires NoSpace(s)
    ensures ParseDecimal(s) == ParseSigned(s)
  {
    StripNoSpace(s);
  }

  lemma SignedMinus(s: string, t: string)
    requires s == "-" + t
    ensures ParseSigned(s) == Negate(ParseUnsigned(t))
  {
    assert s[0] == '-';
    assert s[1..] == t;
  }

  lemma MinusNoSpace(t: string)
    requires NoSpace(t)
    ensures NoSpace("-" + t)
  {
    var s := "-" + t;
    forall k | 0 <= k < |s| ensures !IsSpace(s[k]) {
      if k > 0 { assert s[k] == t[k - 1]; }
    }
  }

  /** Text without whitespace and without a leading sign is parsed as an unsigned literal. */
  lemma ParseUnsignedText(t: string)
    requires t != [] && NoSpace(t) && t[0] != '-' && t[0] != '+'
    ensures ParseDecimal(t) == ParseUnsigned(t)
  {
    ParseNoSpace(t);
  }

  /** The same text behind a minus sign parses to the negated value. */
  lemma ParseNegatedText(t: string)
    requires NoSpace(t)
    ensures ParseDecimal("-" + t) == Negate(ParseUnsigned(t))
  {
    MinusNoSpace(t);
    ParseNoSpace("-" + t);
    SignedMinus("-" + t, t);
  }

  lemma NegateSome(x: Option<real>, v: real)
    requires x == Some(v)
    ensures Negate(x) == Some(-v)
  {
  }

  /** A plain digit string, with or without a minus sign, parses to its value. */
  lemma ParseDigits(digits: string)
    requires digits != [] && AllDigits(digits)
    ensures ParseDecimal(digits) == Some(DigitsValue(digits) as real)
    ensures ParseDecimal("-" + digits) == Some(-(DigitsValue(digits) as real))
  {
    ParseUnsignedDigits(digits);
    DigitsNoSpace(digits);
    ParseUnsignedText(digits);
    ParseNegatedText(digits);
    NegateSome(ParseUnsigned(digits), DigitsValue(digits) as real);
  }

  /** Digits, a point and more digits: the whole part plus the fraction. */
  lemma {:induction false} ParsePointed(whole: string, frac: string)
    requires whole != [] && AllDigits(whole) && AllDigits(frac)
    ensures ParseDecimal(whole + "." + frac) == Some(DigitsValue(whole) as real + FractionValue(frac))
  {
    PointedNoSpace(whole, frac);
    ParseUnsignedText(whole + "." + frac);
    UnsignedPointed(whole, frac);
  }

  lemma {:induction false} PointedNoSpace(whole: string, frac: string)
    requires whole != [] && AllDigits(whole) && AllDigits(frac)
    ensures var s := whole + "." + frac; s[0] == whole[0] && NoSpace(s)
  {
    var s := whole + "." + frac;
    forall k | 0 <= k < |s| ensures !IsSpace(s[k]) {
      if k < |whole| {
        assert s[k] == whole[k];
      } else if k > |whole| {
        assert s[k] == frac[k - |whole| - 1];
      }
    }
  }

  lemma {:induction false} UnsignedPointed(whole: string, frac: string)
    requires whole != [] && AllDigits(whole) && AllDigits(frac)
    ensures ParseUnsigned(whole + "." + frac) == Some(DigitsValue(whole) as real + FractionValue(frac))
  {
    var t := "." + frac;
    var s := whole + t;
    assert whole + "." + frac == s;
    DigitPrefixStops(whole, t);
    var rest := s[|whole|..];
    assert rest == t;
    assert rest[1..] == frac;
    DigitPrefixAll(frac);
    assert rest[1 + |frac|..] == [];
    var v := DigitsValue(whole) as real + FractionValue(frac);
    assert ParseExponent([]) == Some(0);
    assert Scale(v, 0) == v;
    assert ParseUnsigned(s) == Some(Scale(v, 0));
  }

  /** Removing commas works piece by piece. */
  lemma {:induction false} RemoveCommasAppend(a: string, b: string)
    ensures RemoveCommas(a + b) == RemoveCommas(a) + RemoveCommas(b)
  {
    if a != [] {
      assert (a + b)[0] == a[0] && (a + b)[1..] == a[1..] + b;
      RemoveCommasAppend(a[1..], b);
    } else {
      assert a + b == b;
    }
  }

  lemma ParseNatValue(d: string, n: nat)
    requires d != [] && AllDigits(d) && DigitsValue(d) == n
    ensures ParseDecimal(d) == Some(n as real)
    ensures ParseDecimal("-" + d) == Some(-(n as real))
  {
    ParseDigits(d);
  }

  lemma ParseNatText(n: nat)
    ensures ParseDecimal(NatToString(n)) == Some(n as real)
    ensures ParseDecimal("-" + NatToString(n)) == Some(-(n as real))
  {
    NatToStringRoundTrip(n);
    ParseNatValue(NatToString(n), n);
  }

  /** `Decimal(str(i)) == i`: the decimal parser reads back what `str` writes. */
  lemma {:induction false} ParseIntToString(i: int)
    ensures ParseDecimal(IntToString(i)) == Some(i as real)
  {
    if i < 0 {
      ParseNatText(-i);
      assert IntToString(i) == "-" + NatToString(-i);
    } else {
      ParseNatText(i);
    }
  }

  /** Text that parses is not blank. */
  lemma ParsedNotBlank(s: string)
    ensures ParseDecimal(s).Some? ==> !AllSpace(s)
  {
    if AllSpace(s) {
      ParseBlank(s);
    }
  }

  /** Whitespace-only text (including the empty string) is no decimal. */
  lemma ParseBlank(s: string)
    requires AllSpace(s)
    ensures ParseDecimal(s) == None
  {
    StripBlank(s);
  }

  /** Text that starts with neither a digit, a point nor a sign is no decimal literal. */
  lemma NoLiteralStart(s: string)
    requires s != [] && NoSpace(s)
    requires !IsDigit(s[0]) && s[0] != '.' && s[0] != '-' && s[0] != '+'
    ensures ParseDecimal(s) == None
  {
    StripNoSpace(s);
    assert DigitPrefix(s) == [];
    assert s[0..] == s;
  }

  // ---------------------------------------------------------------------
  // str.replace

  predicate OccursAt(s: string, i: nat, pat: string) {
    i + |pat| <= |s| && s[i..i + |pat|] == pat
  }

  /** `s.replace(pat, rep)`: every non-overlapping occurrence, scanned left to right. */
  function Replace(s: string, pat: string, rep: string): (r: string)
    requires pat != []
    decreases |s|
  {
    if |s| < |pat| then s
    else if s[..|pat|] == pat then rep + Replace(s[|pat|..], pat, rep)
    else [s[0]] + Replace(s[1..], pat, rep)
  }

  lemma OccursShift(s: string, i: nat, pat: string)
    requires s != []
    ensures OccursAt(s[1..], i, pat) <==> OccursAt(s, i + 1, pat)
  {
    if i + 1 + |pat| <= |s| {
      assert s[1..][i..i + |pat|] == s[i + 1..i + 1 + |pat|];
    }
  }

  /** Text without the pattern is returned unchanged. */
  lemma {:induction false} ReplaceAbsent(s: string, pat: string, rep: string)
    requires pat != []
    requires forall i: nat :: !OccursAt(s, i, pat)
    ensures Replace(s, pat, rep) == s
    decreases |s|
  {
    if |s| >= |pat| {
      assert !OccursAt(s, 0, pat);
      forall i: nat ensures !OccursAt(s[1..], i, pat) {
        OccursShift(s, i, pat);
      }
      ReplaceAbsent(s[1..], pat, rep);
    }
  }

  /**
   * When the pattern first occurs right after `pre`, the replacement lands
   * exactly there: `(pre + pat + post).replace(pat, rep)` is
   * `pre + rep + post.replace(pat, rep)`.
   */
  lemma {:induction false} ReplaceFirst(pre: string, pat: string, post: string, rep: string)
    requires pat != []
    requires forall i: nat :: i < |pre| ==> !OccursAt(pre + pat + post, i, pat)
    ensures Replace(pre + pat + post, pat, rep) == pre + rep + Replace(post, pat, rep)
    decreases |pre|
  {
    var s := pre + pat + post;
    if pre == [] {
      assert s == pat + post;
      assert s[..|pat|] == pat && s[|pat|..] == post;
    } else {
      var s' := pre[1..] + pat + post;
      assert s[1..] == s';
      forall i: nat | i < |pre[1..]| ensures !OccursAt(s', i, pat) {
        OccursShift(s, i, pat);
      }
      ReplaceFirst(pre[1..], pat, post, rep);
      assert !OccursAt(s, 0, pat);
      assert Replace(s, pat, rep) == [pre[0]] + Replace(s', pat, rep);
      assert pre == [pre[0]] + pre[1..];
    }
  }

  // ---------------------------------------------------------------------
  // comma-joined lists

  /** `','.join(parts)`. */
  function JoinCommas(parts: seq<string>): string
  {
    if parts == [] then [] else if |parts| == 1 then parts[0] else parts[0] + "," + JoinCommas(parts[1..])
  }

  /** `s.split(',')`: always at least one piece. */
  function SplitCommas(s: string): (r: seq<string>)
    ensures |r| >= 1
    ensures forall k :: 0 <= k < |r| ==> ',' !in r[k]
  {
    if s == [] then [[]]
    else if s[0] == ',' then [[]] + SplitCommas(s[1..])
    else
      var rest := SplitCommas(s[1..]);
      [[s[0]] + rest[0]] + rest[1..]
  }

  lemma SplitLeadingComma(t: string)
    ensures SplitCommas("," + t) == [[]] + SplitCommas(t)
  {
    assert ("," + t)[0] == ',' && ("," + t)[1..] == t;
  }

  /** Splitting undoes joining when no piece holds a comma. */
  lemma {:induction false} SplitJoin(parts: seq<string>)
    requires |parts| >= 1
    requires forall k :: 0 <= k < |parts| ==> ',' !in parts[k]
    ensures SplitCommas(JoinCommas(parts)) == parts
    decreases |parts|
  {
    if |parts| == 1 {
      SplitPiece(parts[0], []);
      assert parts[0] + [] == parts[0];
    } else {
      var rest := JoinCommas(parts[1..]);
      SplitJoin(parts[1..]);
      var tail := "," + rest;
      SplitLeadingComma(rest);
      SplitPiece(parts[0], tail);
      assert JoinCommas(parts) == parts[0] + tail;
      var r := SplitCommas(parts[0] + tail);
      assert r[0] == parts[0] + [];
      assert parts[0] + [] == parts[0];
      assert r[1..] == parts[1..];
      assert r == [r[0]] + r[1..];
      assert parts == [parts[0]] + parts[1..];
    }
  }

  /** A comma-free piece in front of `t` just extends the first piece of `t`. */
  lemma {:induction false} SplitPiece(p: string, t: string)
    requires ',' !in p
    ensures SplitCommas(p + t)[0] == p + SplitCommas(t)[0]
    ensures SplitCommas(p + t)[1..] == SplitCommas(t)[1..]
    ensures |SplitCommas(p + t)| == |SplitCommas(t)|
    decreases |p|
  {
    if p != [] {
      assert (p + t)[0] == p[0];
      assert (p + t)[1..] == p[1..] + t;
      SplitPiece(p[1..], t);
      assert p == [p[0]] + p[1..];
    } else {
      assert p + t == t;
    }
  }
}
