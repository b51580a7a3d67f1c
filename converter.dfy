/**
 * The value converter of the extractor: the two unit helpers offered to a
 * stock property's conversion expression (`USD`, `SSI`), a small expression
 * language standing in for the Python expression the property stores, and
 * the decimal post-processing applied to whatever the expression yields.
 */
module Converter {
  import opened Wrappers
  import opened Text

  /** The Python values a conversion expression can produce. */
  datatype PyVal = PyNone | PyStr(s: string) | PyInt(i: int) | PyDec(d: real)

  /** `usd_to_value`: `None` stays `None`; otherwise strip, then drop one leading `$`. */
  function UsdToValue(v: Option<string>): (r: Option<string>)
    ensures v.None? <==> r.None?
    ensures v.Some? && StartsWith(Strip(v.value), "$") ==> "$" + r.value == Strip(v.value)
    ensures v.Some? && !StartsWith(Strip(v.value), "$") ==> r.value == Strip(v.value)
  {
    match v
    case None => None
    case Some(s) =>
      var t := Strip(s);
      if StartsWith(t, "$") then
        assert t == "$" + t[1..];
        Some(t[1..])
      else Some(t)
  }

  /** Exactly one dollar sign is removed, even when the text starts with several. */
  lemma UsdRemovesOneDollar(s: string)
    requires NoSpace(s)
    ensures UsdToValue(Some("$" + s)) == Some(s)
    ensures UsdToValue(Some("$$" + s)) == Some("$" + s)
  {
    var one := "$" + s;
    var two := "$$" + s;
    assert NoSpace(one) by {
      forall k | 0 <= k < |one| ensures !IsSpace(one[k]) {
        if k > 0 { assert one[k] == s[k - 1]; }
      }
    }
    assert NoSpace(two) by {
      forall k | 0 <= k < |two| ensures !IsSpace(two[k]) {
        if k > 1 { assert two[k] == s[k - 2]; }
      }
    }
    StripNoSpace(one);
    StripNoSpace(two);
    assert one[1..] == s;
    assert two[1..] == one;
  }

  /** A stripped amount without a dollar sign passes through unchanged. */
  lemma UsdPlainAmount(s: string)
    requires NoSpace(s) && !StartsWith(s, "$")
    ensures UsdToValue(Some(s)) == Some(s)
  {
    StripNoSpace(s);
  }

  // ---------------------------------------------------------------------
  // SSI units: the regular expression ^([0-9.,]+) *([MmGgKk])

  predicate IsNumeralChar(c: char) { IsDigit(c) || c == '.' || c == ',' }

  /** Text the group `[0-9.,]+` matches in full. */
  predicate IsNumeral(n: string) {
    n != [] && forall i :: 0 <= i < |n| ==> IsNumeralChar(n[i])
  }

  /** The factor an SSI unit letter stands for, case-insensitively. */
  function UnitFactor(c: char): Option<real>
  {
    if c == 'k' || c == 'K' then Some(1000.0)
    else if c == 'm' || c == 'M' then Some(1000000.0)
    else if c == 'g' || c == 'G' then Some(1000000000.0)
    else None
  }

  /** `d` times the factor of a unit letter, written out per unit. */
  function ApplyUnit(d: real, c: char): (r: real)
    requires UnitFactor(c).Some?
  {
    if c == 'k' || c == 'K' then d * 1000.0
    else if c == 'm' || c == 'M' then d * 1000000.0
    else d * 1000000000.0
  }

  /** The longest prefix made of digits, points and commas (`[0-9.,]+` is greedy). */
  function NumeralPrefix(s: string): (r: string)
    ensures StartsWith(s, r)
    ensures forall i :: 0 <= i < |r| ==> IsNumeralChar(r[i])
    ensures |r| < |s| ==> !IsNumeralChar(s[|r|])
  {
    if s != [] && IsNumeralChar(s[0]) then [s[0]] + NumeralPrefix(s[1..]) else []
  }

  /** Drops leading blanks (` *` matches the space character only). */
  function DropBlanks(s: string): (r: string)
    ensures |r| <= |s| && r == s[|s| - |r|..]
    ensures r != [] ==> r[0] != ' '
  {
    if s != [] && s[0] == ' ' then DropBlanks(s[1..]) else s
  }

  datatype SsiMatch = SsiMatch(numeral: string, unit: char)

  /** Where the regular expression matches, its two groups; `None` where it does not. */
  function MatchSsi(s: string): (r: Option<SsiMatch>)
    ensures r.Some? ==> r.value.numeral != [] && StartsWith(s, r.value.numeral)
    ensures r.Some? ==> UnitFactor(r.value.unit).Some?
  {
    var numeral := NumeralPrefix(s);
    var rest := DropBlanks(s[|numeral|..]);
    if numeral != [] && rest != [] && UnitFactor(rest[0]).Some? then Some(SsiMatch(numeral, rest[0]))
    else None
  }

  /**
   * `convert_ssi_units`: text that does not match comes back unchanged (a
   * string, commas and all); a match gives the numeral without its commas as a
   * decimal times 10^3, 10^6 or 10^9. `None` is the `InvalidOperation` raised
   * when the numeral is no decimal (`1.2.3`, `,`).
   */
  function ConvertSsiUnits(s: string): (r: Option<PyVal>)
    ensures MatchSsi(s).None? ==> r == Some(PyStr(s))
    ensures MatchSsi(s).Some? ==> r.None? || r.value.PyDec?
  {
    match MatchSsi(s)
    case None => Some(PyStr(s))
    case Some(m) =>
      match ParseDecimal(RemoveCommas(m.numeral))
      case None => None
      case Some(d) => Some(PyDec(ApplyUnit(d, m.unit)))
  }

  predicate IsGroupedNumeral(n: string) {
    (forall i :: 0 <= i < |n| ==> IsDigit(n[i]) || n[i] == ',') && RemoveCommas(n) != []
  }

  lemma {:induction false} RemoveCommasDigits(n: string)
    requires forall i :: 0 <= i < |n| ==> IsDigit(n[i]) || n[i] == ','
    ensures AllDigits(RemoveCommas(n))
  {
    if n != [] {
      RemoveCommasDigits(n[1..]);
    }
  }

  lemma {:induction false} NumeralPrefixOf(n: string, t: string)
    requires forall i :: 0 <= i < |n| ==> IsNumeralChar(n[i])
    requires t == [] || !IsNumeralChar(t[0])
    ensures NumeralPrefix(n + t) == n
  {
    if n != [] {
      assert (n + t)[0] == n[0] && (n + t)[1..] == n[1..] + t;
      NumeralPrefixOf(n[1..], t);
      assert n == [n[0]] + n[1..];
    } else {
      assert n + t == t;
    }
  }

  lemma {:induction false} DropBlanksOf(b: string, t: string)
    requires forall i :: 0 <= i < |b| ==> b[i] == ' '
    requires t == [] || t[0] != ' '
    ensures DropBlanks(b + t) == t
  {
    if b != [] {
      assert (b + t)[0] == ' ' && (b + t)[1..] == b[1..] + t;
      DropBlanksOf(b[1..], t);
    } else {
      assert b + t == t;
    }
  }

  /** The regular expression's groups for a numeral, blanks and a unit letter. */
  lemma MatchSsiOf(n: string, blanks: string, unit: char, tail: string)
    requires IsNumeral(n)
    requires forall i :: 0 <= i < |blanks| ==> blanks[i] == ' '
    requires UnitFactor(unit).Some?
    ensures MatchSsi(n + blanks + [unit] + tail) == Some(SsiMatch(n, unit))
  {
    var s := n + blanks + [unit] + tail;
    var t := blanks + [unit] + tail;
    assert s == n + t;
    assert t == [] || !IsNumeralChar(t[0]);
    NumeralPrefixOf(n, t);
    assert s[|n|..] == t;
    assert t == blanks + ([unit] + tail);
    DropBlanksOf(blanks, [unit] + tail);
  }

  /**
   * A numeral of digits, points and commas, blanks, then a unit letter,
   * whatever follows: SSI parses the numeral without its commas and scales it
   * by the unit's factor, or fails where that is no decimal.
   */
  lemma {:induction false} SsiScales(n: string, blanks: string, unit: char, tail: string)
    requires IsNumeral(n)
    requires forall i :: 0 <= i < |blanks| ==> blanks[i] == ' '
    requires UnitFactor(unit).Some?
    ensures ParseDecimal(RemoveCommas(n)).None? ==> ConvertSsiUnits(n + blanks + [unit] + tail).None?
    ensures ParseDecimal(RemoveCommas(n)).Some? ==>
      ConvertSsiUnits(n + blanks + [unit] + tail) == Some(PyDec(ApplyUnit(ParseDecimal(RemoveCommas(n)).value, unit)))
  {
    MatchSsiOf(n, blanks, unit, tail);
  }

  /** A whole number with thousands separators: its digit value times the factor. */
  lemma {:induction false} SsiGroupedScales(n: string, blanks: string, unit: char, tail: string)
    requires IsGroupedNumeral(n)
    requires forall i :: 0 <= i < |blanks| ==> blanks[i] == ' '
    requires UnitFactor(unit).Some?
    ensures AllDigits(RemoveCommas(n))
    ensures ConvertSsiUnits(n + blanks + [unit] + tail)
         == Some(PyDec(ApplyUnit(DigitsValue(RemoveCommas(n)) as real, unit)))
  {
    RemoveCommasDigits(n);
    ParseDigits(RemoveCommas(n));
    SsiScales(n, blanks, unit, tail);
  }

  lemma TenMegaNumeral()
    ensures NumeralPrefix("10M") == "10"
  {
    NumeralPrefixOf("10", "M");
    assert "10" + "M" == "10M";
  }

  lemma TenMegaGroups()
    ensures MatchSsi("10M") == Some(SsiMatch("10", 'M'))
  {
    TenMegaNumeral();
    assert "10M"[2..] == "M";
    assert DropBlanks("M") == "M";
  }

  lemma TenValue()
    ensures ParseDecimal(RemoveCommas("10")) == Some(10.0)
  {
    assert RemoveCommas("10") == "10";
    ParseNatText(10);
    assert NatToString(10) == "10";
  }

  /** `SSI('10M')` is ten million. */
  lemma SsiTenMega()
    ensures ConvertSsiUnits("10M") == Some(PyDec(10000000.0))
  {
    TenMegaGroups();
    TenValue();
  }

  lemma GroupedKiloGroups()
    ensures MatchSsi("1,234 k") == Some(SsiMatch("1,234", 'k'))
  {
    MatchSsiOf("1,234", " ", 'k', "");
    assert "1,234" + " " + ['k'] + "" == "1,234 k";
  }

  lemma GroupedDigits()
    ensures RemoveCommas("1,234") == "1234"
  {
    assert "1,234"[1..] == ",234";
  }

  lemma ThousandsValue()
    ensures ParseDecimal("1234") == Some(1234.0)
  {
    DigitsSnoc("1", '2');
    assert "1" + ['2'] == "12";
    DigitsSnoc("12", '3');
    assert "12" + ['3'] == "123";
    DigitsSnoc("123", '4');
    assert "123" + ['4'] == "1234";
    ParseNatValue("1234", 1234);
  }

  lemma GroupedValue()
    ensures ParseDecimal(RemoveCommas("1,234")) == Some(1234.0)
  {
    GroupedDigits();
    ThousandsValue();
  }

  /** `SSI('1,234 k')`: the thousands separator is dropped and the blank skipped. */
  lemma SsiGroupedKilo()
    ensures ConvertSsiUnits("1,234 k") == Some(PyDec(1234000.0))
  {
    GroupedKiloGroups();
    GroupedValue();
  }

  /** Without a unit letter the text comes back unchanged, commas included. */
  lemma SsiWithoutUnit()
    ensures ConvertSsiUnits("5") == Some(PyStr("5"))
    ensures ConvertSsiUnits("1,234") == Some(PyStr("1,234"))
  {
    NumeralPrefixOf("5", "");
    assert "5" + "" == "5";
    NumeralPrefixOf("1,234", "");
    assert "1,234" + "" == "1,234";
  }

  // ---------------------------------------------------------------------
  // conversion expressions

  datatype BinOp = Plus | Minus | Times | Over

  /**
   * A conversion expression over the scraped text `x`: literals, the
   * variable, the two helpers and the four arithmetic operators.
   */
  datatype Expr =
    | X
    | IntLit(i: int)
    | StrLit(s: string)
    | Usd(arg: Expr)
    | Ssi(arg: Expr)
    | Binary(op: BinOp, left: Expr, right: Expr)

  /** The numeric value of an `int` or a `Decimal`. */
  function Numeric(v: PyVal): Option<real>
  {
    match v
    case PyInt(i) => Some(i as real)
    case PyDec(d) => Some(d)
    case _ => None
  }

  /** Python 2 `/` on two ints: floor division. */
  function FloorDiv(a: int, b: int): int
    requires b != 0
  {
    if b > 0 then a / b else (-a) / (-b)
  }

  /** `s * n`: `n` copies of `s`, none when `n <= 0`. */
  function Repeat(s: string, n: int): (r: string)
    ensures |r| == if n <= 0 then 0 else n * |s|
    decreases if n < 0 then 0 else n
  {
    if n <= 0 then [] else s + Repeat(s, n - 1)
  }

  /**
   * A binary operator on Python values; `None` is the `TypeError` or
   * division error Python raises.
   */
  function Apply(op: BinOp, a: PyVal, b: PyVal): Option<PyVal>
  {
    if a.PyInt? && b.PyInt? then
      match op
      case Plus => Some(PyInt(a.i + b.i))
      case Minus => Some(PyInt(a.i - b.i))
      case Times => Some(PyInt(a.i * b.i))
      case Over => if b.i == 0 then None else Some(PyInt(FloorDiv(a.i, b.i)))
    else if Numeric(a).Some? && Numeric(b).Some? then
      var x, y := Numeric(a).value, Numeric(b).value;
      match op
      case Plus => Some(PyDec(x + y))
      case Minus => Some(PyDec(x - y))
      case Times => Some(PyDec(x * y))
      case Over => if y == 0.0 then None else Some(PyDec(x / y))
    else if op == Plus && a.PyStr? && b.PyStr? then Some(PyStr(a.s + b.s))
    else if op == Times && a.PyStr? && b.PyInt? then Some(PyStr(Repeat(a.s, b.i)))
    else if op == Times && a.PyInt? && b.PyStr? then Some(PyStr(Repeat(b.s, a.i)))
    else None
  }

  /** Evaluates `e` with `x` bound to the scraped text; `None` is a raised exception. */
  function Eval(e: Expr, x: string): Option<PyVal>
  {
    match e
    case X => Some(PyStr(x))
    case IntLit(i) => Some(PyInt(i))
    case StrLit(s) => Some(PyStr(s))
    case Usd(arg) =>
      (match Eval(arg, x)
       case None => None
       case Some(PyNone) => Some(PyNone)
       case Some(PyStr(s)) => Some(PyStr(UsdToValue(Some(s)).value))
       case Some(_) => None)
    case Ssi(arg) =>
      (match Eval(arg, x)
       case Some(PyStr(s)) => ConvertSsiUnits(s)
       case _ => None)
    case Binary(op, l, r) =>
      (match (Eval(l, x), Eval(r, x))
       case (Some(a), Some(b)) => Apply(op, a, b)
       case _ => None)
  }

  /**
   * The tail of `execute_converter`: a `Decimal` is kept as it is; anything
   * else is turned into text, its commas removed, and parsed, a parse failure
   * giving `None` rather than an exception.
   */
  function ToDecimal(v: PyVal): (r: Option<real>)
    ensures v.PyDec? ==> r == Some(v.d)
    ensures v.PyInt? ==> r == Some(v.i as real)
    ensures v.PyNone? ==> r == None
  {
    match v
    case PyDec(d) => Some(d)
    case PyInt(i) =>
      ParseIntToString(i);
      RemoveCommasNoComma(IntToString(i));
      ParseDecimal(RemoveCommas(IntToString(i)))
    case PyStr(s) => ParseDecimal(RemoveCommas(s))
    case PyNone =>
      NoneIsNoDecimal();
      ParseDecimal(RemoveCommas("None"))
  }

  /** `Decimal(str(None).replace(',', ''))` raises. */
  lemma NoneIsNoDecimal()
    ensures ParseDecimal(RemoveCommas("None")) == None
  {
    RemoveCommasNoComma("None");
    NoLiteralStart("None");
  }

  /** What `execute_converter` ends in: an exception from the expression, or a value or `None`. */
  datatype Conversion = Raised | Converted(value: Option<real>)

  /** `execute_converter`: evaluate, then post-process; only the evaluation can raise. */
  function ExecuteConverter(x: string, e: Expr): (r: Conversion)
    ensures r.Raised? <==> Eval(e, x).None?
  {
    match Eval(e, x)
    case None => Raised
    case Some(v) => Converted(ToDecimal(v))
  }

  /** With the expression `x`, a numeral with thousands separators reads as its digits. */
  lemma ConvertGroupedNumeral(s: string)
    requires IsGroupedNumeral(s)
    ensures AllDigits(RemoveCommas(s))
    ensures ExecuteConverter(s, X) == Converted(Some(DigitsValue(RemoveCommas(s)) as real))
  {
    RemoveCommasDigits(s);
    ParseDigits(RemoveCommas(s));
  }

  /** The converter examples of the test suite: `x` on `10`, `SSI(x)` on `10M`, the literal `101`. */
  lemma ConvertPlainTen()
    ensures ExecuteConverter("10", X) == Converted(Some(10.0))
  {
    TenValue();
  }

  /** `SSI(x)` evaluates to `convert_ssi_units` of the scraped text. */
  lemma EvalSsiOfText(s: string)
    ensures Eval(Ssi(X), s) == ConvertSsiUnits(s)
  {
    assert Eval(X, s) == Some(PyStr(s));
  }

  /** An expression that yields a `Decimal` is converted to exactly that number. */
  lemma ExecuteKeepsDecimal(e: Expr, s: string, d: real)
    requires Eval(e, s) == Some(PyDec(d))
    ensures ExecuteConverter(s, e) == Converted(Some(d))
  {
  }

  lemma ConvertSsiTen()
    ensures ExecuteConverter("10M", Ssi(X)) == Converted(Some(10000000.0))
  {
    SsiTenMega();
    EvalSsiOfText("10M");
    ExecuteKeepsDecimal(Ssi(X), "10M", 10000000.0);
  }

  lemma ConvertLiteral(anything: string)
    ensures ExecuteConverter(anything, IntLit(101)) == Converted(Some(101.0))
  {
  }
}
