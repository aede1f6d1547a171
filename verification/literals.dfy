/**
 * The single-token recognizers of src/core/parser.rs: `bool`, `number`,
 * `integer`, `quoted_name` and `ascii`. None of them skips whitespace; the
 * value lists that use them do.
 */
module Literals {
  import opened Parsing
  import Utf8

  /* ---------------------------------------------------------------- bool */

  function BoolText(b: bool): Bytes
  {
    if b then "true" else "false"
  }

  /** `bool`: the keyword `true` or `false` at the front of the input,
      whatever follows it. */
  function Boolean(s: Bytes): (r: Parse<bool>)
    ensures r.Done? <==> BoolText(true) <= s || BoolText(false) <= s
    ensures r.Done? ==> s == BoolText(r.value) + r.rest
  {
    if BoolText(true) <= s then Done(true, s[4..])
    else if BoolText(false) <= s then Done(false, s[5..])
    else Fail
  }

  lemma BooleanRoundTrip(b: bool, rest: Bytes)
    ensures Boolean(BoolText(b) + rest) == Done(b, rest)
  {
    var s := BoolText(b) + rest;
    assert BoolText(b) <= s;
    if b {
      assert s[4..] == rest;
    } else {
      assert s[..4] != BoolText(true) by {
        assert s[1] == 'a';
      }
      assert s[5..] == rest;
    }
  }

  /* ------------------------------------------------------- signs, digits */

  datatype Sign = Unsigned | Plus | Minus

  function SignText(g: Sign): Bytes
  {
    match g
    case Unsigned => ""
    case Plus => "+"
    case Minus => "-"
  }

  /** `opt!(alt!(tag!("+") | tag!("-")))` */
  function ScanSign(s: Bytes): (r: (Sign, Bytes))
    ensures s == SignText(r.0) + r.1
  {
    if |s| > 0 && s[0] == '+' then (Plus, s[1..])
    else if |s| > 0 && s[0] == '-' then (Minus, s[1..])
    else (Unsigned, s)
  }

  predicate StartsSign(t: Bytes) { |t| > 0 && (t[0] == '+' || t[0] == '-') }

  lemma ScanSignOf(g: Sign, t: Bytes)
    requires !StartsSign(t)
    ensures ScanSign(SignText(g) + t) == (g, t)
  {
    var s := SignText(g) + t;
    if g != Unsigned {
      assert s[0] == SignText(g)[0];
      assert s[1..] == t;
    } else {
      assert s == t;
    }
  }

  function Signed(g: Sign, v: int): int
  {
    if g == Minus then -v else v
  }

  predicate StartsDigit(t: Bytes) { |t| > 0 && IsDigit(t[0]) }

  predicate IsDigits(d: Bytes) { |d| > 0 && AllIn(Digits, d) }

  function DigitValue(b: byte): nat
    requires IsDigit(b)
  {
    b as int - '0' as int
  }

  /** The decimal value of a string of digits, most significant first. */
  function DigitsValue(d: Bytes): nat
    requires AllIn(Digits, d)
  {
    if |d| == 0 then 0
    else DigitsValue(d[..|d| - 1]) * 10 + DigitValue(d[|d| - 1])
  }

  function Pow10(k: nat): (r: nat)
    ensures r > 0
  {
    if k == 0 then 1 else 10 * Pow10(k - 1)
  }

  /** m times ten to the power e, exactly. */
  function Scale(m: int, e: int): real
  {
    if e >= 0 then (m * Pow10(e)) as real else m as real / Pow10(-e) as real
  }

  /* -------------------------------------------------------------- number */

  datatype Exponent = Exponent(upper: bool, sign: Sign, digits: Bytes)

  /** The text `number` recognizes, taken apart: sign, digits before the
      point, whether there is a point, digits after it, and the exponent. */
  datatype Lexeme = Lexeme(sign: Sign, whole: Bytes, point: bool, fraction: Bytes, exponent: Option<Exponent>)

  /** One of the forms `d.d`, `.d`, `d.` and `d`, with an exponent of at
      least one digit when there is one. */
  predicate WellFormed(n: Lexeme)
  {
    AllIn(Digits, n.whole) && AllIn(Digits, n.fraction)
    && (if n.point then |n.whole| > 0 || |n.fraction| > 0 else |n.whole| > 0 && |n.fraction| == 0)
    && (n.exponent.Some? ==> IsDigits(n.exponent.value.digits))
  }

  function ExponentText(e: Option<Exponent>): Bytes
  {
    match e
    case None => ""
    case Some(Exponent(upper, g, d)) => (if upper then "E" else "e") + SignText(g) + d
  }

  function MantissaText(whole: Bytes, point: bool, fraction: Bytes): Bytes
  {
    whole + (if point then "." else "") + fraction
  }

  function Render(n: Lexeme): Bytes
  {
    SignText(n.sign) + MantissaText(n.whole, n.point, n.fraction) + ExponentText(n.exponent)
  }

  function ExponentValue(e: Option<Exponent>): int
    requires e.Some? ==> AllIn(Digits, e.value.digits)
  {
    match e
    case None => 0
    case Some(x) => Signed(x.sign, DigitsValue(x.digits))
  }

  /** The exact value the lexeme denotes. */
  function Exact(n: Lexeme): real
    requires WellFormed(n)
  {
    Scale(Signed(n.sign, DigitsValue(n.whole + n.fraction)), ExponentValue(n.exponent) - |n.fraction|)
  }

  /** `e` or `E`, an optional sign and a digit: the start of an exponent. */
  predicate StartsExponent(t: Bytes)
  {
    |t| > 0 && (t[0] == 'e' || t[0] == 'E') && StartsDigit(ScanSign(t[1..]).1)
  }

  /** Text after the lexeme that `number` would have taken in as well. */
  predicate Continues(n: Lexeme, t: Bytes)
  {
    StartsDigit(t)
    || (n.exponent.None? && (StartsExponent(t) || (!n.point && |t| > 0 && t[0] == '.')))
  }

  /** `opt!(digit)`: the run of digits at the front, possibly empty. */
  function LeadingDigits(u: Bytes): (r: (Bytes, Bytes))
    ensures u == r.0 + r.1 && AllIn(Digits, r.0) && !StartsDigit(r.1)
  {
    match Span(Digits, u)
    case Done(d, v) => (d, v)
    case Fail => ([], u)
  }

  lemma LeadingDigitsOf(d: Bytes, t: Bytes)
    requires AllIn(Digits, d) && !StartsDigit(t)
    ensures LeadingDigits(d + t) == (d, t)
  {
    if |d| > 0 {
      SpanOf(Digits, d, t);
    } else {
      assert d + t == t;
    }
  }

  /** The mantissa `opt!(digit) "." digit`: the forms `d.d` and `.d`. */
  function PointFraction(u: Bytes): (r: Parse<(Bytes, bool, Bytes)>)
    ensures r.Done? ==> r.value.1 && |r.value.2| > 0
    ensures r.Done? ==> AllIn(Digits, r.value.0) && AllIn(Digits, r.value.2)
    ensures r.Done? ==> u == MantissaText(r.value.0, true, r.value.2) + r.rest && !StartsDigit(r.rest)
  {
    var (lead, t) := LeadingDigits(u);
    if |t| > 0 && t[0] == '.' then
      match Span(Digits, t[1..])
      case Done(f, v) =>
        PointShape(lead, t, f, v);
        Done((lead, true, f), v)
      case Fail => Fail
    else Fail
  }

  lemma PointShape(lead: Bytes, t: Bytes, f: Bytes, v: Bytes)
    requires |t| > 0 && t[0] == '.' && t[1..] == f + v
    ensures lead + t == MantissaText(lead, true, f) + v
  {
    assert t == "." + f + v;
  }

  /** The mantissa `digit "."`: the form `d.`. */
  function DigitsPoint(u: Bytes): (r: Parse<(Bytes, bool, Bytes)>)
    ensures r.Done? ==> r.value.1 && IsDigits(r.value.0) && r.value.2 == []
    ensures r.Done? ==> u == MantissaText(r.value.0, true, []) + r.rest
  {
    match Span(Digits, u)
    case Done(d, v) =>
      if |v| > 0 && v[0] == '.' then
        PointShape(d, v, [], v[1..]);
        Done((d, true, []), v[1..])
      else Fail
    case Fail => Fail
  }

  /** The mantissa `digit`: the form `d`. */
  function DigitsOnly(u: Bytes): (r: Parse<(Bytes, bool, Bytes)>)
    ensures r.Done? ==> !r.value.1 && IsDigits(r.value.0) && r.value.2 == []
    ensures r.Done? ==> u == MantissaText(r.value.0, false, []) + r.rest && !StartsDigit(r.rest)
  {
    match Span(Digits, u)
    case Done(d, v) => Done((d, false, []), v)
    case Fail => Fail
  }

  /** The three mantissa alternatives, tried in the order of the source. A
      later alternative only runs when the earlier ones failed, so `d.`
      never stops before a digit and `d` never stops before a point. */
  function ScanMantissa(u: Bytes): (r: Parse<(Bytes, bool, Bytes)>)
    ensures r.Done? ==> WellFormed(Lexeme(Unsigned, r.value.0, r.value.1, r.value.2, None))
    ensures r.Done? ==> u == MantissaText(r.value.0, r.value.1, r.value.2) + r.rest
    ensures r.Done? ==> !StartsDigit(r.rest) && (!r.value.1 ==> !(|r.rest| > 0 && r.rest[0] == '.'))
  {
    FractionFirst(u);
    PointSecond(u);
    Alt(PointFraction(u), Alt(DigitsPoint(u), DigitsOnly(u)))
  }

  /** `d.` followed by a digit is taken by the first alternative. */
  lemma FractionFirst(u: Bytes)
    ensures DigitsPoint(u).Done? && StartsDigit(DigitsPoint(u).rest) ==> PointFraction(u).Done?
  {
    if DigitsPoint(u).Done? && StartsDigit(DigitsPoint(u).rest) {
      var d, v := Span(Digits, u).value, Span(Digits, u).rest;
      LeadingDigitsOf(d, v);
    }
  }

  /** `d` followed by a point is taken by one of the first two alternatives. */
  lemma PointSecond(u: Bytes)
    ensures DigitsOnly(u).Done? && |DigitsOnly(u).rest| > 0 && DigitsOnly(u).rest[0] == '.' ==> DigitsPoint(u).Done?
  {
  }

  /** `opt!(complete!(tuple!(alt!(tag!("e") | tag!("E")), opt!(sign), digit)))` */
  function ScanExponent(v: Bytes): (r: (Option<Exponent>, Bytes))
    ensures v == ExponentText(r.0) + r.1
    ensures r.0.Some? ==> IsDigits(r.0.value.digits) && !StartsDigit(r.1)
    ensures r.0.None? ==> r.1 == v && !StartsExponent(v)
  {
    if |v| > 0 && (v[0] == 'e' || v[0] == 'E') then
      var (g, x) := ScanSign(v[1..]);
      match Span(Digits, x)
      case Done(d, y) =>
        ExponentShape(v, g, d, y);
        (Some(Exponent(v[0] == 'E', g, d)), y)
      case Fail => (None, v)
    else (None, v)
  }

  lemma ExponentShape(v: Bytes, g: Sign, d: Bytes, y: Bytes)
    requires |v| > 0 && (v[0] == 'e' || v[0] == 'E') && v[1..] == SignText(g) + d + y
    ensures v == ExponentText(Some(Exponent(v[0] == 'E', g, d))) + y
  {
    var mark: Bytes := if v[0] == 'E' then "E" else "e";
    ConsSplit(v, []);
    AppendAssoc(mark, SignText(g), d + y);
    AppendAssoc(mark + SignText(g), d, y);
  }

  /** The text `number` recognizes, before it is converted. */
  function ScanNumber(s: Bytes): (r: Parse<Lexeme>)
    ensures r.Done? ==> WellFormed(r.value) && s == Render(r.value) + r.rest
    ensures r.Done? ==> !Continues(r.value, r.rest)
  {
    var (g, u) := ScanSign(s);
    match ScanMantissa(u)
    case Fail => Fail
    case Done((whole, point, fraction), v) =>
      var (e, w) := ScanExponent(v);
      AppendAssoc(SignText(g), MantissaText(whole, point, fraction), ExponentText(e) + w);
      AppendAssoc(SignText(g) + MantissaText(whole, point, fraction), ExponentText(e), w);
      Done(Lexeme(g, whole, point, fraction, e), w)
  }

  /** `number`: the exact value of the recognized text. The conversion to a
      binary floating-point number is not modelled. */
  function Number(s: Bytes): (r: Parse<real>)
    ensures r.Done? ==> |r.rest| < |s|
  {
    match ScanNumber(s)
    case Fail => Fail
    case Done(n, rest) => Done(Exact(n), rest)
  }

  /** A well-formed lexeme followed by text that cannot continue it is
      recognized exactly. */
  lemma ScanNumberOf(n: Lexeme, t: Bytes)
    requires WellFormed(n) && !Continues(n, t)
    ensures ScanNumber(Render(n) + t) == Done(n, t)
  {
    var m := MantissaText(n.whole, n.point, n.fraction);
    var v := ExponentText(n.exponent) + t;
    AppendAssoc(SignText(n.sign), m, ExponentText(n.exponent) + t);
    AppendAssoc(SignText(n.sign) + m, ExponentText(n.exponent), t);
    MantissaUnsigned(n.whole, n.point, n.fraction, v);
    ScanSignOf(n.sign, m + v);
    ExponentFollows(n, t);
    ScanMantissaOf(n.whole, n.point, n.fraction, v);
    ScanExponentOf(n.exponent, t);
  }

  lemma MantissaUnsigned(whole: Bytes, point: bool, fraction: Bytes, v: Bytes)
    requires WellFormed(Lexeme(Unsigned, whole, point, fraction, None))
    ensures !StartsSign(MantissaText(whole, point, fraction) + v)
  {
    var u := MantissaText(whole, point, fraction) + v;
    if |whole| > 0 {
      assert u[0] == whole[0];
    } else {
      assert u[0] == '.';
    }
  }

  /** What follows the mantissa inside a rendered lexeme. */
  lemma ExponentFollows(n: Lexeme, t: Bytes)
    requires WellFormed(n) && !Continues(n, t)
    ensures var v := ExponentText(n.exponent) + t;
      !StartsDigit(v) && (!n.point ==> !(|v| > 0 && v[0] == '.'))
  {
    if n.exponent.Some? {
      var v := ExponentText(n.exponent) + t;
      assert v[0] == ExponentText(n.exponent)[0];
    } else {
      assert ExponentText(n.exponent) + t == t;
    }
  }

  lemma ScanMantissaOf(whole: Bytes, point: bool, fraction: Bytes, v: Bytes)
    requires WellFormed(Lexeme(Unsigned, whole, point, fraction, None))
    requires !StartsDigit(v) && (!point ==> !(|v| > 0 && v[0] == '.'))
    ensures ScanMantissa(MantissaText(whole, point, fraction) + v) == Done((whole, point, fraction), v)
  {
    if point && |fraction| > 0 {
      PointFractionOf(whole, fraction, v);
    } else if point {
      DigitsPointOf(whole, v);
    } else {
      DigitsOnlyOf(whole, v);
    }
  }

  lemma PointFractionOf(whole: Bytes, fraction: Bytes, v: Bytes)
    requires AllIn(Digits, whole) && IsDigits(fraction) && !StartsDigit(v)
    ensures PointFraction(MantissaText(whole, true, fraction) + v) == Done((whole, true, fraction), v)
  {
    var t := PointText(whole, fraction, v);
    LeadingDigitsOf(whole, t);
    SpanOf(Digits, fraction, v);
  }

  /** The text after the digits before a point. */
  lemma PointText(whole: Bytes, fraction: Bytes, v: Bytes) returns (t: Bytes)
    ensures MantissaText(whole, true, fraction) + v == whole + t
    ensures |t| > 0 && t[0] == '.' && t[1..] == fraction + v
  {
    t := "." + (fraction + v);
  }

  lemma DigitsPointOf(whole: Bytes, v: Bytes)
    requires IsDigits(whole) && !StartsDigit(v)
    ensures PointFraction(MantissaText(whole, true, []) + v).Fail?
    ensures DigitsPoint(MantissaText(whole, true, []) + v) == Done((whole, true, []), v)
  {
    var t := PointText(whole, [], v);
    assert t[1..] == v;
    LeadingDigitsOf(whole, t);
    SpanOf(Digits, whole, t);
  }

  lemma DigitsOnlyOf(whole: Bytes, v: Bytes)
    requires IsDigits(whole) && !StartsDigit(v) && !(|v| > 0 && v[0] == '.')
    ensures PointFraction(MantissaText(whole, false, []) + v).Fail?
    ensures DigitsPoint(MantissaText(whole, false, []) + v).Fail?
    ensures DigitsOnly(MantissaText(whole, false, []) + v) == Done((whole, false, []), v)
  {
    assert MantissaText(whole, false, []) + v == whole + v;
    LeadingDigitsOf(whole, v);
    SpanOf(Digits, whole, v);
  }

  lemma ScanExponentOf(e: Option<Exponent>, t: Bytes)
    requires e.Some? ==> IsDigits(e.value.digits) && !StartsDigit(t)
    requires e.None? ==> !StartsExponent(t)
    ensures ScanExponent(ExponentText(e) + t) == (e, t)
  {
    match e
    case None =>
      assert ExponentText(e) + t == t;
    case Some(Exponent(upper, g, d)) =>
      var v := ExponentText(e) + t;
      assert v[0] == (if upper then 'E' else 'e');
      assert v[1..] == SignText(g) + (d + t);
      assert !StartsSign(d + t) by {
        assert (d + t)[0] == d[0];
      }
      ScanSignOf(g, d + t);
      SpanOf(Digits, d, t);
  }

  /** `number` reads a rendered lexeme back as its exact value. */
  lemma NumberRoundTrip(n: Lexeme, t: Bytes)
    requires WellFormed(n) && !Continues(n, t)
    ensures Number(Render(n) + t) == Done(Exact(n), t)
  {
    ScanNumberOf(n, t);
  }

  /** What follows a list element never continues a number. */
  lemma DelimitsNumber(n: Lexeme, t: Bytes)
    requires Delimits(t)
    ensures !Continues(n, t)
  {
  }

  /** A point with no digit on either side is no number, signed or not. */
  lemma LonePoint(g: Sign, t: Bytes)
    requires !StartsDigit(t)
    ensures Number(SignText(g) + "." + t).Fail?
  {
    var u := "." + t;
    assert SignText(g) + "." + t == SignText(g) + u;
    ScanSignOf(g, u);
    NoMantissa(t);
  }

  lemma NoMantissa(t: Bytes)
    requires !StartsDigit(t)
    ensures ScanMantissa("." + t).Fail?
  {
    var u := "." + t;
    LeadingDigitsOf([], u);
    assert [] + u == u;
    assert u[1..] == t;
  }

  /** The sign of a number negates its value, and `+` changes nothing. */
  lemma SignedValue(n: Lexeme)
    requires WellFormed(n)
    ensures Exact(n.(sign := Minus)) == -Exact(n.(sign := Unsigned))
    ensures Exact(n.(sign := Plus)) == Exact(n.(sign := Unsigned))
  {
    var m := DigitsValue(n.whole + n.fraction);
    var e := ExponentValue(n.exponent) - |n.fraction|;
    ScaleNegates(m, e);
  }

  lemma ScaleNegates(m: int, e: int)
    ensures Scale(-m, e) == -Scale(m, e)
  {
    if e >= 0 {
      assert -m * Pow10(e) == -(m * Pow10(e));
    } else {
      assert (-m) as real == -(m as real);
    }
  }

  /* ------------------------------------------------------------- integer */

  const I64_MIN: int := -0x8000_0000_0000_0000
  const I64_MAX: int := 0x7FFF_FFFF_FFFF_FFFF

  /** `recognize!(tuple!(opt!(sign), complete!(digit)))` */
  function ScanInteger(s: Bytes): (r: Parse<(Sign, Bytes)>)
    ensures r.Done? ==> IsDigits(r.value.1) && !StartsDigit(r.rest)
    ensures r.Done? ==> s == SignText(r.value.0) + r.value.1 + r.rest
  {
    var (g, u) := ScanSign(s);
    match Span(Digits, u)
    case Fail => Fail
    case Done(d, rest) => Done((g, d), rest)
  }

  /** `integer`: the signed decimal value, which `parse_to!(i64)` rejects
      when it does not fit in 64 bits. */
  function Integer(s: Bytes): (r: Parse<int>)
    ensures r.Done? ==> I64_MIN <= r.value <= I64_MAX && |r.rest| < |s|
  {
    match ScanInteger(s)
    case Fail => Fail
    case Done((g, d), rest) =>
      var v := Signed(g, DigitsValue(d));
      if I64_MIN <= v <= I64_MAX then Done(v, rest) else Fail
  }

  lemma ScanIntegerOf(g: Sign, d: Bytes, t: Bytes)
    requires IsDigits(d) && !StartsDigit(t)
    ensures ScanInteger(SignText(g) + d + t) == Done((g, d), t)
  {
    assert SignText(g) + d + t == SignText(g) + (d + t);
    assert (d + t)[0] == d[0];
    ScanSignOf(g, d + t);
    SpanOf(Digits, d, t);
  }

  /** An optionally signed digit string is read as its value when that fits
      in 64 bits, and is rejected otherwise. */
  lemma IntegerRoundTrip(g: Sign, d: Bytes, t: Bytes)
    requires IsDigits(d) && !StartsDigit(t)
    ensures var v := Signed(g, DigitsValue(d));
      Integer(SignText(g) + d + t) == if I64_MIN <= v <= I64_MAX then Done(v, t) else Fail
  {
    ScanIntegerOf(g, d, t);
  }

  function DigitChar(k: nat): (b: byte)
    requires k < 10
    ensures IsDigit(b) && DigitValue(b) == k
  {
    ('0' as int + k) as char
  }

  /** The decimal digits of k without leading zeros. */
  function DigitsOf(k: nat): (d: Bytes)
    ensures IsDigits(d)
  {
    if k < 10 then [DigitChar(k)] else DigitsOf(k / 10) + [DigitChar(k % 10)]
  }

  lemma {:induction false} DigitsOfValue(k: nat)
    ensures DigitsValue(DigitsOf(k)) == k
  {
    var d := DigitsOf(k);
    if k >= 10 {
      DigitsOfValue(k / 10);
      assert d[..|d| - 1] == DigitsOf(k / 10);
    }
  }

  /** The way an integer is written in a scene file. */
  function IntegerText(v: int): Bytes
  {
    (if v < 0 then "-" else "") + DigitsOf(if v < 0 then -v else v)
  }

  /** Every 64-bit integer is read back from its decimal text. */
  lemma IntegerTextRoundTrip(v: int, t: Bytes)
    requires I64_MIN <= v <= I64_MAX && !StartsDigit(t)
    ensures Integer(IntegerText(v) + t) == Done(v, t)
  {
    var g := if v < 0 then Minus else Unsigned;
    var d := DigitsOf(if v < 0 then -v else v);
    DigitsOfValue(if v < 0 then -v else v);
    assert IntegerText(v) == SignText(g) + d;
    IntegerRoundTrip(g, d, t);
  }

  /* --------------------------------------------------------- quoted text */

  /** `quoted_name`: alphanumeric bytes between double quotes. */
  function QuotedName(s: Bytes): (r: Parse<Bytes>)
    ensures r.Done? ==> |r.value| > 0 && AllIn(Alnums, r.value)
    ensures r.Done? ==> s == [QUOTE] + r.value + [QUOTE] + r.rest
  {
    if |s| > 0 && s[0] == QUOTE then
      match Span(Alnums, s[1..])
      case Fail => Fail
      case Done(name, u) =>
        if |u| > 0 && u[0] == QUOTE then
          assert s == [QUOTE] + name + [QUOTE] + u[1..];
          Done(name, u[1..])
        else Fail
    else Fail
  }

  lemma QuotedNameRoundTrip(name: Bytes, t: Bytes)
    requires |name| > 0 && AllIn(Alnums, name)
    ensures QuotedName([QUOTE] + name + [QUOTE] + t) == Done(name, t)
  {
    var s := [QUOTE] + name + [QUOTE] + t;
    assert s[1..] == name + ([QUOTE] + t);
    SpanOf(Alnums, name, [QUOTE] + t);
    assert ([QUOTE] + t)[1..] == t;
  }

  /** `ascii`: the bytes up to the next double quote, which must be
      well-formed UTF-8 to become a Rust string. */
  function Ascii(s: Bytes): (r: Parse<Bytes>)
    ensures r.Done? ==> QUOTE !in r.value && Utf8.Valid(r.value)
    ensures r.Done? ==> s == [QUOTE] + r.value + [QUOTE] + r.rest
  {
    if |s| > 0 && s[0] == QUOTE then
      match IndexOf(QUOTE, s[1..])
      case None => Fail
      case Some(k) =>
        var c := s[1..][..k];
        if Utf8.Valid(c) then
          assert s == [QUOTE] + c + [QUOTE] + s[1..][k + 1..];
          Done(c, s[1..][k + 1..])
        else Fail
    else Fail
  }

  /** A quoted string is read back as its content when that content is
      well-formed, and is rejected when it is not. */
  lemma AsciiRoundTrip(c: Bytes, t: Bytes)
    requires QUOTE !in c
    ensures Ascii([QUOTE] + c + [QUOTE] + t) == if Utf8.Valid(c) then Done(c, t) else Fail
  {
    var s := [QUOTE] + c + [QUOTE] + t;
    assert s[1..] == c + [QUOTE] + t;
    assert s[1..][..|c|] == c;
    IndexOfAt(QUOTE, s[1..], |c|);
    assert s[1..][|c| + 1..] == t;
  }

  /** A quote that is never closed starts no string. */
  lemma AsciiUnterminated(c: Bytes)
    requires QUOTE !in c
    ensures Ascii([QUOTE] + c).Fail?
  {
    assert ([QUOTE] + c)[1..] == c;
  }

  /* -------------------------------------------- as elements of value lists */

  /** No element recognizer accepts text that starts with a bracket, so the
      closing bracket ends a list and an opening one is never an element. */
  lemma ElementsRejectBrackets()
    ensures NoBracket(Boolean) && NoBracket(Number) && NoBracket(Integer) && NoBracket(Ascii)
  {
    forall t | |t| > 0 && (t[0] == OPEN || t[0] == CLOSE)
      ensures Boolean(t).Fail? && Number(t).Fail? && Integer(t).Fail? && Ascii(t).Fail?
    {
      BracketNotElement(t);
    }
  }

  lemma BracketNotElement(t: Bytes)
    requires |t| > 0 && (t[0] == OPEN || t[0] == CLOSE)
    ensures Boolean(t).Fail? && Number(t).Fail? && Integer(t).Fail? && Ascii(t).Fail?
  {
    NotScalar(t);
  }

  /** Text that is empty or starts with a byte no boolean, number or
      integer starts with is none of them. */
  lemma NotScalar(t: Bytes)
    requires |t| == 0 || (!IsDigit(t[0]) && t[0] !in "+-.tf")
    ensures Boolean(t).Fail? && Number(t).Fail? && Integer(t).Fail?
  {
    assert BoolText(true)[0] == 't' && BoolText(false)[0] == 'f';
    assert ScanSign(t).1 == t;
    assert Span(Digits, t).Fail?;
    assert PointFraction(t).Fail? by {
      assert LeadingDigits(t) == ([], t);
    }
  }

  /** Every success of an element recognizer consumes input. */
  lemma ElementsConsume()
    ensures Consumes(Boolean) && Consumes(Number) && Consumes(Integer) && Consumes(Ascii)
  {
  }

  lemma BooleanPiece(b: bool)
    ensures ParsesAs(Boolean, BoolText(b), b)
  {
    forall tail | Delimits(tail)
      ensures Boolean(SkipWs(BoolText(b) + tail)) == Done(b, tail)
    {
      SkipWsNone(BoolText(b) + tail);
      BooleanRoundTrip(b, tail);
    }
  }

  lemma NumberPiece(n: Lexeme)
    requires WellFormed(n)
    ensures ParsesAs(Number, Render(n), Exact(n))
  {
    forall tail | Delimits(tail)
      ensures Number(SkipWs(Render(n) + tail)) == Done(Exact(n), tail)
    {
      var s := Render(n) + tail;
      assert !IsWs(s[0]) by {
        if n.sign != Unsigned {
          assert s[0] == SignText(n.sign)[0];
        } else if |n.whole| > 0 {
          assert s[0] == n.whole[0];
        } else {
          assert s[0] == '.';
        }
      }
      SkipWsNone(s);
      NumberRoundTrip(n, tail);
    }
  }

  lemma IntegerPiece(v: int)
    requires I64_MIN <= v <= I64_MAX
    ensures ParsesAs(Integer, IntegerText(v), v)
  {
    forall tail | Delimits(tail)
      ensures Integer(SkipWs(IntegerText(v) + tail)) == Done(v, tail)
    {
      var s := IntegerText(v) + tail;
      var d := DigitsOf(if v < 0 then -v else v);
      assert !IsWs(s[0]) by {
        if v < 0 {
          assert s[0] == '-';
        } else {
          assert s[0] == d[0];
        }
      }
      SkipWsNone(s);
      IntegerTextRoundTrip(v, tail);
    }
  }

  lemma AsciiPiece(c: Bytes)
    requires QUOTE !in c && Utf8.Valid(c)
    ensures ParsesAs(Ascii, [QUOTE] + c + [QUOTE], c)
  {
    forall tail | Delimits(tail)
      ensures Ascii(SkipWs([QUOTE] + c + [QUOTE] + tail)) == Done(c, tail)
    {
      SkipWsNone([QUOTE] + c + [QUOTE] + tail);
      AsciiRoundTrip(c, tail);
    }
  }
}
