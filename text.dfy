/** The text side of include/Decimal.hpp: the string constructor, fractionAsString,
    stream insertion and the precision formatter to_string. */
module DecimalText {
  import opened MachineInts
  import opened Outcomes
  import opened Digits
  import opened Decimals

  // ---------------------------------------------------------------- searching

  /** std::string::find of one character; |s| stands for npos. */
  function Find(s: string, c: char): (n: nat)
    ensures n <= |s|
    ensures n < |s| ==> s[n] == c
    ensures forall i :: 0 <= i < n ==> s[i] != c
  {
    if s == [] then 0
    else if s[0] == c then 0
    else 1 + Find(s[1..], c)
  }

  /** A character absent from a prefix is found in what follows it. */
  lemma {:induction false} FindAppend(a: string, b: string, c: char)
    requires forall i :: 0 <= i < |a| ==> a[i] != c
    ensures Find(a + b, c) == |a| + Find(b, c)
  {
    if a != [] {
      assert (a + b)[0] == a[0] != c;
      assert (a + b)[1..] == a[1..] + b;
      FindAppend(a[1..], b, c);
      assert Find(a + b, c) == 1 + Find((a + b)[1..], c);
    } else {
      assert a + b == b;
    }
  }

  lemma FindAbsent(s: string, c: char)
    requires forall i :: 0 <= i < |s| ==> s[i] != c
    ensures Find(s, c) == |s|
  {
  }

  lemma DigitsHaveNoPoint(s: string)
    requires AllDigits(s)
    ensures forall i :: 0 <= i < |s| ==> s[i] != '.' && s[i] != '-'
  {
  }

  // ---------------------------------------------------------------- the string constructor

  /** The characters the string constructor lets through: "-01234.56789". */
  predicate Accepted(c: char) { c == '-' || c == '.' || IsDigit(c) }

  predicate AllAccepted(s: string) { forall i :: 0 <= i < |s| ==> Accepted(s[i]) }

  /** The 19-character field the constructor hands to std::stoull for the fraction:
      the text after '.', cut to 19 characters or right-padded with '0'. */
  function FractionField(tmp: string): (field: string)
    ensures |field| == FRACTION_DIGITS
    ensures forall i :: 0 <= i < FRACTION_DIGITS ==> field[i] == if i < |tmp| then tmp[i] else '0'
  {
    if |tmp| > FRACTION_DIGITS then tmp[..FRACTION_DIGITS]
    else tmp + Zeros(FRACTION_DIGITS - |tmp|)
  }

  /** The powers of ten the fraction field needs, unfolded once. */
  lemma Pow10Table()
    ensures Pow10(17) == 100_000_000_000_000_000
    ensures Pow10(18) == 1_000_000_000_000_000_000
    ensures Pow10(FRACTION_DIGITS) == DENOM
  {
    assert Pow10(1) == 10;
    assert Pow10(2) == 100;
    assert Pow10(3) == 1000;
    assert Pow10(4) == 10_000;
    assert Pow10(5) == 100_000;
    assert Pow10(6) == 1_000_000;
    assert Pow10(7) == 10_000_000;
    assert Pow10(8) == 100_000_000;
    assert Pow10(9) == 1_000_000_000;
    assert Pow10(10) == 10_000_000_000;
    assert Pow10(11) == 100_000_000_000;
    assert Pow10(12) == 1_000_000_000_000;
    assert Pow10(13) == 10_000_000_000_000;
    assert Pow10(14) == 100_000_000_000_000;
    assert Pow10(15) == 1_000_000_000_000_000;
    assert Pow10(16) == 10_000_000_000_000_000;
  }

  /** On digits the field truncates beyond the 19th digit and scales a shorter
      fraction up, so its value is always below 10^19. */
  lemma FractionFieldValue(tmp: string)
    requires AllDigits(tmp)
    ensures AllDigits(FractionField(tmp)) && |FractionField(tmp)| == FRACTION_DIGITS
    ensures Number(FractionField(tmp)) < DENOM
    ensures |tmp| >= FRACTION_DIGITS ==>
              Number(FractionField(tmp)) == Number(tmp) / Pow10(|tmp| - FRACTION_DIGITS)
    ensures |tmp| <= FRACTION_DIGITS ==>
              Number(FractionField(tmp)) == Number(tmp) * Pow10(FRACTION_DIGITS - |tmp|)
  {
    Pow10Table();
    if |tmp| >= FRACTION_DIGITS {
      NumberPrefix(tmp, FRACTION_DIGITS);
      if |tmp| == FRACTION_DIGITS {
        assert tmp + Zeros(0) == tmp;
        assert tmp[..FRACTION_DIGITS] == tmp;
      }
    } else {
      NumberTrailingZeros(tmp, FRACTION_DIGITS - |tmp|);
    }
    NumberBound(FractionField(tmp));
  }

  /** The fraction_ that a run of fraction digits yields: the first 19 digits, each
      in its place below the point, and nothing from later digits. */
  function FieldValue(f: string): (n: U64)
    requires AllDigits(f)
    ensures n < DENOM
    ensures |f| >= FRACTION_DIGITS ==> n == Number(f) / Pow10(|f| - FRACTION_DIGITS)
    ensures |f| <= FRACTION_DIGITS ==> n == Number(f) * Pow10(FRACTION_DIGITS - |f|)
  {
    FractionFieldValue(f);
    Number(FractionField(f))
  }

  /** The truncation and padding loop of the string constructor. */
  method PadFraction(tmp: string) returns (t: string)
    ensures t == FractionField(tmp)
  {
    t := tmp;
    if |t| > FRACTION_DIGITS {
      t := t[..FRACTION_DIGITS];
    }
    while |t| < FRACTION_DIGITS
      invariant |tmp| <= FRACTION_DIGITS ==> |tmp| <= |t| <= FRACTION_DIGITS && t == tmp + Zeros(|t| - |tmp|)
      invariant |tmp| > FRACTION_DIGITS ==> t == tmp[..FRACTION_DIGITS]
      decreases FRACTION_DIGITS - |t|
    {
      t := t + "0";
    }
  }

  /** The sign and the text the string constructor goes on to convert: "" reads as
      "0", a leading '-' is taken off (also from "-0"), and a leading '.' with more
      after it gets a '0' in front. */
  function Normalize(value: string): (r: (bool, string))
    ensures r.1 == [] <==> value == "-"
    ensures r.0 <==> value == [] || value[0] != '-'
  {
    var v0 := if value == [] then "0" else value;
    var positive := v0[0] != '-';
    var v1 := if positive then v0 else v0[1..];
    (positive, if |v1| > 1 && v1[0] == '.' then "0" + v1 else v1)
  }

  /** The conversions of the string constructor: std::stoull of the text before the
      first '.', and of the 19-character fraction field after it. */
  function Convert(positive: bool, v: string): (r: Result<Dec>)
    ensures r.Ok? ==> r.value.positive == positive
    ensures r.Ok? && Find(v, '.') == |v| ==> r.value.fraction == 0
    ensures r.Err? ==> r.error == InvalidArgument || r.error == OutOfRange
  {
    var period := Find(v, '.');
    if period == |v| then
      var w :- Stoull(v);
      Ok(Dec(positive, w, 0))
    else
      var w :- Stoull(v[..period]);
      var f :- Stoull(FractionField(v[period + 1..]));
      Ok(Dec(positive, w, f))
  }

  /** The string constructor exactly as written: characters outside "-0123456789."
      throw std::invalid_argument, anything else is normalised and converted.  The
      method Construct is the step-by-step procedure this specifies. */
  function ParseAsWritten(value: string): (r: Result<Dec>)
    ensures !AllAccepted(value) ==> r == Err(InvalidArgument)
  {
    if !AllAccepted(value) then Err(InvalidArgument)
    else
      var (positive, v) := Normalize(value);
      Convert(positive, v)
  }

  /** The string constructor as a procedure, with its padding loop: the
      implementation whose specification is the function ParseAsWritten. */
  method Construct(value: string) returns (r: Result<Dec>)
    ensures r == ParseAsWritten(value)
  {
    if !AllAccepted(value) {
      return Err(InvalidArgument);
    }
    var v := value;
    if |v| == 0 {
      v := "0";
    }
    var positive := true;
    if v[0] == '-' {
      positive := false;
      v := v[1..];
    }
    if |v| > 1 && v[0] == '.' {
      v := "0" + v;
    }
    assert (positive, v) == Normalize(value);
    var period := Find(v, '.');
    if period == |v| {
      var w := Stoull(v);
      if w.Err? {
        return Err(w.error);
      }
      return Ok(Dec(positive, w.value, 0));
    }
    var w := Stoull(v[..period]);
    if w.Err? {
      return Err(w.error);
    }
    var tmp := PadFraction(v[period + 1..]);
    var f := Stoull(tmp);
    if f.Err? {
      return Err(f.error);
    }
    r := Ok(Dec(positive, w.value, f.value));
  }

  /** Text the constructor was written for: a '-' only in front, at most one '.'. */
  predicate WellFormed(value: string)
  {
    AllAccepted(value) && NoInnerMinus(value) && AtMostOnePoint(value)
  }

  predicate NoInnerMinus(s: string) { forall i :: 0 < i < |s| ==> s[i] != '-' }

  predicate AtMostOnePoint(s: string)
  {
    forall i, j :: 0 <= i < j < |s| && s[i] == '.' ==> s[j] != '.'
  }

  /** The string constructor as intended: text that is not well formed is rejected
      like any other bad character, and well-formed text parses as written. */
  function Parse(value: string): (r: Result<Dec>)
    ensures r.Ok? ==> Valid(r.value)
    ensures !WellFormed(value) ==> r == Err(InvalidArgument)
    ensures WellFormed(value) ==> r == ParseAsWritten(value)
  {
    if !WellFormed(value) then Err(InvalidArgument)
    else
      NormalizeWellFormed(value);
      var (positive, v) := Normalize(value);
      ConvertValid(positive, v);
      ParseAsWritten(value)
  }

  /** Normalising well-formed text leaves no '-' and at most one '.'. */
  lemma NormalizeWellFormed(value: string)
    requires WellFormed(value)
    ensures var v := Normalize(value).1;
            AllAccepted(v) && (forall i :: 0 <= i < |v| ==> v[i] != '-') && AtMostOnePoint(v)
  {
    var v0 := if value == [] then "0" else value;
    var positive := v0[0] != '-';
    var v1 := if positive then v0 else v0[1..];
    assert AtMostOnePoint(v1) by {
      forall i, j | 0 <= i < j < |v1| && v1[i] == '.'
        ensures v1[j] != '.'
      {
        if !positive {
          assert v1[i] == value[i + 1] && v1[j] == value[j + 1];
        }
      }
    }
    assert forall i :: 0 <= i < |v1| ==> v1[i] != '-' by {
      forall i | 0 <= i < |v1|
        ensures v1[i] != '-'
      {
        if !positive {
          assert v1[i] == value[i + 1];
        } else if i == 0 {
          assert v1[0] == v0[0];
        }
      }
    }
    var v := Normalize(value).1;
    if |v1| > 1 && v1[0] == '.' {
      assert v == "0" + v1;
      forall i, j | 0 <= i < j < |v| && v[i] == '.'
        ensures v[j] != '.'
      {
        assert i >= 1 && v[i] == v1[i - 1] && v[j] == v1[j - 1];
      }
    }
  }

  /** Without a '-' and with at most one '.', every field std::stoull sees is a digit
      string, so the fraction is below 10^19. */
  lemma ConvertValid(positive: bool, v: string)
    requires AllAccepted(v) && (forall i :: 0 <= i < |v| ==> v[i] != '-') && AtMostOnePoint(v)
    ensures Convert(positive, v).Ok? ==> Valid(Convert(positive, v).value)
  {
    var period := Find(v, '.');
    if period < |v| {
      var tail := v[period + 1..];
      assert forall i :: 0 <= i < |tail| ==> tail[i] == v[period + 1 + i];
      assert AllDigits(tail);
      FractionFieldValue(tail);
      PlainDigits(FractionField(tail));
    }
  }

  function SignText(negative: bool): string { if negative then "-" else "" }

  lemma NormalizeSigned(negative: bool, body: string)
    requires body != [] && body[0] != '-'
    ensures Normalize(SignText(negative) + body) ==
              (!negative, if |body| > 1 && body[0] == '.' then "0" + body else body)
  {
    var t := SignText(negative) + body;
    if negative {
      assert t[1..] == body;
    } else {
      assert t == body;
    }
  }

  lemma ConvertWhole(positive: bool, w: string)
    requires AllDigits(w) && w != []
    ensures Convert(positive, w) == if Number(w) < TWO_64 then Ok(Dec(positive, Number(w), 0)) else Err(OutOfRange)
  {
    DigitsHaveNoPoint(w);
    FindAbsent(w, '.');
  }

  lemma ConvertPoint(positive: bool, w: string, f: string)
    requires AllDigits(w) && AllDigits(f) && w != []
    ensures Convert(positive, w + "." + f) ==
              if Number(w) < TWO_64 then Ok(Dec(positive, Number(w), FieldValue(f))) else Err(OutOfRange)
  {
    var v := w + "." + f;
    DigitsHaveNoPoint(w);
    assert v == w + ("." + f);
    FindAppend(w, "." + f, '.');
    assert Find(v, '.') == |w|;
    assert v[..|w|] == w && v[|w| + 1..] == f;
    FractionFieldValue(f);
    assert Stoull(FractionField(f)) == Ok(FieldValue(f));
  }

  /** A literal [-]digits parses to its integer value, or is out of range. */
  lemma ParseWhole(negative: bool, w: string)
    requires AllDigits(w) && w != []
    ensures Parse(SignText(negative) + w) ==
              if Number(w) < TWO_64 then Ok(Dec(!negative, Number(w), 0)) else Err(OutOfRange)
  {
    var t := SignText(negative) + w;
    DigitsHaveNoPoint(w);
    assert WellFormed(t) by {
      assert forall i :: 0 < i < |t| ==> t[i] == w[i - |SignText(negative)|];
    }
    NormalizeSigned(negative, w);
    ConvertWhole(!negative, w);
  }

  /** A literal [-]digits.digits parses to the integer part and the fraction digits,
      truncated after the 19th digit or padded with zeros. */
  lemma ParsePoint(negative: bool, w: string, f: string)
    requires AllDigits(w) && AllDigits(f) && w != []
    ensures Parse(SignText(negative) + w + "." + f) ==
              if Number(w) < TWO_64 then Ok(Dec(!negative, Number(w), FieldValue(f))) else Err(OutOfRange)
  {
    ParsePointText(negative, w, f);
    ConvertPoint(!negative, w, f);
  }

  /** Text with digits before its '.' is converted as it stands, without the sign. */
  lemma ParsePointText(negative: bool, w: string, f: string)
    requires AllDigits(w) && AllDigits(f) && w != []
    ensures Parse(SignText(negative) + w + "." + f) == Convert(!negative, w + "." + f)
  {
    var body := w + "." + f;
    var t := SignText(negative) + body;
    assert SignText(negative) + w + "." + f == t;
    assert body[0] == w[0];
    PointTextWellFormed(negative, w, f);
    ParseWellFormed(t);
    NormalizeSigned(negative, body);
  }

  lemma ParseWellFormed(t: string)
    requires WellFormed(t)
    ensures Parse(t) == Convert(Normalize(t).0, Normalize(t).1)
  {
  }

  /** A sign, digits, one '.' and digits make well-formed text. */
  lemma PointTextWellFormed(negative: bool, w: string, f: string)
    requires AllDigits(w) && AllDigits(f)
    ensures WellFormed(SignText(negative) + w + "." + f)
  {
    var t := SignText(negative) + w + "." + f;
    var k := |SignText(negative)|;
    var dot := k + |w|;
    forall i | 0 <= i < |t|
      ensures Accepted(t[i]) && (i > 0 ==> t[i] != '-') && (t[i] == '.' ==> i == dot)
    {
      if i < k {
        assert t[i] == '-' && i == 0;
      } else if i < dot {
        assert t[i] == w[i - k];
      } else if i > dot {
        assert t[i] == f[i - dot - 1];
      }
    }
  }

  /** A literal [-].digits parses as [-]0.digits. */
  lemma ParseLeadingPoint(negative: bool, f: string)
    requires AllDigits(f) && f != []
    ensures Parse(SignText(negative) + "." + f) == Ok(Dec(!negative, 0, FieldValue(f)))
  {
    LeadingPointText(negative, f);
    ConvertPoint(!negative, "0", f);
    assert Number("0") == 0;
  }

  /** A leading '.' gets a '0' in front before the text is converted. */
  lemma LeadingPointText(negative: bool, f: string)
    requires AllDigits(f) && f != []
    ensures Parse(SignText(negative) + "." + f) == Convert(!negative, "0" + "." + f)
  {
    var body := "." + f;
    var t := SignText(negative) + body;
    assert SignText(negative) + "." + f == t;
    PointTextWellFormed(negative, "", f);
    assert SignText(negative) + "" + "." + f == t;
    ParseWellFormed(t);
    NormalizeSigned(negative, body);
    assert "0" + body == "0" + "." + f;
  }

  /** "" is zero and "-0" a negative zero. */
  lemma ParseZeros()
    ensures Parse("") == Ok(Zero)
    ensures Parse("-0") == Ok(Dec(false, 0, 0))
  {
    assert Number("0") == 0;
    assert "-0" == SignText(true) + "0";
    ParseWhole(true, "0");
    assert Normalize("") == (true, "0");
    ConvertWhole(true, "0");
  }

  lemma StoullMinusField()
    ensures Stoull(FractionField("-5")) == Ok(TWO_64 - 500_000_000_000_000_000)
  {
    MinusFiveField();
    FiveField();
    StoullNegative("-" + ("5" + Zeros(17)));
  }

  lemma MinusFiveField()
    ensures FractionField("-5") == "-" + ("5" + Zeros(17))
  {
    assert FractionField("-5") == "-5" + Zeros(17);
  }

  /** std::stoull negates a magnitude written after a '-' modulo 2^64. */
  lemma StoullNegative(s: string)
    requires |s| >= 2 && s[0] == '-' && AllDigits(s[1..]) && Number(s[1..]) < TWO_64
    ensures Stoull(s) == Ok(Wrap(-(Number(s[1..]) as int)))
  {
    var body := s[1..];
    assert SignLength(s) == 1;
    DigitPrefixOfDigits(body);
    assert body[..|body|] == body;
  }

  lemma FiveField()
    ensures AllDigits("5" + Zeros(17)) && Number("5" + Zeros(17)) == 500_000_000_000_000_000
  {
    assert Number("5") == 5;
    Pow10Table();
    NumberTrailingZeros("5", 17);
  }

  lemma StoullStopsAtMinus()
    ensures Stoull(FractionField("5-3")) == Ok(5)
  {
    var fb := FractionField("5-3");
    assert fb[0..] == fb;
    assert DigitPrefix(fb) == 1 by {
      assert fb[1..][0] == '-';
    }
    assert fb[..1] == "5";
    assert Number("5") == 5;
  }

  lemma ConvertOne(rest: string)
    requires |rest| >= 2 && rest[0] == '.'
    ensures Convert(true, "1" + rest) ==
              var f := Stoull(FractionField(rest[1..])); if f.Ok? then Ok(Dec(true, 1, f.value)) else Err(f.error)
  {
    var v := "1" + rest;
    assert Find(v, '.') == 1 by { assert v[0] != '.' && v[1..] == rest; }
    assert v[..1] == "1" && v[2..] == rest[1..];
    assert Number("1") == 1;
    PlainDigits("1");
  }

  /** Text that starts with '1' and passes the character check is converted as it stands. */
  lemma ParseOne(rest: string)
    requires AllAccepted("1" + rest)
    ensures ParseAsWritten("1" + rest) == Convert(true, "1" + rest)
  {
    var v := "1" + rest;
    assert v[0] == '1';
    assert Normalize(v) == (true, v);
  }

  /** As written, a '-' after the first character passes the character check and
      reaches std::stoull: "1.-5" yields a fraction_ of 2^64 - 5 * 10^17, past the
      class invariant, and "1.5-3" yields 1.0000000000000000005. */
  lemma ParseMinusAsWritten()
    ensures ParseAsWritten("1.-5") == Ok(Dec(true, 1, TWO_64 - 500_000_000_000_000_000))
    ensures !Valid(ParseAsWritten("1.-5").value)
    ensures ParseAsWritten("1.5-3") == Ok(Dec(true, 1, 5))
    ensures Parse("1.-5") == Err(InvalidArgument) && Parse("1.5-3") == Err(InvalidArgument)
  {
    var a, b := "1" + ".-5", "1" + ".5-3";
    assert a == "1.-5" && b == "1.5-3";
    assert AllAccepted(a) by { assert forall i :: 0 <= i < |a| ==> a[i] in "1.-5"; }
    assert AllAccepted(b) by { assert forall i :: 0 <= i < |b| ==> b[i] in "1.5-3"; }
    ParseOne(".-5");
    ParseOne(".5-3");
    assert ".-5"[1..] == "-5" && ".5-3"[1..] == "5-3";
    ConvertOne(".-5");
    ConvertOne(".5-3");
    StoullMinusField();
    StoullStopsAtMinus();
    assert !NoInnerMinus(a) by { assert a[2] == '-'; }
    assert !NoInnerMinus(b) by { assert b[3] == '-'; }
  }

  lemma StoullStopsAtPoint()
    ensures Stoull(FractionField("2.3")) == Ok(2)
  {
    var fb := FractionField("2.3");
    assert fb[0..] == fb;
    assert DigitPrefix(fb) == 1 by {
      assert fb[1..][0] == '.';
    }
    assert fb[..1] == "2";
    assert Number("2") == 2;
  }

  /** As written, a second '.' passes the character check, and std::stoull of the
      fraction field stops at it: "1.2.3" yields 1.0000000000000000002. */
  lemma ParseSecondPointAsWritten()
    ensures ParseAsWritten("1.2.3") == Ok(Dec(true, 1, 2))
    ensures Parse("1.2.3") == Err(InvalidArgument)
  {
    var a := "1" + ".2.3";
    assert a == "1.2.3";
    assert AllAccepted(a) by { assert forall i :: 0 <= i < |a| ==> a[i] in "1.2.3"; }
    ParseOne(".2.3");
    assert ".2.3"[1..] == "2.3";
    ConvertOne(".2.3");
    StoullStopsAtPoint();
    assert !AtMostOnePoint(a) by { assert a[1] == '.' && a[3] == '.'; }
  }

  // ---------------------------------------------------------------- writing

  /** The text without its trailing '0' characters. */
  function StripZeros(s: string): (t: string)
    ensures |t| <= |s| && t == s[..|t|]
    ensures t == [] || t[|t| - 1] != '0'
    ensures forall i :: |t| <= i < |s| ==> s[i] == '0'
    decreases |s|
  {
    if |s| > 0 && s[|s| - 1] == '0' then StripZeros(s[..|s| - 1]) else s
  }

  /** std::to_string of the fraction, left-padded with '0' to 19 digits. */
  function LeftPad(s: string): string
  {
    if |s| < FRACTION_DIGITS then Zeros(FRACTION_DIGITS - |s|) + s else s
  }

  /** The specification of fractionAsString: "0" for no fraction, otherwise the
      19 fraction digits with the trailing zeros taken off. */
  function FractionText(f: U64): (t: string)
    ensures AllDigits(t)
    ensures t == "0" <==> f == 0
  {
    if f == 0 then "0" else StripZeros(LeftPad(ToDecimal(f)))
  }

  /** fractionAsString, with its padding and stripping loops: the implementation
      whose specification is the function FractionText. */
  method FractionAsString(f: U64) returns (res: string)
    ensures res == FractionText(f)
  {
    if f == 0 {
      return "0";
    }
    res := PadDigits(ToDecimal(f));
    res := DropZeros(res);
  }

  /** The first loop of fractionAsString: '0' in front until there are 19 digits. */
  method PadDigits(digits: string) returns (res: string)
    ensures res == LeftPad(digits)
  {
    res := digits;
    while |res| < FRACTION_DIGITS
      invariant |digits| <= |res| && res == Zeros(|res| - |digits|) + digits
      invariant |digits| < FRACTION_DIGITS ==> |res| <= FRACTION_DIGITS
      invariant |digits| >= FRACTION_DIGITS ==> res == digits
      decreases FRACTION_DIGITS - |res|
    {
      res := "0" + res;
    }
  }

  /** The second loop of fractionAsString: trailing '0' characters popped off. */
  method DropZeros(s: string) returns (res: string)
    ensures res == StripZeros(s)
  {
    res := s;
    while |res| > 0 && res[|res| - 1] == '0'
      invariant StripZeros(res) == StripZeros(s)
      decreases |res|
    {
      res := res[..|res| - 1];
    }
  }

  lemma LeftPadValue(f: U64)
    requires 0 < f < DENOM
    ensures var p := LeftPad(ToDecimal(f));
            |p| == FRACTION_DIGITS && AllDigits(p) && Number(p) == f
  {
    var digits := ToDecimal(f);
    Pow10Table();
    ToDecimalLength(f, FRACTION_DIGITS);
    NumberLeadingZeros(FRACTION_DIGITS - |digits|, digits);
  }

  /** Stripping the zeros of a non-zero digit string leaves a non-empty prefix that
      the zeros pad back to the whole. */
  lemma StripNonZero(p: string)
    requires AllDigits(p) && Number(p) > 0
    ensures var t := StripZeros(p);
            t != [] && AllDigits(t) && p == t + Zeros(|p| - |t|)
  {
    var t := StripZeros(p);
    assert p == t + Zeros(|p| - |t|);
    NumberZeros(|p|);
    assert p != Zeros(|p|);
  }

  /** A fraction below 10^19 is written as at most 19 digits, the last not '0',
      which the string constructor reads back as the same fraction. */
  lemma FractionTextDigits(f: U64)
    requires 0 < f < DENOM
    ensures var t := FractionText(f);
            AllDigits(t) && 1 <= |t| <= FRACTION_DIGITS && t[|t| - 1] != '0' && FieldValue(t) == f
  {
    var padded := LeftPad(ToDecimal(f));
    LeftPadValue(f);
    StripNonZero(padded);
    var t := StripZeros(padded);
    assert FractionText(f) == t;
    assert FractionField(t) == padded;
  }

  /** operator<<: '-' for a negative sign, the whole part, and '.' with
      fractionAsString when the fraction is not zero. */
  function Format(d: Dec): (t: string)
    ensures t != [] && (t[0] == '-' <==> !d.positive)
  {
    SignText(!d.positive) + ToDecimal(d.whole) +
    (if d.fraction > 0 then "." + FractionText(d.fraction) else "")
  }

  /** operator<< puts the '.' right after the sign and the whole digits, and only
      when the fraction is not zero; the text before it is what to_string keeps at
      precision 0. */
  lemma FormatPoint(d: Dec)
    ensures var t := Format(d);
            var head := SignText(!d.positive) + ToDecimal(d.whole);
            Find(t, '.') == |head| && t[..|head|] == head &&
            (d.fraction == 0 <==> Find(t, '.') == |t|)
  {
    var head := SignText(!d.positive) + ToDecimal(d.whole);
    var rest := if d.fraction > 0 then "." + FractionText(d.fraction) else "";
    assert Format(d) == head + rest;
    SignedDigitsHaveNoPoint(!d.positive, ToDecimal(d.whole));
    PointAfter(head, rest);
  }

  lemma SignedDigitsHaveNoPoint(negative: bool, w: string)
    requires AllDigits(w)
    ensures forall i :: 0 <= i < |SignText(negative) + w| ==> (SignText(negative) + w)[i] != '.'
  {
    var head := SignText(negative) + w;
    forall i | 0 <= i < |head|
      ensures head[i] != '.'
    {
      if i >= |SignText(negative)| {
        assert head[i] == w[i - |SignText(negative)|];
      }
    }
  }

  /** In a text with no '.' before rest, the first '.' is where rest starts it. */
  lemma PointAfter(head: string, rest: string)
    requires forall i :: 0 <= i < |head| ==> head[i] != '.'
    requires rest == [] || rest[0] == '.'
    ensures Find(head + rest, '.') == |head| && (head + rest)[..|head|] == head
    ensures rest == [] <==> Find(head + rest, '.') == |head + rest|
  {
    FindAppend(head, rest, '.');
    assert (head + rest)[..|head|] == head;
  }

  /** What operator<< writes the string constructor reads back: the same value,
      negative zero included. */
  lemma ParseFormat(d: Dec)
    requires Valid(d)
    ensures Parse(Format(d)) == Ok(d)
  {
    if d.fraction == 0 {
      ParseFormatWhole(d);
    } else {
      ParseFormatPoint(d);
    }
  }

  lemma ParseFormatWhole(d: Dec)
    requires Valid(d) && d.fraction == 0
    ensures Parse(Format(d)) == Ok(d)
  {
    var w := ToDecimal(d.whole);
    assert Format(d) == SignText(!d.positive) + w;
    ParseWhole(!d.positive, w);
  }

  lemma ParseFormatPoint(d: Dec)
    requires Valid(d) && d.fraction > 0
    ensures Parse(Format(d)) == Ok(d)
  {
    var w := ToDecimal(d.whole);
    var f := FractionText(d.fraction);
    FractionTextDigits(d.fraction);
    var t := Format(d);
    assert t == SignText(!d.positive) + w + "." + f;
    ParsePoint(!d.positive, w, f);
    assert Parse(t) == Ok(Dec(d.positive, d.whole, FieldValue(f)));
  }

  /** to_string(amount, precision): the text operator<< writes; with precision 0 the
      part before '.', with precision p > 0 exactly p digits after '.', cut or
      padded with '0' and never rounded. */
  method ToString(amount: Dec, precision: Option<nat>) returns (s: string)
    ensures precision.None? ==> s == Format(amount)
    ensures precision == Some(0) ==> s == Format(amount)[..Find(Format(amount), '.')]
    ensures precision.Some? && precision.value > 0 ==>
              var t := Format(amount);
              var k := Find(t, '.');
              |s| == k + 1 + precision.value && s[..k] == t[..k] && s[k] == '.' &&
              forall i :: k < i < |s| ==> s[i] == if i < |t| then t[i] else '0'
  {
    var text := Format(amount);
    if precision.None? {
      return text;
    }
    var p := precision.value;
    var pos := Find(text, '.');
    if p == 0 {
      if pos == |text| {
        return text;
      }
      return text[..pos];
    }
    s := FixPrecision(text, p);
  }

  /** The branch of to_string for a precision p > 0: a '.' is appended when there is
      none, '0' characters are appended up to p digits after it, and the text is then
      cut after the p-th digit. */
  method FixPrecision(text: string, p: nat) returns (s: string)
    requires p > 0
    ensures var k := Find(text, '.');
            |s| == k + 1 + p && s[..k] == text[..k] && s[k] == '.' &&
            forall i :: k < i < |s| ==> s[i] == if i < |text| then text[i] else '0'
  {
    var tmp := text;
    var pos := Find(tmp, '.');
    if pos == |tmp| {
      tmp := tmp + ".";
      FindAppend(text, ".", '.');
      pos := Find(tmp, '.');
    }
    while |tmp| < pos + 1 + p
      invariant pos == Find(text, '.') && pos < |tmp| && tmp[..pos] == text[..pos] && tmp[pos] == '.'
      invariant forall i :: pos < i < |tmp| ==> tmp[i] == if i < |text| then text[i] else '0'
      invariant |text| <= |tmp| || |tmp| == pos + 1
      decreases pos + 1 + p - |tmp|
    {
      tmp := tmp + "0";
    }
    if |tmp| > pos + 1 + p {
      return tmp[..pos + 1 + p];
    }
    return tmp;
  }
}
