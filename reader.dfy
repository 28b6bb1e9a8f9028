/** Stream extraction, operator>>(istream&, Decimal&), over a character stream that
    is only peeked at and read one character at a time. */
module DecimalReader {
  import opened MachineInts
  import opened Outcomes
  import opened Digits
  import opened Decimals
  import opened DecimalText

  // ---------------------------------------------------------------- the stream

  /** What operator>> sees of an std::istream: its characters, the read position,
      and whether it is still good (neither end of file nor failure reached). */
  datatype Cursor = Cursor(text: string, pos: nat, good: bool)

  /** istream::peek: the next character, or end of file.  Peeking at the end, or at a
      stream that is no longer good, yields nothing and leaves the stream not good. */
  function PeekAt(c: Cursor): (r: (Option<char>, Cursor))
    ensures r.0.Some? <==> c.good && c.pos < |c.text|
    ensures r.0.Some? ==> r.0.value == c.text[c.pos]
    ensures r.1.text == c.text && r.1.pos == c.pos
    ensures r.1.good <==> r.0.Some?
  {
    if c.good && c.pos < |c.text| then (Some(c.text[c.pos]), c) else (None, c.(good := false))
  }

  /** Peeking consumes nothing: a second peek sees the same as the first. */
  lemma PeekTwice(c: Cursor)
    ensures PeekAt(PeekAt(c).1) == PeekAt(c)
  {
  }

  /** is >> ch right after a peek that saw a character: that character is consumed. */
  function Advance(c: Cursor): Cursor
  {
    c.(pos := c.pos + 1)
  }

  /** is >> whole_ (std::num_get for unsigned long long): an optional sign, then the
      longest run of digits.  No digit stores 0 and fails the stream, a magnitude past
      2^64 - 1 stores 2^64 - 1 and fails it, a '-' negates modulo 2^64, and running into
      the end of the text leaves the stream at end of file.  A stream that is no
      longer good stores nothing.  The specification of CharStream.ReadU64. */
  function ScanWhole(c: Cursor, prior: U64): (r: (U64, Cursor))
    ensures r.1.text == c.text && r.1.pos >= c.pos
    ensures !c.good || c.pos >= |c.text| ==> r == (prior, c.(good := false))
  {
    if !c.good || c.pos >= |c.text| then (prior, c.(good := false))
    else
      var (v, n, failed) := NumGet(c.text[c.pos..]);
      var end := c.pos + n;
      (v, Cursor(c.text, end, !failed && end < |c.text|))
  }

  /** What num_get makes of the text in front of it: the value stored, the number of
      characters consumed, and whether it failed. */
  function NumGet(rest: string): (r: (U64, nat, bool))
    ensures r.1 <= |rest|
    ensures r.2 <==> Stoull(rest).Err?
    ensures !r.2 ==> Stoull(rest) == Ok(r.0)
    ensures Stoull(rest) == Err(OutOfRange) ==> r.0 == TWO_64 - 1
    ensures Stoull(rest) == Err(InvalidArgument) ==> r == (0, SignLength(rest), true)
  {
    var sign := SignLength(rest);
    var n := DigitPrefix(rest[sign..]);
    if n == 0 then (0, sign, true)
    else
      var magnitude := Number(rest[sign..][..n]);
      if magnitude >= TWO_64 then (TWO_64 - 1, sign + n, true)
      else if rest[0] == '-' then (Wrap(-(magnitude as int)), sign + n, false)
      else (magnitude, sign + n, false)
  }

  /** The digit loop of operator>>: digit k after the point (k = 0, 1, ...) adds
      digit * 10^(m - k), and after the digit of place 10^0 the loop stops reading. */
  function ScanFraction(c: Cursor, m: nat): (r: (nat, Cursor))
    ensures r.0 < Pow10(m + 1)
    ensures r.1.text == c.text
    decreases m
  {
    var (p, c1) := PeekAt(c);
    if p.Some? && IsDigit(p.value) then
      var c2 := Advance(c1);
      var term := DigitValue(p.value) * Pow10(m);
      if m == 0 then (term, c2)
      else
        var (rest, c3) := ScanFraction(c2, m - 1);
        MulMonotone(DigitValue(p.value), 9, Pow10(m));
        (term + rest, c3)
    else (0, c1)
  }

  /** The sign step of operator>>: a '-' is consumed and makes the value negative. */
  function ExtractSign(c: Cursor): (r: (bool, Cursor))
    ensures r.1.text == c.text
    ensures !r.0 <==> c.good && c.pos < |c.text| && c.text[c.pos] == '-'
    ensures r.1.pos == if r.0 then c.pos else c.pos + 1
  {
    var (p, c1) := PeekAt(c);
    if p == Some('-') then (false, Advance(c1)) else (true, c1)
  }

  /** The whole-part step: a '.' straight away means no whole part and a whole_ of 0;
      otherwise the whole part is extracted as an unsigned integer over prior. */
  function ExtractWhole(c: Cursor, prior: U64): (r: (U64, bool, Cursor))
    ensures r.2.text == c.text && r.2.pos >= c.pos
    ensures r.1 <==> c.good && c.pos < |c.text| && c.text[c.pos] == '.'
    ensures r.1 ==> r.0 == 0 && r.2 == c
  {
    var (p, c1) := PeekAt(c);
    if p == Some('.') then (0, true, c1)
    else
      var (w, c2) := ScanWhole(c1, prior);
      (w, false, c2)
  }

  /** The fraction step: without a '.' the fraction is 0; after one, at most 19 digits
      are read; a '.' with neither whole digits before it nor a digit after it throws
      std::invalid_argument and leaves the fraction as it was. */
  function ExtractFraction(c: Cursor, missingWhole: bool, prior: U64): (r: (Option<Error>, U64, Cursor))
    ensures r.2.text == c.text
    ensures r.0.Some? ==> r.0 == Some(InvalidArgument) && missingWhole && r.1 == prior
    ensures r.0.None? ==> r.1 < DENOM
  {
    var (p, c1) := PeekAt(c);
    if p != Some('.') then (None, 0, c1)
    else
      var c2 := Advance(c1);
      var (p2, c3) := PeekAt(c2);
      if missingWhole && !(p2.Some? && IsDigit(p2.value)) then (Some(InvalidArgument), prior, c3)
      else
        var (f, c4) := ScanFraction(c3, FRACTION_DIGITS - 1);
        Pow10Table();
        (None, f, c4)
  }

  /** The outcome of operator>>: the new value of its Decimal operand, the exception
      it throws, if any, and the stream afterwards. */
  datatype Extraction = Extraction(value: Dec, error: Option<Error>, rest: Cursor)

  /** operator>>: sign, whole part, fraction, each read from where the last stopped.
      This is the specification; Compound.Decimal.ReadFrom is the procedure that
      updates the object in place and is proved to follow it. */
  function Extract(c: Cursor, prior: Dec): (r: Extraction)
    ensures r.rest.text == c.text
    ensures r.error.Some? ==> r.error == Some(InvalidArgument) && r.value.fraction == prior.fraction
    ensures r.error.None? ==> r.value.fraction < DENOM
  {
    var (positive, c1) := ExtractSign(c);
    var (whole, missingWhole, c2) := ExtractWhole(c1, prior.whole);
    var (error, fraction, c3) := ExtractFraction(c2, missingWhole, prior.fraction);
    Extraction(Dec(positive, whole, fraction), error, c3)
  }

  // ---------------------------------------------------------------- properties

  /** Whatever the stream holds, the fraction extracted is below 10^19. */
  lemma ExtractValid(c: Cursor, prior: Dec)
    requires Valid(prior)
    ensures Valid(Extract(c, prior).value)
  {
    var (positive, c1) := ExtractSign(c);
    var (whole, missingWhole, c2) := ExtractWhole(c1, prior.whole);
    ExtractFractionValid(c2, missingWhole, prior.fraction);
  }

  lemma ExtractFractionValid(c: Cursor, missingWhole: bool, prior: U64)
    requires prior < DENOM
    ensures ExtractFraction(c, missingWhole, prior).1 < DENOM
  {
    Pow10Table();
  }

  /** One turn of the digit loop: a digit is consumed and weighted by 10^m. */
  lemma ScanFractionStep(c: Cursor, m: nat)
    requires c.good && c.pos < |c.text| && IsDigit(c.text[c.pos])
    ensures var term := DigitValue(c.text[c.pos]) * Pow10(m);
            ScanFraction(c, m) ==
              if m == 0 then (term, Advance(c))
              else (term + ScanFraction(Advance(c), m - 1).0, ScanFraction(Advance(c), m - 1).1)
  {
  }

  /** One round of the digit loop over a partial sum: the uint64_t addition does not
      wrap, and what is left to read accounts for the rest of the total. */
  lemma DigitStep(c: Cursor, m: nat, sum: nat, total: nat)
    requires c.good && c.pos < |c.text| && IsDigit(c.text[c.pos])
    requires sum + ScanFraction(c, m).0 == total && total < DENOM
    ensures var t := DigitValue(c.text[c.pos]) * Pow10(m);
            Wrap(sum + t) == sum + t &&
            (m == 0 ==> sum + t == total && ScanFraction(c, m).1 == Advance(c)) &&
            (m > 0 ==> sum + t + ScanFraction(Advance(c), m - 1).0 == total &&
                       ScanFraction(Advance(c), m - 1).1 == ScanFraction(c, m).1)
  {
    ScanFractionStep(c, m);
    var t := DigitValue(c.text[c.pos]) * Pow10(m);
    if m == 0 {
      assert ScanFraction(c, m) == (t, Advance(c));
    } else {
      var r := ScanFraction(Advance(c), m - 1);
      assert ScanFraction(c, m) == (t + r.0, r.1);
    }
    MulMonotone(0, DigitValue(c.text[c.pos]), Pow10(m));
    var x := sum + t;
    assert 0 <= x < TWO_64;
    assert Wrap(x) == x;
  }

  /** The digit loop ends at a character that is not a digit, or at the end. */
  lemma ScanFractionStop(c: Cursor, m: nat, ch: Option<char>)
    ensures PeekAt(c) == (ch, c) && !(ch.Some? && IsDigit(ch.value)) ==> ScanFraction(c, m) == (0, c)
  {
  }

  /** The digit loop never reaches 10^19. */
  lemma ScanFractionBound(c: Cursor)
    ensures ScanFraction(c, FRACTION_DIGITS - 1).0 < DENOM
  {
    Pow10Table();
  }

  /** Peeking first changes nothing the digit loop would read. */
  lemma ScanFractionPeek(c: Cursor, m: nat)
    ensures ScanFraction(PeekAt(c).1, m) == ScanFraction(c, m)
  {
  }

  lemma ScanFractionEnd(c: Cursor, m: nat)
    requires c.pos == |c.text|
    ensures ScanFraction(c, m) == (0, c.(good := false))
  {
  }

  lemma Distribute(d: nat, p: nat, k: nat, n: nat)
    ensures d * (p * k) + n * k == (d * p + n) * k
  {
  }

  lemma PlaceArith(d: nat, n: nat, len: nat, m: nat, k: nat)
    requires m == len + k
    ensures d * Pow10(m) + n * Pow10(k) == (d * Pow10(len) + n) * Pow10(k)
  {
    Pow10Add(len, k);
    Distribute(d, Pow10(len), Pow10(k), n);
  }

  /** A digit string is its first digit in the top place and the rest below it. */
  lemma NumberHead(f: string)
    requires AllDigits(f) && f != []
    ensures Number(f) == DigitValue(f[0]) * Pow10(|f| - 1) + Number(f[1..])
  {
    var h := [f[0]];
    assert f == h + f[1..];
    assert h[..0] == [];
    assert Number(h) == DigitValue(f[0]);
    NumberConcat(h, f[1..]);
  }

  /** Reading the digits that remain in the stream, at most m + 1 of them, gives their
      value scaled to places 10^m downwards, and consumes them all. */
  lemma {:induction false} ScanFractionDigits(text: string, pos: nat, m: nat)
    requires pos <= |text| && AllDigits(text[pos..]) && |text| - pos <= m + 1
    ensures ScanFraction(Cursor(text, pos, true), m).0 == Number(text[pos..]) * Pow10(m + 1 - (|text| - pos))
    ensures ScanFraction(Cursor(text, pos, true), m).1.pos == |text|
    decreases m
  {
    var f := text[pos..];
    var c := Cursor(text, pos, true);
    if pos == |text| {
      ScanFractionEnd(c, m);
      assert f == [];
    } else {
      assert text[pos] == f[0];
      ScanFractionStep(c, m);
      NumberHead(f);
      var tail := text[pos + 1..];
      assert f[1..] == tail;
      if m == 0 {
        assert tail == [];
      } else {
        ScanFractionDigits(text, pos + 1, m - 1);
        PlaceArith(DigitValue(f[0]), Number(tail), |tail|, m, m - |tail|);
      }
    }
  }

  /** A digit run followed by nothing or by a non-digit has that run as its prefix. */
  lemma {:induction false} DigitPrefixAppend(w: string, tail: string)
    requires AllDigits(w) && (tail == [] || !IsDigit(tail[0]))
    ensures DigitPrefix(w + tail) == |w|
  {
    if w == [] {
      assert w + tail == tail;
    } else {
      assert (w + tail)[1..] == w[1..] + tail;
      DigitPrefixAppend(w[1..], tail);
    }
  }

  /** Extracting an unsigned integer from digits followed by nothing or by a
      non-digit reads exactly those digits. */
  lemma ScanWholeDigits(text: string, pos: nat, w: string, tail: string, prior: U64)
    requires pos <= |text| && text[pos..] == w + tail
    requires AllDigits(w) && w != [] && Number(w) < TWO_64 && (tail == [] || !IsDigit(tail[0]))
    ensures ScanWhole(Cursor(text, pos, true), prior) == (Number(w), Cursor(text, pos + |w|, pos + |w| < |text|))
  {
    NumGetDigits(w, tail);
  }

  lemma NumGetDigits(w: string, tail: string)
    requires AllDigits(w) && w != [] && Number(w) < TWO_64 && (tail == [] || !IsDigit(tail[0]))
    ensures NumGet(w + tail) == (Number(w), |w|, false)
  {
    var rest := w + tail;
    assert rest[0] == w[0];
    assert IsDigit(rest[0]);
    var sign := SignLength(rest);
    assert sign == 0;
    var body := rest[sign..];
    assert body == rest;
    DigitPrefixAppend(w, tail);
    assert body[..|w|] == w;
  }

  /** The text operator<< writes, taken apart: sign, whole digits, and either nothing
      or '.' and at most 19 fraction digits. */
  predicate Literal(t: string, negative: bool, w: string, f: string)
  {
    AllDigits(w) && w != [] && Number(w) < TWO_64 && AllDigits(f) && |f| <= FRACTION_DIGITS &&
    t == SignText(negative) + w + (if f == [] then "" else "." + f)
  }

  lemma LiteralSign(t: string, negative: bool, w: string, f: string)
    requires Literal(t, negative, w, f)
    ensures ExtractSign(Cursor(t, 0, true)) == (!negative, Cursor(t, |SignText(negative)|, true))
  {
    assert t == SignText(negative) + (w + (if f == [] then "" else "." + f));
    if negative {
      assert t[0] == '-';
    } else {
      assert t[0] == w[0];
    }
  }

  lemma ExtractWholeDigits(text: string, pos: nat, w: string, tail: string, prior: U64)
    requires pos <= |text| && text[pos..] == w + tail
    requires AllDigits(w) && w != [] && Number(w) < TWO_64 && (tail == [] || !IsDigit(tail[0]))
    ensures ExtractWhole(Cursor(text, pos, true), prior) == (Number(w), false, Cursor(text, pos + |w|, pos + |w| < |text|))
  {
    assert text[pos] == w[0];
    ScanWholeDigits(text, pos, w, tail, prior);
  }

  /** Past its sign, a literal is its whole digits followed by nothing or a '.'. */
  lemma LiteralRest(t: string, negative: bool, w: string, f: string)
    requires Literal(t, negative, w, f)
    ensures var k := |SignText(negative)|;
            var tail := if f == [] then "" else "." + f;
            k <= |t| && t[k..] == w + tail && (tail == [] || !IsDigit(tail[0]))
  {
    var tail := if f == [] then "" else "." + f;
    assert t == SignText(negative) + (w + tail);
  }

  lemma LiteralWhole(t: string, negative: bool, w: string, f: string, prior: U64)
    requires Literal(t, negative, w, f)
    ensures var k := |SignText(negative)|;
            ExtractWhole(Cursor(t, k, true), prior) == (Number(w), false, Cursor(t, k + |w|, k + |w| < |t|))
  {
    LiteralRest(t, negative, w, f);
    ExtractWholeDigits(t, |SignText(negative)|, w, if f == [] then "" else "." + f, prior);
  }

  lemma LiteralFraction(t: string, negative: bool, w: string, f: string, prior: U64)
    requires Literal(t, negative, w, f)
    ensures var end := |SignText(negative)| + |w|;
            var r := ExtractFraction(Cursor(t, end, end < |t|), false, prior);
            r.0 == None && r.1 == (if f == [] then 0 else FieldValue(f)) && r.2.pos == |t|
  {
    if f == [] {
      LiteralEnd(t, negative, w, f);
      FractionAtEnd(t, |SignText(negative)| + |w|, prior);
    } else {
      LiteralPoint(t, negative, w, f);
      ExtractFractionDigits(t, |SignText(negative)| + |w|, f, prior);
    }
  }

  lemma LiteralEnd(t: string, negative: bool, w: string, f: string)
    requires Literal(t, negative, w, f) && f == []
    ensures |SignText(negative)| + |w| == |t|
  {
    assert t == SignText(negative) + w + "";
  }

  /** At the end of the text there is no fraction. */
  lemma FractionAtEnd(t: string, end: nat, prior: U64)
    requires end == |t|
    ensures ExtractFraction(Cursor(t, end, end < |t|), false, prior) == (None, 0, Cursor(t, end, false))
  {
  }

  lemma LiteralPoint(t: string, negative: bool, w: string, f: string)
    requires Literal(t, negative, w, f) && f != []
    ensures var end := |SignText(negative)| + |w|;
            end < |t| && t[end] == '.' && t[end + 1..] == f
  {
    assert t == (SignText(negative) + w) + ("." + f);
  }

  /** A '.' followed by at most 19 digits up to the end of the text: the digits are
      read as the fraction, scaled to 19 places, and all of the text is consumed. */
  lemma ExtractFractionDigits(t: string, dot: nat, f: string, prior: U64)
    requires dot < |t| && t[dot] == '.' && t[dot + 1..] == f
    requires AllDigits(f) && f != [] && |f| <= FRACTION_DIGITS
    ensures var r := ExtractFraction(Cursor(t, dot, dot < |t|), false, prior);
            r.0 == None && r.1 == FieldValue(f) && r.2.pos == |t|
  {
    ExtractFractionPoint(t, dot, prior);
    ScanFractionDigits(t, dot + 1, FRACTION_DIGITS - 1);
    assert |t| - (dot + 1) == |f|;
  }

  /** After a '.' that a whole part came before, the fraction is what the digit loop reads. */
  lemma ExtractFractionPoint(t: string, dot: nat, prior: U64)
    requires dot + 1 < |t| && t[dot] == '.'
    ensures var s := ScanFraction(Cursor(t, dot + 1, true), FRACTION_DIGITS - 1);
            s.0 < DENOM && ExtractFraction(Cursor(t, dot, true), false, prior) == (None, s.0, s.1)
  {
    Pow10Table();
  }

  /** operator>> reads a literal back as its sign, whole part and fraction digits. */
  lemma ExtractLiteral(t: string, negative: bool, w: string, f: string, prior: Dec)
    requires Literal(t, negative, w, f)
    ensures var e := Extract(Cursor(t, 0, true), prior);
            e.value == Dec(!negative, Number(w), if f == [] then 0 else FieldValue(f)) &&
            e.error == None && e.rest.pos == |t|
  {
    LiteralSign(t, negative, w, f);
    LiteralWhole(t, negative, w, f, prior.whole);
    LiteralFraction(t, negative, w, f, prior.fraction);
  }

  /** What operator<< writes, operator>> reads back: the same value, with no exception
      and the whole text consumed (source/runTests.cpp:196-210). */
  lemma ExtractFormat(d: Dec, prior: Dec)
    requires Valid(d)
    ensures var e := Extract(Cursor(Format(d), 0, true), prior);
            e.value == d && e.error == None && e.rest.pos == |Format(d)|
  {
    var w := ToDecimal(d.whole);
    var f := if d.fraction > 0 then FractionText(d.fraction) else "";
    if d.fraction > 0 {
      FractionTextDigits(d.fraction);
    }
    assert Literal(Format(d), !d.positive, w, f);
    ExtractLiteral(Format(d), !d.positive, w, f, prior);
  }

  // ---------------------------------------------------------------- the place values as written

  /** A two's-complement int: the value an int computation wraps to. */
  function Int32(x: int): (r: int)
    ensures -0x8000_0000 <= r < 0x8000_0000
    ensures -0x8000_0000 <= x < 0x8000_0000 ==> r == x
  {
    var w := x % 0x1_0000_0000;
    if w >= 0x8000_0000 then w - 0x1_0000_0000 else w
  }

  /** uint64_t(constexpr_pow(10, m)) as written: the template argument is deduced
      from the literal 10, so the power is computed in int, which cannot hold 10^m
      for m >= 10; with two's-complement wrap the int is then sign-extended. */
  function PlaceValueAsWritten(m: nat): (r: U64)
    ensures Pow10(m) < 0x8000_0000 ==> r == Pow10(m)
  {
    Wrap(Int32(Pow10(m)))
  }

  /** The place values as written agree with powers of ten below 10^10 and not at the
      first fraction digit: reading "0.1" stores 18446744072222932992 in fraction_,
      past the class invariant. */
  lemma PlaceValueOverflows()
    ensures forall m :: 0 <= m <= 9 ==> PlaceValueAsWritten(m) == Pow10(m)
    ensures PlaceValueAsWritten(18) == 18_446_744_072_222_932_992
    ensures Wrap(0 + DigitValue('1') * PlaceValueAsWritten(18)) >= DENOM
  {
    Pow10Table();
    assert Pow10(9) == 1_000_000_000;
    forall m | 0 <= m <= 9
      ensures PlaceValueAsWritten(m) == Pow10(m)
    {
      Pow10Small(m);
    }
  }

  lemma Pow10Small(m: nat)
    requires m <= 9
    ensures Pow10(m) <= Pow10(9)
  {
    Pow10Add(m, 9 - m);
    MulMonotone(1, Pow10(9 - m), Pow10(m));
  }

  // ---------------------------------------------------------------- the stream object

  /** An input stream of characters. */
  class CharStream {
    var text: string
    var pos: nat
    var good: bool

    function State(): Cursor
      reads this
    {
      Cursor(text, pos, good)
    }

    constructor (t: string)
      ensures State() == Cursor(t, 0, true)
    {
      text, pos, good := t, 0, true;
    }

    /** istream::peek */
    method Peek() returns (ch: Option<char>)
      modifies this
      ensures (ch, State()) == PeekAt(old(State()))
    {
      if good && pos < |text| {
        ch := Some(text[pos]);
      } else {
        ch := None;
        good := false;
      }
    }

    /** is >> ch after a successful peek. */
    method Get() returns (ch: char)
      requires good && pos < |text|
      modifies this
      ensures ch == old(text[pos]) && State() == Advance(old(State()))
    {
      ch := text[pos];
      pos := pos + 1;
    }

    /** is >> n for an unsigned 64-bit n that held prior: the procedure on the stream
        object, specified by the function ScanWhole. */
    method ReadU64(prior: U64) returns (n: U64)
      modifies this
      ensures (n, State()) == ScanWhole(old(State()), prior)
    {
      var (v, c) := ScanWhole(State(), prior);
      n := v;
      text, pos, good := c.text, c.pos, c.good;
    }
  }
}
