/** Cases from the unit tests, stated on values: each operand is the value its
    string literal denotes, and each result the value of the expected text. */
module Examples {
  import opened MachineInts
  import opened Outcomes
  import opened Digits
  import opened Decimals
  import opened DecimalText

  const OnePointOne: Dec := Dec(true, 1, 1_000_000_000_000_000_000)
  const OnePointNine: Dec := Dec(true, 1, 9_000_000_000_000_000_000)
  const OnePointFive: Dec := Dec(true, 1, 5_000_000_000_000_000_000)
  const AlmostTwo: Dec := Dec(true, 1, 9_999_999_999_999_999_999)

  /** Decimal(".5") reads as 0.5. */
  lemma ParseLeadingPointExample()
    ensures Parse(".5") == Ok(Dec(true, 0, 5_000_000_000_000_000_000))
  {
    ParsePointDigit('5');
    OneDigitField('5');
  }

  /** Decimal("1.1") reads as 1.1. */
  lemma ParsePointExample()
    ensures Parse("1.1") == Ok(OnePointOne)
  {
    ParseDigitPointDigit('1', '1');
    OneDigitField('1');
  }

  /** One fraction digit d is d * 10^18 units. */
  lemma OneDigitField(d: char)
    requires IsDigit(d)
    ensures FieldValue([d]) == DigitValue(d) * 1_000_000_000_000_000_000
  {
    Pow10Table();
    assert Number([d]) == DigitValue(d) by { assert [d][..0] == []; }
  }

  /** ".d" reads as d tenths. */
  lemma ParsePointDigit(d: char)
    requires IsDigit(d)
    ensures Parse(['.', d]) == Ok(Dec(true, 0, FieldValue([d])))
  {
    assert SignText(false) + "." + [d] == ['.', d];
    ParseLeadingPoint(false, [d]);
  }

  /** "c.d" reads as c and d tenths. */
  lemma ParseDigitPointDigit(c: char, d: char)
    requires IsDigit(c) && IsDigit(d)
    ensures Parse([c, '.', d]) == Ok(Dec(true, DigitValue(c), FieldValue([d])))
  {
    assert SignText(false) + [c] + "." + [d] == [c, '.', d];
    assert Number([c]) == DigitValue(c) by { assert [c][..0] == []; }
    ParsePoint(false, [c], [d]);
  }

  /** Mixed-sign sums cancel to a positive zero, or keep the sign of the larger. */
  lemma AddExamples()
    ensures Add(OnePointNine, Neg(OnePointNine)) == Zero
    ensures Add(OnePointNine, Neg(OnePointFive)) == Dec(true, 0, 4_000_000_000_000_000_000)
    ensures Add(OnePointFive, Neg(OnePointNine)) == Dec(false, 0, 4_000_000_000_000_000_000)
    ensures Add(Neg(OnePointNine), Neg(OnePointNine)) == Dec(false, 3, 8_000_000_000_000_000_000)
  {
  }

  lemma SubExamples()
    ensures Sub(Zero, One) == Dec(false, 1, 0)
    ensures Sub(OnePointNine, Neg(OnePointFive)) == Dec(true, 3, 4_000_000_000_000_000_000)
  {
  }

  lemma MulExamples()
    ensures Mul(OnePointOne, OnePointOne) == Dec(true, 1, 2_100_000_000_000_000_000)
    ensures Mul(OnePointNine, Neg(OnePointNine)) == Dec(false, 3, 6_100_000_000_000_000_000)
    ensures Mul(AlmostTwo, AlmostTwo) == Dec(true, 3, 9_999_999_999_999_999_996)
  {
  }

  lemma DivThirds()
    ensures Div(One, Dec(true, 3, 0)) == Ok(Dec(true, 0, 3_333_333_333_333_333_333))
    ensures Div(One, Dec(false, 3, 0)) == Ok(Dec(false, 0, 3_333_333_333_333_333_333))
  {
  }

  lemma DivExamples()
    ensures Div(Dec(true, 5, 5_555_555_500_000_000_000), Dec(true, 6, 0)) ==
              Ok(Dec(true, 0, 9_259_259_250_000_000_000))
    ensures Div(Dec(true, 6, 0), Dec(true, 5, 5_555_555_500_000_000_000)) ==
              Ok(Dec(true, 1, 800_000_010_800_000_010))
  {
  }

  lemma DivTruncates()
    ensures Div(Dec(true, 7, 5_555_000_000_000_000_000), Dec(true, 3, 3_333_000_000_000_000_000)) ==
              Ok(Dec(true, 2, 2_666_726_667_266_672_666))
  {
  }
}
