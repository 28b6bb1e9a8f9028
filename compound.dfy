/** The Decimal object itself: the compound assignment operators and stream
    extraction, which update positive_, whole_ and fraction_ in place. */
module Compound {
  import opened MachineInts
  import opened Outcomes
  import opened Digits
  import opened Decimals
  import opened DecimalText
  import opened DecimalReader

  class Decimal {
    var positive: bool
    var whole: U64
    var fraction: U64

    /** The representation invariant every operation keeps: fraction_ < 10^19. */
    predicate Invariant()
      reads this
    {
      fraction < DENOM
    }

    /** The value the object holds. */
    function Get(): Dec
      reads this
    {
      Dec(positive, whole, fraction)
    }

    /** The copy constructor, and the converting constructors through their values. */
    constructor (d: Dec)
      ensures Get() == d
    {
      positive, whole, fraction := d.positive, d.whole, d.fraction;
    }

    /** The implicit operator=. */
    method Assign(d: Dec)
      modifies this
      ensures Get() == d
    {
      positive, whole, fraction := d.positive, d.whole, d.fraction;
    }

    /** operator+=: the same-sign case adds in place and carries; the mixed and the
        negative cases go through operator- and unary operator-.  Returns the copy
        of *this the operator returns by value. */
    method AddAssign(rhs: Dec) returns (r: Dec)
      requires Invariant() && Valid(rhs)
      modifies this
      ensures Get() == Add(old(Get()), rhs) && r == Get()
      ensures Invariant() && Canonical(Get())
    {
      var a := Get();
      if positive && rhs.positive {
        AddInPlace(rhs);
      } else if positive && !rhs.positive {
        Assign(Sub(a, Neg(rhs)));
      } else if !positive && rhs.positive {
        Assign(Sub(rhs, Neg(a)));
      } else {
        Assign(Neg(Add(Neg(a), Neg(rhs))));
      }
      r := Get();
    }

    /** The same-sign branch of operator+=: the parts are added in place, then the
        carry loop moves whole units out of the fraction. */
    method AddInPlace(rhs: Dec)
      requires Invariant() && Valid(rhs) && positive && rhs.positive
      modifies this
      ensures Get() == SameSignSum(old(Get()), rhs)
    {
      var a := Get();
      whole := Wrap(whole + rhs.whole);
      var f: nat := fraction + rhs.fraction;
      while f > MAX_FRACTION
        invariant positive == a.positive
        invariant Carry(whole, f) == Carry(Wrap(a.whole + rhs.whole), a.fraction + rhs.fraction)
        decreases f
      {
        whole := Wrap(whole + 1);
        f := f - DENOM;
      }
      fraction := f;
    }

    /** operator-=: a negative right operand turns into an addition, a larger one
        into a negated subtraction the other way round, and otherwise the parts are
        subtracted in place with a borrow from the whole part. */
    method SubAssign(rhs: Dec) returns (r: Dec)
      requires Invariant() && Valid(rhs)
      modifies this
      ensures Get() == Sub(old(Get()), rhs) && r == Get()
      ensures Invariant() && Canonical(Get())
    {
      var a := Get();
      if !rhs.positive {
        Assign(Add(a, Neg(rhs)));
      } else if (!positive && rhs.positive) || whole < rhs.whole || (whole == rhs.whole && fraction < rhs.fraction) {
        Assign(Neg(Sub(rhs, a)));
      } else {
        SubInPlace(rhs);
      }
      r := Get();
    }

    /** The direct branch of operator-=: the parts are subtracted in place, with a
        borrow from the whole part when the fraction is smaller. */
    method SubInPlace(rhs: Dec)
      requires Invariant() && Valid(rhs) && positive
      requires rhs.whole < whole || (rhs.whole == whole && rhs.fraction <= fraction)
      modifies this
      ensures Get() == Borrow(old(Get()), rhs)
    {
      whole := Wrap(whole - rhs.whole);
      if fraction >= rhs.fraction {
        fraction := Wrap(fraction - rhs.fraction);
      } else {
        whole := Wrap(whole - 1);
        fraction := Wrap(fraction + 1 * DENOM);
        fraction := Wrap(fraction - rhs.fraction);
      }
    }

    /** operator*=. */
    method MulAssign(rhs: Dec) returns (r: Dec)
      requires Invariant() && Valid(rhs)
      modifies this
      ensures Get() == Mul(old(Get()), rhs) && r == Get()
      ensures Invariant()
    {
      Assign(Mul(Get(), rhs));
      r := Get();
    }

    /** operator/=(const Decimal&): a zero divisor throws before anything is assigned. */
    method DivAssign(rhs: Dec) returns (r: Result<Dec>)
      requires Invariant() && Valid(rhs)
      modifies this
      ensures r == Div(old(Get()), rhs)
      ensures r.Ok? ==> Get() == r.value
      ensures r.Err? ==> Get() == old(Get())
      ensures Invariant()
    {
      r := Div(Get(), rhs);
      if r.Ok? {
        Assign(r.value);
      }
    }

    /** operator/=(uint64_t). */
    method DivAssignUnsigned(n: U64) returns (r: Result<Dec>)
      requires Invariant()
      modifies this
      ensures r == DivUnsigned(old(Get()), n)
      ensures r.Ok? ==> Get() == r.value
      ensures r.Err? ==> Get() == old(Get())
      ensures Invariant()
    {
      r := DivUnsigned(Get(), n);
      if r.Ok? {
        Assign(r.value);
      }
    }

    // ---------------------------------------------------------------- operator>>

    /** operator>>(istream&, Decimal&), the procedure that DecimalReader.Extract
        specifies: the sign, the whole part and the fraction are
        stored as they are read, so a throw leaves the sign and the whole part already
        updated.  Returns the exception thrown, if any. */
    method ReadFrom(s: CharStream) returns (error: Option<Error>)
      modifies this, s
      ensures var e := Extract(old(s.State()), old(Get()));
              Get() == e.value && error == e.error && s.State() == e.rest
    {
      ReadSign(s);
      var missingWhole := ReadWhole(s);
      error := ReadFraction(s, missingWhole);
    }

    method ReadSign(s: CharStream)
      modifies this, s
      ensures (positive, s.State()) == ExtractSign(old(s.State()))
      ensures whole == old(whole) && fraction == old(fraction)
    {
      var ch := s.Peek();
      if ch == Some('-') {
        positive := false;
        var minus := s.Get();
      } else {
        positive := true;
      }
    }

    method ReadWhole(s: CharStream) returns (missingWhole: bool)
      modifies this, s
      ensures (whole, missingWhole, s.State()) == ExtractWhole(old(s.State()), old(whole))
      ensures positive == old(positive) && fraction == old(fraction)
    {
      missingWhole := false;
      var ch := s.Peek();
      if ch == Some('.') {
        whole := 0;
        missingWhole := true;
      } else {
        whole := s.ReadU64(whole);
      }
    }

    /** The fraction part, with its digit loop: place 10^m for m = 18 down to 0. */
    method ReadFraction(s: CharStream, missingWhole: bool) returns (error: Option<Error>)
      modifies this, s
      ensures (error, fraction, s.State()) == ExtractFraction(old(s.State()), missingWhole, old(fraction))
      ensures positive == old(positive) && whole == old(whole)
    {
      var ch := s.Peek();
      if ch != Some('.') {
        fraction := 0;
        return None;
      }
      var point := s.Get();
      ch := s.Peek();
      if missingWhole && !(ch.Some? && IsDigit(ch.value)) {
        return Some(InvalidArgument);
      }
      ReadDigits(s);
      error := None;
    }

    /** The digit loop of operator>>: while the next character is a digit, add it at
        place 10^m, stopping after place 10^0. */
    method ReadDigits(s: CharStream)
      modifies this, s
      ensures (fraction, s.State()) == ScanFraction(old(s.State()), FRACTION_DIGITS - 1)
      ensures positive == old(positive) && whole == old(whole)
    {
      ghost var target := ScanFraction(s.State(), FRACTION_DIGITS - 1);
      ScanFractionBound(s.State());
      var m: nat := FRACTION_DIGITS - 1;
      fraction := 0;
      ScanFractionPeek(s.State(), m);
      var ch := s.Peek();
      while ch.Some? && IsDigit(ch.value)
        invariant m < FRACTION_DIGITS
        invariant positive == old(positive) && whole == old(whole)
        invariant PeekAt(s.State()) == (ch, s.State())
        invariant fraction + ScanFraction(s.State(), m).0 == target.0
        invariant ScanFraction(s.State(), m).1 == target.1
        decreases m
      {
        AddDigit(s, m, target.0);
        if m == 0 {
          assert fraction == target.0 && s.State() == target.1;
          break;
        }
        m := m - 1;
        ScanFractionPeek(s.State(), m);
        ch := s.Peek();
      }
      ScanFractionStop(s.State(), m, ch);
      assert fraction == target.0 && s.State() == target.1;
    }

    /** One round of the digit loop: the next digit is read and added at place 10^m;
        the uint64_t addition cannot wrap, as the whole sum stays below 10^19. */
    method AddDigit(s: CharStream, m: nat, ghost total: nat)
      requires s.good && s.pos < |s.text| && IsDigit(s.text[s.pos])
      requires fraction + ScanFraction(s.State(), m).0 == total && total < DENOM
      modifies this, s
      ensures positive == old(positive) && whole == old(whole)
      ensures m == 0 ==> fraction == total && s.State() == ScanFraction(old(s.State()), m).1
      ensures m > 0 ==> fraction + ScanFraction(s.State(), m - 1).0 == total &&
                        ScanFraction(s.State(), m - 1).1 == ScanFraction(old(s.State()), m).1
    {
      DigitStep(s.State(), m, fraction, total);
      var digit := s.Get();
      fraction := Wrap(fraction + DigitValue(digit) * Pow10(m));
    }
  }
}
