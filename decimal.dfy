/** The value type of include/Decimal.hpp: a sign and two uint64_t magnitudes,
    the whole part and a fraction that counts units of 10^-19.  Every operation
    here works on copies and returns a new value. */
module Decimals {
  import opened MachineInts
  import opened Outcomes

  const FRACTION_DIGITS: nat := 19
  /** fractionDenominator_ = 10^19 */
  const DENOM: nat := 10_000_000_000_000_000_000
  /** maxValue_ */
  const MAX_FRACTION: nat := DENOM - 1
  /** One more than the largest magnitude, in units of 10^-19: whole_ wraps at 2^64. */
  const MODULUS: nat := TWO_64 * DENOM

  /** positive_ (true for zero and above), whole_, fraction_ */
  datatype Dec = Dec(positive: bool, whole: U64, fraction: U64)

  /** The class invariant every constructor and operator keeps: fraction_ < 10^19. */
  predicate Valid(d: Dec) { d.fraction < DENOM }

  predicate IsZero(d: Dec) { d.whole == 0 && d.fraction == 0 }

  /** A valid value that is not a negative zero. */
  predicate Canonical(d: Dec) { Valid(d) && (IsZero(d) ==> d.positive) }

  /** The magnitude in units of 10^-19. */
  function Scaled(d: Dec): nat { d.whole * DENOM + d.fraction }

  /** The signed value in units of 10^-19. */
  function Value(d: Dec): int { if d.positive then Scaled(d) else -(Scaled(d) as int) }

  function Abs(x: int): nat { if x < 0 then -x else x }

  /** C++ integer division, which truncates toward zero. */
  function TruncDiv(x: int, m: nat): int
    requires m > 0
  {
    if x >= 0 then x / m else -((-x) / m)
  }

  /** Decimal(): positive zero. */
  const Zero: Dec := Dec(true, 0, 0)

  // ---------------------------------------------------------------- scaled values

  lemma ScaledBound(d: Dec)
    requires Valid(d)
    ensures Scaled(d) < MODULUS
  {
    MulMonotone(d.whole, TWO_64 - 1, DENOM);
  }

  /** A valid value is determined by its magnitude and sign. */
  lemma ScaledInjective(a: Dec, b: Dec)
    requires Valid(a) && Valid(b) && Scaled(a) == Scaled(b)
    ensures a.whole == b.whole && a.fraction == b.fraction
  {
    DivModUnique(Scaled(a), DENOM, a.whole, a.fraction);
    DivModUnique(Scaled(b), DENOM, b.whole, b.fraction);
  }

  /** Two canonical values with the same signed value are the same representation. */
  lemma CanonicalUnique(a: Dec, b: Dec)
    requires Canonical(a) && Canonical(b) && Value(a) == Value(b)
    ensures a == b
  {
    assert Scaled(a) == Scaled(b);
    ScaledInjective(a, b);
  }

  /** Decimal() is the one canonical representation of the value 0. */
  lemma ZeroUnique(d: Dec)
    ensures Canonical(Zero) && Value(Zero) == 0
    ensures Canonical(d) && Value(d) == 0 ==> d == Zero
  {
    if Canonical(d) && Value(d) == 0 {
      CanonicalUnique(d, Zero);
    }
  }

  /** Wrapping the whole part of a scaled value is reduction modulo MODULUS. */
  lemma ScaledWrap(q: int, f: int)
    requires q >= 0 && 0 <= f < DENOM
    ensures Wrap(q) * DENOM + f == (q * DENOM + f) % MODULUS
  {
    var k := q / TWO_64;
    var w := Wrap(q);
    assert q == k * TWO_64 + w;
    assert q * DENOM + f == k * MODULUS + (w * DENOM + f);
    MulMonotone(w, TWO_64 - 1, DENOM);
    DivModUnique(q * DENOM + f, MODULUS, k, w * DENOM + f);
  }

  /** Wrapping the whole part before adding more units does not change the result modulo MODULUS. */
  lemma WrapShift(q: int, y: int)
    requires q >= 0
    ensures (Wrap(q) * DENOM + y) % MODULUS == (q * DENOM + y) % MODULUS
  {
    var k := q / TWO_64;
    assert q == k * TWO_64 + Wrap(q);
    assert q * DENOM + y == (Wrap(q) * DENOM + y) + k * MODULUS;
    ModShift(Wrap(q) * DENOM + y, k, MODULUS);
  }

  lemma SmallMod(x: int)
    requires 0 <= x < MODULUS
    ensures x % MODULUS == x
  {
    DivModUnique(x, MODULUS, 0, x);
  }

  // ---------------------------------------------------------------- construction

  /** Decimal(int32_t) and Decimal(int64_t).  abs() of the most negative value is
      undefined behaviour, so that one value is excluded. */
  function FromSigned(v: int): (d: Dec)
    requires -(TWO_63 as int) < v < TWO_63
    ensures Canonical(d) && Value(d) == v * DENOM
  {
    Dec(v >= 0, Abs(v), 0)
  }

  /** Decimal(uint32_t) and Decimal(uint64_t). */
  function FromUnsigned(v: U64): (d: Dec)
    ensures Canonical(d) && Value(d) == v * DENOM
  {
    Dec(true, v, 0)
  }

  // ---------------------------------------------------------------- comparison

  /** operator== compares the three fields. */
  function Equal(a: Dec, b: Dec): (r: bool)
    ensures r <==> a == b
    ensures Canonical(a) && Canonical(b) ==> (r <==> Value(a) == Value(b))
  {
    CanonicalEquality(a, b);
    a.positive == b.positive && a.whole == b.whole && a.fraction == b.fraction
  }

  /** Between canonical values, equal representations and equal values coincide. */
  lemma CanonicalEquality(a: Dec, b: Dec)
    ensures Canonical(a) && Canonical(b) ==> (a == b <==> Value(a) == Value(b))
  {
    if Canonical(a) && Canonical(b) && Value(a) == Value(b) {
      CanonicalUnique(a, b);
    }
  }

  /** operator!= */
  function NotEqual(a: Dec, b: Dec): (r: bool)
    ensures r <==> a != b
    ensures Canonical(a) && Canonical(b) ==> (r <==> Value(a) != Value(b))
  {
    !Equal(a, b)
  }

  /** The place of a representation in the order operator> implements: non-negative
      values by (whole, fraction) ascending, negative values by (whole, fraction)
      descending, every non-negative value above every negative one. */
  function OrderKey(d: Dec): int
  {
    if d.positive then d.whole * TWO_64 + d.fraction else -(d.whole * TWO_64 + d.fraction) - 1
  }

  lemma OrderKeyInjective(a: Dec, b: Dec)
    ensures OrderKey(a) == OrderKey(b) ==> a == b
  {
    if OrderKey(a) != OrderKey(b) {
      return;
    }
    var ka := if a.positive then OrderKey(a) else -OrderKey(a) - 1;
    var kb := if b.positive then OrderKey(b) else -OrderKey(b) - 1;
    assert a.positive == b.positive;
    DivModUnique(ka, TWO_64, a.whole, a.fraction);
    DivModUnique(kb, TWO_64, b.whole, b.fraction);
  }

  /** On valid values the fieldwise key orders magnitudes as their scaled values do. */
  lemma KeyOrdersValues(a: Dec, b: Dec)
    ensures Valid(a) && Valid(b) ==>
              (a.whole * TWO_64 + a.fraction < b.whole * TWO_64 + b.fraction <==> Scaled(a) < Scaled(b))
  {
    if a.whole < b.whole {
      MulMonotone(a.whole + 1, b.whole, DENOM);
      MulMonotone(a.whole + 1, b.whole, TWO_64);
    } else if a.whole > b.whole {
      MulMonotone(b.whole + 1, a.whole, DENOM);
      MulMonotone(b.whole + 1, a.whole, TWO_64);
    }
  }

  /** operator>, the primitive the other orderings derive from. */
  function Greater(a: Dec, b: Dec): (r: bool)
    ensures r <==> OrderKey(a) > OrderKey(b)
    ensures Canonical(a) && Canonical(b) ==> (r <==> Value(a) > Value(b))
  {
    KeyOrdersValues(a, b);
    KeyOrdersValues(b, a);
    if a.positive && !b.positive then true
    else if !a.positive && b.positive then false
    else if a.positive && b.positive then
      if a.whole == b.whole then a.fraction > b.fraction else a.whole > b.whole
    else
      if a.whole == b.whole then a.fraction < b.fraction else a.whole < b.whole
  }

  /** operator>= */
  function GreaterEq(a: Dec, b: Dec): (r: bool)
    ensures r <==> OrderKey(a) >= OrderKey(b)
    ensures Canonical(a) && Canonical(b) ==> (r <==> Value(a) >= Value(b))
  {
    OrderKeyInjective(a, b);
    if Equal(a, b) then true else Greater(a, b)
  }

  /** operator< */
  function Less(a: Dec, b: Dec): (r: bool)
    ensures r <==> OrderKey(a) < OrderKey(b)
    ensures Canonical(a) && Canonical(b) ==> (r <==> Value(a) < Value(b))
  {
    !GreaterEq(a, b)
  }

  /** operator<= */
  function LessEq(a: Dec, b: Dec): (r: bool)
    ensures r <==> OrderKey(a) <= OrderKey(b)
    ensures Canonical(a) && Canonical(b) ==> (r <==> Value(a) <= Value(b))
  {
    OrderKeyInjective(a, b);
    if Equal(a, b) then true else Less(a, b)
  }

  /** Exactly one of a < b, a == b, a > b holds, for every pair of representations. */
  lemma Trichotomy(a: Dec, b: Dec)
    ensures Less(a, b) || Equal(a, b) || Greater(a, b)
    ensures !(Less(a, b) && Equal(a, b)) && !(Less(a, b) && Greater(a, b)) && !(Equal(a, b) && Greater(a, b))
    ensures LessEq(a, b) <==> Less(a, b) || Equal(a, b)
    ensures GreaterEq(a, b) <==> Greater(a, b) || Equal(a, b)
  {
    OrderKeyInjective(a, b);
  }

  lemma GreaterTransitive(a: Dec, b: Dec, c: Dec)
    requires Greater(a, b) && Greater(b, c)
    ensures Greater(a, c)
  {
  }

  /** Every non-negative value is above every negative one, and negative values
      order by magnitude descending. */
  lemma SignOrder(a: Dec, b: Dec)
    requires Valid(a) && Valid(b)
    ensures a.positive && !b.positive ==> Greater(a, b)
    ensures !a.positive && !b.positive ==> (Greater(a, b) <==> Scaled(a) < Scaled(b))
  {
    KeyOrdersValues(a, b);
  }

  /** The order treats a negative zero as below positive zero, although both denote 0. */
  lemma NegativeZeroOrder()
    ensures Value(Dec(false, 0, 0)) == Value(Zero)
    ensures Less(Dec(false, 0, 0), Zero) && NotEqual(Dec(false, 0, 0), Zero)
  {
  }

  // ---------------------------------------------------------------- negation

  /** unary operator-: flips the sign, except that zero comes out positive. */
  function Neg(a: Dec): (r: Dec)
    ensures r.whole == a.whole && r.fraction == a.fraction
    ensures Value(r) == -Value(a)
    ensures Valid(a) ==> Canonical(r)
  {
    if a.whole == 0 && a.fraction == 0 then Dec(true, a.whole, a.fraction)
    else Dec(!a.positive, a.whole, a.fraction)
  }

  lemma NegInvolution(a: Dec)
    requires Canonical(a)
    ensures Neg(Neg(a)) == a
  {
    CanonicalUnique(Neg(Neg(a)), a);
  }

  // ---------------------------------------------------------------- addition and subtraction

  /** The carry loop of operator+=: moves whole units of 10^19 out of the fraction. */
  function Carry(w: U64, f: nat): (r: (U64, nat))
    ensures r.1 < DENOM
    ensures r.0 * DENOM + r.1 == (w * DENOM + f) % MODULUS
    decreases f
  {
    if f > MAX_FRACTION then
      ModShift(f - DENOM, 1, MODULUS);
      Carry(Wrap(w + 1), f - DENOM)
    else
      MulMonotone(w, TWO_64 - 1, DENOM);
      SmallMod(w * DENOM + f);
      (w, f)
  }

  /** The same-sign branch of operator+= exactly as written: the fractions are added
      in a uint64_t, which wraps once their sum reaches 2^64. */
  function SameSignSumAsWritten(a: Dec, b: Dec): (r: Dec)
    requires Valid(a) && Valid(b)
    ensures a.fraction + b.fraction < TWO_64 ==> r == SameSignSum(a, b)
    ensures a.fraction + b.fraction >= TWO_64 ==>
              Valid(r) && (Scaled(r) + TWO_64) % MODULUS == (Scaled(a) + Scaled(b)) % MODULUS
  {
    var w := Wrap(a.whole + b.whole);
    var f := Wrap(a.fraction + b.fraction);
    var c := Carry(w, f);
    WrapShift(a.whole + b.whole, a.fraction + b.fraction);
    WrapShift(a.whole + b.whole, f);
    ModShift(Scaled(Dec(true, c.0, c.1)), 0, MODULUS);
    Dec(true, c.0, c.1)
  }

  /** The same-sign branch of operator+= with the fraction sum held exactly, as
      intended: both parts are added, then the carry loop normalises the fraction. */
  function SameSignSum(a: Dec, b: Dec): (r: Dec)
    requires Valid(a) && Valid(b)
    ensures Valid(r) && r.positive
    ensures Scaled(r) == (Scaled(a) + Scaled(b)) % MODULUS
  {
    var c := Carry(Wrap(a.whole + b.whole), a.fraction + b.fraction);
    WrapShift(a.whole + b.whole, a.fraction + b.fraction);
    Dec(true, c.0, c.1)
  }

  /** The direct branch of operator-=: both operands non-negative, the left one at
      least as large.  Every step is a uint64_t operation; the borrow never
      underflows the whole part, and the wrap of fraction_ + 10^19 cancels out. */
  function Borrow(a: Dec, b: Dec): (r: Dec)
    requires Valid(a) && Valid(b) && a.positive
    requires b.whole < a.whole || (b.whole == a.whole && b.fraction <= a.fraction)
    ensures Valid(r) && r.positive
    ensures Scaled(r) == Scaled(a) - Scaled(b)
  {
    var w := Wrap(a.whole - b.whole);
    if a.fraction >= b.fraction then
      Dec(a.positive, w, Wrap(a.fraction - b.fraction))
    else
      assert w >= 1;
      var f := Wrap(a.fraction + 1 * DENOM);
      Dec(a.positive, Wrap(w - 1), Wrap(f - b.fraction))
  }

  /** Termination measures for the mutual recursion of operator+= and operator-=. */
  function AddRank(a: Dec, b: Dec): nat
  {
    if a.positive && b.positive then 0 else if !a.positive && !b.positive then 1 else 2
  }

  function SubRank(a: Dec, b: Dec): nat
  {
    if !b.positive then (if a.positive then 1 else 3)
    else if !a.positive then 2
    else if a.whole < b.whole || (a.whole == b.whole && a.fraction < b.fraction) then 1
    else 0
  }

  /** operator+ and operator+=: exact modulo the 2^64 wrap of the whole part, with a
      canonical result whose sign is that of the true sum. */
  function Add(a: Dec, b: Dec): (r: Dec)
    requires Valid(a) && Valid(b)
    ensures Canonical(r)
    ensures Scaled(r) == Abs(Value(a) + Value(b)) % MODULUS
    ensures !IsZero(r) ==> (r.positive <==> Value(a) + Value(b) > 0)
    decreases AddRank(a, b), 1
  {
    if a.positive && b.positive then SameSignSum(a, b)
    else if a.positive && !b.positive then
      var r := Sub(a, Neg(b));
      SumOfNegation(Value(a), Value(b), Value(Neg(b)), r);
      r
    else if !a.positive && b.positive then
      var r := Sub(b, Neg(a));
      SumOfNegation(Value(b), Value(a), Value(Neg(a)), r);
      r
    else
      var s := Add(Neg(a), Neg(b));
      NegatedSum(Value(a), Value(b), Value(Neg(a)), Value(Neg(b)), s);
      Neg(s)
  }

  /** x - (-y) has the magnitude and the sign of x + y. */
  lemma SumOfNegation(x: int, y: int, ny: int, r: Dec)
    requires ny == -y && Scaled(r) == Abs(x - ny) % MODULUS && (!IsZero(r) ==> (r.positive <==> x - ny > 0))
    ensures Scaled(r) == Abs(x + y) % MODULUS && (!IsZero(r) ==> (r.positive <==> x + y > 0))
    ensures Scaled(r) == Abs(y + x) % MODULUS && (!IsZero(r) ==> (r.positive <==> y + x > 0))
  {
    assert x - ny == x + y;
  }

  /** (-x) + (-y) has the magnitude of x + y and the opposite sign. */
  lemma NegatedSum(x: int, y: int, nx: int, ny: int, s: Dec)
    requires nx == -x && ny == -y
    requires Scaled(s) == Abs(nx + ny) % MODULUS && (!IsZero(s) ==> (s.positive <==> nx + ny > 0))
    ensures Scaled(s) == Abs(x + y) % MODULUS && (!IsZero(s) ==> (s.positive <==> x + y < 0))
  {
    assert nx + ny == -(x + y);
  }

  /** operator- and operator-=: exact modulo the 2^64 wrap of the whole part, with a
      canonical result whose sign is that of the true difference. */
  function Sub(a: Dec, b: Dec): (r: Dec)
    requires Valid(a) && Valid(b)
    ensures Canonical(r)
    ensures Scaled(r) == Abs(Value(a) - Value(b)) % MODULUS
    ensures !IsZero(r) ==> (r.positive <==> Value(a) - Value(b) > 0)
    decreases SubRank(a, b), 1
  {
    if !b.positive then Add(a, Neg(b))
    else if (!a.positive && b.positive) || a.whole < b.whole || (a.whole == b.whole && a.fraction < b.fraction) then
      Neg(Sub(b, a))
    else
      var r := Borrow(a, b);
      ScaledBound(a);
      SmallMod(Scaled(r));
      r
  }

  /** Two canonical results with the same magnitude and, when non-zero, the same sign
      are the same representation. */
  lemma SameCanonical(r1: Dec, r2: Dec)
    requires Canonical(r1) && Canonical(r2) && Scaled(r1) == Scaled(r2)
    requires !IsZero(r1) ==> r1.positive == r2.positive
    ensures r1 == r2
  {
    ScaledInjective(r1, r2);
  }

  /** A signed value is determined by the magnitude and sign Add and Sub report. */
  lemma ValueFromParts(r: Dec, x: int)
    requires Canonical(r) && Scaled(r) == Abs(x)
    requires !IsZero(r) ==> (r.positive <==> x > 0)
    ensures Value(r) == x
  {
    if IsZero(r) {
      assert Scaled(r) == 0;
    }
  }

  /** When the true sum fits, operator+ is exact. */
  lemma AddExact(a: Dec, b: Dec)
    requires Valid(a) && Valid(b) && Abs(Value(a) + Value(b)) < MODULUS
    ensures Value(Add(a, b)) == Value(a) + Value(b)
  {
    SmallMod(Abs(Value(a) + Value(b)));
    ValueFromParts(Add(a, b), Value(a) + Value(b));
  }

  /** When the true difference fits, operator- is exact. */
  lemma SubExact(a: Dec, b: Dec)
    requires Valid(a) && Valid(b) && Abs(Value(a) - Value(b)) < MODULUS
    ensures Value(Sub(a, b)) == Value(a) - Value(b)
  {
    SmallMod(Abs(Value(a) - Value(b)));
    ValueFromParts(Sub(a, b), Value(a) - Value(b));
  }

  /** Operands whose whole parts and fractions add without leaving 64 bits add exactly. */
  lemma AddExactWhenPartsFit(a: Dec, b: Dec)
    requires Valid(a) && Valid(b) && a.whole + b.whole + 1 < TWO_64
    ensures Value(Add(a, b)) == Value(a) + Value(b)
  {
    MulMonotone(a.whole + b.whole + 1, TWO_64 - 1, DENOM);
    AddExact(a, b);
  }

  /** x + (-x) is positive zero. */
  lemma AddInverse(x: Dec)
    requires Valid(x)
    ensures Add(x, Neg(x)) == Zero
  {
    SmallMod(0);
  }

  /** a - a is positive zero. */
  lemma SubSelf(x: Dec)
    requires Valid(x)
    ensures Sub(x, x) == Zero
  {
    SmallMod(0);
  }

  lemma AddCommutes(a: Dec, b: Dec)
    requires Valid(a) && Valid(b)
    ensures Add(a, b) == Add(b, a)
  {
    SameCanonical(Add(a, b), Add(b, a));
  }

  /** Adding or subtracting zero returns a canonical operand unchanged. */
  lemma AddZero(x: Dec)
    requires Canonical(x)
    ensures Add(x, Zero) == x && Sub(x, Zero) == x
  {
    ScaledBound(x);
    AbsValue(x);
    assert Value(Zero) == 0;
    AddExact(x, Zero);
    SubExact(x, Zero);
    CanonicalUnique(Add(x, Zero), x);
    CanonicalUnique(Sub(x, Zero), x);
  }

  lemma AbsValue(x: Dec)
    ensures Abs(Value(x)) == Scaled(x)
    ensures Abs(-Value(x)) == Scaled(x)
  {
  }

  /** a - b is a + (-b). */
  lemma SubIsAddNeg(a: Dec, b: Dec)
    requires Valid(a) && Valid(b)
    ensures Sub(a, b) == Add(a, Neg(b))
  {
    NegatedTerm(a, b);
    var r, t := Sub(a, b), Add(a, Neg(b));
    SameOutcome(r, t, Value(a) - Value(b), Value(a) + Value(Neg(b)));
  }

  lemma NegatedTerm(a: Dec, b: Dec)
    ensures Value(a) - Value(b) == Value(a) + Value(Neg(b))
  {
  }

  /** Two canonical results that both encode the exact result x are equal. */
  lemma SameOutcome(r: Dec, t: Dec, x: int, y: int)
    requires Canonical(r) && Canonical(t) && x == y
    requires Scaled(r) == Abs(x) % MODULUS && Scaled(t) == Abs(y) % MODULUS
    requires !IsZero(r) ==> (r.positive <==> x > 0)
    requires !IsZero(t) ==> (t.positive <==> y > 0)
    ensures r == t
  {
    SameCanonical(r, t);
  }

  /** The fraction sum of operator+= wraps: 0.93 + 0.93 loses 2^64 units of 10^-19. */
  lemma SameSignSumWraps()
    ensures var a := Dec(true, 0, 9_300_000_000_000_000_000);
            SameSignSum(a, a) == Dec(true, 1, 8_600_000_000_000_000_000) &&
            SameSignSumAsWritten(a, a) == Dec(true, 0, 153_255_926_290_448_384)
  {
    var a := Dec(true, 0, 9_300_000_000_000_000_000);
    SameCanonical(SameSignSum(a, a), Dec(true, 1, 8_600_000_000_000_000_000));
  }

  // ---------------------------------------------------------------- multiplication

  lemma ProductExpansion(wa: nat, fa: nat, wb: nat, fb: nat)
    ensures (wa * DENOM + fa) * (wb * DENOM + fb) ==
            (wa * wb * DENOM + wa * fb + wb * fa) * DENOM + fa * fb
  {
  }

  /** The 128-bit intermediates of operator* stay below 2^128, and the two parts
      cast back to uint64_t fit. */
  lemma MulWidths(wa: U64, fa: nat, wb: U64, fb: nat)
    requires fa < DENOM && fb < DENOM
    ensures fa * fb < TWO_128 && fa * fb / DENOM < DENOM
    ensures wa * fb < TWO_128 && wa * fb / DENOM < TWO_64
    ensures wb * fa < TWO_128 && wb * fa / DENOM < TWO_64
  {
    MulStrict(fa, fb, DENOM, DENOM);
    DivBound(fa * fb, DENOM, DENOM);
    MulStrict(wa, fb, TWO_64, DENOM);
    DivBound(wa * fb, DENOM, TWO_64);
    MulStrict(wb, fa, TWO_64, DENOM);
    DivBound(wb * fa, DENOM, TWO_64);
  }

  /** x / 10^19 and x - (x / 10^19) * 10^19, the split operator* applies to each
      128-bit intermediate. */
  function Split(x: nat): (p: (nat, nat))
    ensures p.1 < DENOM && p.0 * DENOM + p.1 == x
  {
    var q := x / DENOM;
    (q, x - q * DENOM)
  }

  /** The parts operator* accumulates make up the truncated product. */
  lemma MulParts(wa: nat, fa: nat, wb: nat, fb: nat, t1: nat, r1: nat, t2: nat, r2: nat, t3: nat, f: nat)
    requires t1 * DENOM + r1 == wa * fb && t2 * DENOM + r2 == wb * fa
    requires t3 * DENOM + f == fa * fb / DENOM + r1 + r2
    ensures (wa * wb + t1 + t2 + t3) * DENOM + f == (wa * DENOM + fa) * (wb * DENOM + fb) / DENOM
  {
    ProductExpansion(wa, fa, wb, fb);
    DivAddMultiple(wa * wb * DENOM + wa * fb + wb * fa, fa * fb, DENOM);
  }

  /** The fraction side of operator*: the three carries into whole_ (from
      whole(a) * fraction(b), whole(b) * fraction(a) and the accumulated fraction)
      and the final fraction, all computed in 128-bit intermediates. */
  function MulCarries(a: Dec, b: Dec): (p: (nat, nat, nat, nat))
    requires Valid(a) && Valid(b)
    ensures p.0 < TWO_64 && p.1 < TWO_64 && p.2 < TWO_64 && p.3 < DENOM
    ensures (a.whole * b.whole + p.0 + p.1 + p.2) * DENOM + p.3 == Scaled(a) * Scaled(b) / DENOM
  {
    MulWidths(a.whole, a.fraction, b.whole, b.fraction);
    var frac0: nat := a.fraction * b.fraction / DENOM;
    var (t1, r1) := Split(a.whole * b.fraction);
    var (t2, r2) := Split(b.whole * a.fraction);
    var frac: nat := frac0 + r1 + r2;
    assert frac < TWO_128;
    var (t3, f) := Split(frac);
    MulParts(a.whole, a.fraction, b.whole, b.fraction, t1, r1, t2, r2, t3, f);
    (t1, t2, t3, f)
  }

  lemma WrapSum4(ww: nat, t1: nat, t2: nat, t3: nat)
    ensures Wrap(Wrap(Wrap(Wrap(ww) + t1) + t2) + t3) == Wrap(ww + t1 + t2 + t3)
  {
    var w1 := Wrap(ww);
    var w2 := Wrap(w1 + t1);
    var w3 := Wrap(w2 + t2);
    WrapStep(w1, ww, t1);
    WrapStep(w2, ww + t1, t2);
    WrapStep(w3, ww + t1 + t2, t3);
  }

  lemma WrapStep(w: int, x: int, y: int)
    requires w == Wrap(x)
    ensures Wrap(w + y) == Wrap(x + y)
  {
    WrapAdd(x, y);
  }

  /** whole_ accumulates its four contributions in a wrapping uint64_t. */
  lemma WholeWraps(ww: nat, t1: nat, t2: nat, t3: nat, f: nat, x: nat)
    requires f < DENOM && (ww + t1 + t2 + t3) * DENOM + f == x
    ensures Wrap(Wrap(Wrap(Wrap(ww) + t1) + t2) + t3) * DENOM + f == x % MODULUS
  {
    WrapSum4(ww, t1, t2, t3);
    ScaledWrap(ww + t1 + t2 + t3, f);
  }

  /** operator* and operator*=: whole parts multiplied in a wrapping uint64_t, the
      cross terms in 128-bit intermediates, the fraction-by-fraction term truncated;
      the sign is positive when the operand signs match, and a zero product is made
      positive. */
  function Mul(a: Dec, b: Dec): (r: Dec)
    requires Valid(a) && Valid(b)
    ensures Canonical(r)
    ensures Scaled(r) == (Scaled(a) * Scaled(b) / DENOM) % MODULUS
    ensures !IsZero(r) ==> (r.positive <==> a.positive == b.positive)
  {
    var positive := (a.positive && b.positive) || (!a.positive && !b.positive);
    var ww: nat := a.whole * b.whole;
    var (t1, t2, t3, f) := MulCarries(a, b);
    var w := Wrap(Wrap(Wrap(Wrap(ww) + t1) + t2) + t3);
    WholeWraps(ww, t1, t2, t3, f, Scaled(a) * Scaled(b) / DENOM);
    if w == 0 && f == 0 then Dec(true, w, f) else Dec(positive, w, f)
  }

  /** Decimal(1) */
  const One: Dec := Dec(true, 1, 0)

  lemma MulCommutes(a: Dec, b: Dec)
    requires Valid(a) && Valid(b)
    ensures Mul(a, b) == Mul(b, a)
  {
    var r, t := Mul(a, b), Mul(b, a);
    assert Scaled(a) * Scaled(b) == Scaled(b) * Scaled(a);
    SameCanonical(r, t);
  }

  /** The signed product of two values, as C++ integer division would truncate it. */
  lemma SignedProduct(a: Dec, b: Dec)
    ensures a.positive == b.positive ==> Value(a) * Value(b) == Scaled(a) * Scaled(b)
    ensures a.positive != b.positive ==> Value(a) * Value(b) == -(Scaled(a) * Scaled(b))
  {
    var sa, sb := Scaled(a) as int, Scaled(b) as int;
    assert (-sa) * (-sb) == sa * sb;
    assert (-sa) * sb == -(sa * sb);
    assert sa * (-sb) == -(sa * sb);
  }

  /** C++ division of a signed product by 10^19 truncates the magnitude. */
  lemma TruncSigned(p: nat, m: nat, negative: bool)
    requires m > 0
    ensures TruncDiv(if negative then -(p as int) else p, m) == if negative then -(p / m) else p / m
  {
  }

  /** When the product fits, operator* is the exact product truncated toward zero. */
  lemma MulExact(a: Dec, b: Dec)
    requires Valid(a) && Valid(b) && Scaled(a) * Scaled(b) / DENOM < MODULUS
    ensures Value(Mul(a, b)) == TruncDiv(Value(a) * Value(b), DENOM)
  {
    var p := Scaled(a) * Scaled(b);
    SmallMod(p / DENOM);
    SignedProduct(a, b);
    TruncSigned(p, DENOM, a.positive != b.positive);
    var r := Mul(a, b);
    assert Scaled(r) == p / DENOM;
  }

  /** x * m / x == m */
  lemma MulDivCancel(x: nat, m: nat)
    requires x > 0
    ensures x * m / x == m && m * x / x == m
  {
    DivModUnique(x * m, x, m, 0);
  }

  /** One is the identity of operator* on canonical values. */
  lemma MulOne(x: Dec)
    requires Canonical(x)
    ensures Mul(x, One) == x && Mul(One, x) == x
  {
    ScaledBound(x);
    SmallMod(Scaled(x));
    var r, t := Mul(x, One), Mul(One, x);
    MulDivCancel(DENOM, Scaled(x));
    SameCanonical(r, x);
    SameCanonical(t, x);
  }

  /** Anything times zero is positive zero, whatever the signs. */
  lemma MulZero(x: Dec)
    requires Valid(x)
    ensures Mul(x, Zero) == Zero && Mul(x, Dec(false, 0, 0)) == Zero
  {
    SmallMod(0);
  }

  // ---------------------------------------------------------------- division

  /** operator/ exactly as written: both operands scaled to 128-bit integers, one
      quotient/remainder step, the quotient cast to uint64_t, the fraction from the
      remainder in 256 bits.  The sign follows the operand signs, with no fix-up for
      a zero quotient. */
  function DivAsWritten(a: Dec, b: Dec): (r: Result<Dec>)
    requires Valid(a) && Valid(b)
    ensures r.Err? <==> IsZero(b)
    ensures r.Err? ==> r.error == DivisionByZero
    ensures r.Ok? ==> Valid(r.value) && Scaled(r.value) == (Scaled(a) * DENOM / Scaled(b)) % MODULUS
    ensures r.Ok? ==> (r.value.positive <==> a.positive == b.positive)
  {
    if b.whole == 0 && b.fraction == 0 then Err(DivisionByZero)
    else
      var positive := (a.positive && b.positive) || (!a.positive && !b.positive);
      var (quot, f) := DivSteps(Scaled(a), Scaled(b));
      WrappedQuotient(quot, f, Scaled(a) * DENOM / Scaled(b));
      Ok(Dec(positive, Wrap(quot), f))
  }

  /** The arithmetic of operator/ on the scaled operands: the 128-bit quotient and
      the fraction obtained from the remainder. */
  function DivSteps(numerator: nat, denominator: nat): (p: (nat, nat))
    requires numerator < TWO_128 && 0 < denominator < TWO_128
    ensures p.1 < DENOM && p.0 * DENOM + p.1 == numerator * DENOM / denominator
  {
    DivNonNegative(numerator, denominator);
    DivNonNegative((numerator % denominator) * DENOM, denominator);
    DivStepsSum(numerator, denominator);
    (numerator / denominator, (numerator % denominator) * DENOM / denominator)
  }

  lemma DivStepsSum(num: nat, den: nat)
    requires 0 < den < TWO_128
    ensures (num % den) * DENOM / den < DENOM
    ensures (num / den) * DENOM + (num % den) * DENOM / den == num * DENOM / den
  {
    DivParts(num, den, num / den, num % den);
  }

  /** Casting the quotient to uint64_t drops whole multiples of 2^64. */
  lemma WrappedQuotient(q: nat, f: nat, x: nat)
    requires f < DENOM && q * DENOM + f == x
    ensures Wrap(q) * DENOM + f == x % MODULUS
  {
    ScaledWrap(q, f);
  }

  /** The remainder step of operator/: rem * 10^19 fits the 256-bit scratch, the
      fraction it yields is below 10^19, and quotient and fraction make up the
      truncated quotient. */
  lemma DivParts(num: nat, den: nat, quot: nat, rem: nat)
    requires 0 < den < TWO_128 && quot == num / den && rem == num % den
    ensures rem * DENOM < TWO_256
    ensures rem * DENOM / den < DENOM
    ensures quot * DENOM + rem * DENOM / den == num * DENOM / den
  {
    MulStrict(rem, DENOM, den, DENOM + 1);
    MulStrict(den, DENOM + 1, TWO_128, TWO_128);
    MulMonotone(rem + 1, den, DENOM);
    DivBound(rem * DENOM, den, DENOM);
    assert num == quot * den + rem;
    assert num * DENOM == (quot * DENOM) * den + rem * DENOM;
    DivAddMultiple(quot * DENOM, rem * DENOM, den);
  }

  /** operator/ with the zero fix-up operator* applies: a zero quotient is positive. */
  function Div(a: Dec, b: Dec): (r: Result<Dec>)
    requires Valid(a) && Valid(b)
    ensures r.Err? <==> IsZero(b)
    ensures r.Err? ==> r.error == DivisionByZero
    ensures r.Ok? ==> Canonical(r.value) && Scaled(r.value) == (Scaled(a) * DENOM / Scaled(b)) % MODULUS
    ensures r.Ok? && !IsZero(r.value) ==> (r.value.positive <==> a.positive == b.positive)
  {
    var q :- DivAsWritten(a, b);
    Ok(if IsZero(q) then Zero else q)
  }

  /** operator/(uint64_t) and operator/=(uint64_t). */
  function DivUnsigned(a: Dec, n: U64): (r: Result<Dec>)
    requires Valid(a)
    ensures r.Err? <==> n == 0
    ensures r.Ok? ==> Canonical(r.value) && Scaled(r.value) == (Scaled(a) / n) % MODULUS
    ensures r.Ok? && !IsZero(r.value) ==> (r.value.positive <==> a.positive)
  {
    var d := FromUnsigned(n);
    assert Scaled(d) == n * DENOM;
    DivCancel(Scaled(a), n, DENOM);
    Div(a, d)
  }

  lemma DivCancel(x: nat, n: nat, m: nat)
    requires m > 0
    ensures n > 0 ==> x * m / (n * m) == x / n
  {
    if n == 0 {
      return;
    }
    var q, r := x / n, x % n;
    assert x == q * n + r;
    assert x * m == q * (n * m) + r * m;
    MulStrict(r, m, n, m + 1);
    MulMonotone(r + 1, n, m);
    DivModUnique(x * m, n * m, q, r * m);
  }

  /** The free operator/(int64_t, Decimal). */
  function DivSigned(n: int, b: Dec): (r: Result<Dec>)
    requires -(TWO_63 as int) < n < TWO_63 && Valid(b)
    ensures r.Err? <==> IsZero(b)
    ensures r.Ok? ==> Canonical(r.value) && Scaled(r.value) == (Abs(n) * DENOM * DENOM / Scaled(b)) % MODULUS
    ensures r.Ok? && !IsZero(r.value) ==> (r.value.positive <==> ((n >= 0) == b.positive))
  {
    var a := FromSigned(n);
    assert Scaled(a) == Abs(n) * DENOM;
    Div(a, b)
  }

  /** When the quotient fits, operator/ is the exact quotient truncated toward zero. */
  lemma DivExact(a: Dec, b: Dec)
    requires Valid(a) && Valid(b) && !IsZero(b) && Scaled(a) * DENOM / Scaled(b) < MODULUS
    ensures Div(a, b).Ok?
    ensures Value(Div(a, b).value) ==
              if a.positive == b.positive then Scaled(a) * DENOM / Scaled(b) else -(Scaled(a) * DENOM / Scaled(b))
  {
    var q := Scaled(a) * DENOM / Scaled(b);
    DivNonNegative(Scaled(a) * DENOM, Scaled(b));
    SmallMod(q);
    SignedMagnitude(Div(a, b).value, q, a.positive == b.positive);
  }

  /** A result with magnitude q and, when not zero, the expected sign has value ±q. */
  lemma SignedMagnitude(r: Dec, q: nat, same: bool)
    requires Scaled(r) == q && (!IsZero(r) ==> (r.positive <==> same))
    ensures Value(r) == if same then q else -(q as int)
  {
  }

  /** A non-zero value divided by itself is one. */
  lemma DivSelf(x: Dec)
    requires Valid(x) && !IsZero(x)
    ensures Div(x, x) == Ok(One)
  {
    MulDivCancel(Scaled(x), DENOM);
    SmallMod(DENOM);
    SameCanonical(Div(x, x).value, One);
  }

  /** Dividing by one returns a canonical value unchanged. */
  lemma DivOne(x: Dec)
    requires Canonical(x)
    ensures Div(x, One) == Ok(x)
  {
    ScaledBound(x);
    SmallMod(Scaled(x));
    MulDivCancel(DENOM, Scaled(x));
    SameCanonical(Div(x, One).value, x);
  }

  /** operator/ as written yields a negative zero: 0 / -1 has positive_ == false. */
  lemma DivNegativeZero()
    ensures DivAsWritten(Zero, Dec(false, 1, 0)) == Ok(Dec(false, 0, 0))
    ensures Div(Zero, Dec(false, 1, 0)) == Ok(Zero)
  {
    SmallMod(0);
  }
}
