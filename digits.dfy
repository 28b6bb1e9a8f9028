/** Decimal digit strings: what std::to_string, std::stoull and the stream
    insertion of a uint64_t do with them. */
module Digits {
  import opened MachineInts
  import opened Outcomes

  predicate IsDigit(c: char) { '0' <= c <= '9' }

  predicate AllDigits(s: string) { forall i :: 0 <= i < |s| ==> IsDigit(s[i]) }

  function DigitValue(c: char): (n: nat)
    requires IsDigit(c)
    ensures n < 10
  {
    c as int - '0' as int
  }

  function DigitChar(n: nat): (c: char)
    requires n < 10
    ensures IsDigit(c) && DigitValue(c) == n
  {
    (n + '0' as int) as char
  }

  function Pow10(n: nat): (r: nat)
    ensures r >= 1
  {
    if n == 0 then 1 else 10 * Pow10(n - 1)
  }

  /** A run of n '0' characters. */
  function Zeros(n: nat): (z: string)
    ensures |z| == n && AllDigits(z)
    ensures forall i :: 0 <= i < n ==> z[i] == '0'
  {
    seq(n, i => '0')
  }

  /** The number a digit string denotes, most significant digit first; "" denotes 0. */
  function Number(s: string): nat
    requires AllDigits(s)
    decreases |s|
  {
    if s == [] then 0 else 10 * Number(s[..|s| - 1]) + DigitValue(s[|s| - 1])
  }

  lemma Pow10Add(a: nat, b: nat)
    ensures Pow10(a + b) == Pow10(a) * Pow10(b)
  {
    if b > 0 {
      Pow10Add(a, b - 1);
      assert Pow10(a + b) == 10 * Pow10(a + b - 1);
    }
  }

  lemma {:induction false} NumberBound(s: string)
    requires AllDigits(s)
    ensures Number(s) < Pow10(|s|)
  {
    if s != [] {
      var init := s[..|s| - 1];
      NumberBound(init);
      assert Number(s) == 10 * Number(init) + DigitValue(s[|s| - 1]);
      assert Number(init) + 1 <= Pow10(|init|);
    }
  }

  /** Appending digits shifts the value left by their count. */
  lemma {:induction false} NumberConcat(a: string, b: string)
    requires AllDigits(a) && AllDigits(b)
    ensures AllDigits(a + b)
    ensures Number(a + b) == Number(a) * Pow10(|b|) + Number(b)
    decreases |b|
  {
    if b == [] {
      assert a + b == a;
    } else {
      var init := b[..|b| - 1];
      assert (a + b)[..|a + b| - 1] == a + init;
      assert (a + b)[|a + b| - 1] == b[|b| - 1];
      NumberConcat(a, init);
      var d := DigitValue(b[|b| - 1]);
      var x, y, p := Number(a), Number(init), Pow10(|init|);
      assert Number(a + b) == 10 * Number(a + init) + d;
      assert Number(b) == 10 * y + d;
      assert Pow10(|b|) == 10 * p;
      ShiftDigit(x, y, p, d);
    }
  }

  lemma ShiftDigit(x: int, y: int, p: int, d: int)
    ensures 10 * (x * p + y) + d == x * (10 * p) + (10 * y + d)
  {
  }

  lemma {:induction false} NumberZeros(n: nat)
    ensures Number(Zeros(n)) == 0
  {
    if n > 0 {
      assert Zeros(n)[..n - 1] == Zeros(n - 1);
      NumberZeros(n - 1);
    }
  }

  /** Leading zeros do not change the value. */
  lemma NumberLeadingZeros(k: nat, s: string)
    requires AllDigits(s)
    ensures AllDigits(Zeros(k) + s) && Number(Zeros(k) + s) == Number(s)
  {
    NumberConcat(Zeros(k), s);
    NumberZeros(k);
  }

  /** Trailing zeros multiply the value by a power of ten. */
  lemma NumberTrailingZeros(s: string, k: nat)
    requires AllDigits(s)
    ensures AllDigits(s + Zeros(k)) && Number(s + Zeros(k)) == Number(s) * Pow10(k)
  {
    NumberConcat(s, Zeros(k));
    NumberZeros(k);
  }

  /** Keeping the first n digits divides the value by a power of ten (truncation). */
  lemma NumberPrefix(s: string, n: nat)
    requires AllDigits(s) && n <= |s|
    ensures AllDigits(s[..n]) && Number(s[..n]) == Number(s) / Pow10(|s| - n)
  {
    var head, tail := s[..n], s[n..];
    assert s == head + tail;
    NumberConcat(head, tail);
    NumberBound(tail);
    var p := Pow10(|tail|);
    assert Number(s) == Number(head) * p + Number(tail);
    DivModUnique(Number(s), p, Number(head), Number(tail));
  }

  /** std::to_string of an unsigned integer, which is also what stream insertion writes. */
  function ToDecimal(n: nat): (s: string)
    ensures AllDigits(s) && 1 <= |s| && Number(s) == n
    ensures s[0] == '0' ==> s == "0"
    decreases n
  {
    if n < 10 then [DigitChar(n)]
    else
      var init := ToDecimal(n / 10);
      var s := init + [DigitChar(n % 10)];
      assert s[..|s| - 1] == init;
      s
  }

  /** A number below 10^k takes at most k digits. */
  lemma {:induction false} ToDecimalLength(n: nat, k: nat)
    requires 1 <= k && n < Pow10(k)
    ensures |ToDecimal(n)| <= k
    decreases n
  {
    if n >= 10 {
      assert k >= 2;
      assert n / 10 < Pow10(k - 1);
      ToDecimalLength(n / 10, k - 1);
    }
  }

  /** The length of the longest all-digit prefix of s. */
  function DigitPrefix(s: string): (n: nat)
    ensures n <= |s| && AllDigits(s[..n])
    ensures n < |s| ==> !IsDigit(s[n])
  {
    if s == [] || !IsDigit(s[0]) then 0
    else
      var n := 1 + DigitPrefix(s[1..]);
      assert s[..n] == [s[0]] + s[1..][..n - 1];
      n
  }

  lemma DigitPrefixOfDigits(s: string)
    requires AllDigits(s)
    ensures DigitPrefix(s) == |s|
  {
    if s != [] {
      DigitPrefixOfDigits(s[1..]);
    }
  }

  lemma PlainDigits(s: string)
    ensures AllDigits(s) && s != [] ==>
              SignLength(s) == 0 && DigitPrefix(s[SignLength(s)..]) == |s| && s[SignLength(s)..][..|s|] == s
  {
    if AllDigits(s) && s != [] {
      assert s[0..] == s;
      assert s[0..][..|s|] == s;
      DigitPrefixOfDigits(s);
    }
  }

  /** Length of the optional '+' or '-' that strtoull accepts in front of the digits. */
  function SignLength(s: string): (n: nat)
    ensures n <= 1 && n <= |s|
  {
    if |s| > 0 && (s[0] == '+' || s[0] == '-') then 1 else 0
  }

  /** std::stoull(s) in base 10, for text without leading white space: an optional
      sign, then the longest run of digits; anything after the run is ignored.
      No digit throws std::invalid_argument, a value above 2^64 - 1 throws
      std::out_of_range, and a '-' negates the magnitude modulo 2^64. */
  function Stoull(s: string): (r: Result<U64>)
    ensures r == Err(InvalidArgument) <==> DigitPrefix(s[SignLength(s)..]) == 0
    ensures s == [] ==> r == Err(InvalidArgument)
    ensures AllDigits(s) && s != [] ==>
              r == if Number(s) < TWO_64 then Ok(Number(s)) else Err(OutOfRange)
  {
    var sign := SignLength(s);
    var body := s[sign..];
    var n := DigitPrefix(body);
    if n == 0 then Err(InvalidArgument)
    else
      var magnitude := Number(body[..n]);
      PlainDigits(s);
      if magnitude >= TWO_64 then Err(OutOfRange)
      else if s[0] == '-' then Ok(Wrap(-(magnitude as int)))
      else Ok(magnitude)
  }

  /** std::stoull stops at the first character that is not a digit. */
  lemma StoullPrefix(s: string)
    ensures var k := SignLength(s) + DigitPrefix(s[SignLength(s)..]);
            Stoull(s) == Stoull(s[..k])
  {
    var sign := SignLength(s);
    var n := DigitPrefix(s[sign..]);
    var t := s[..sign + n];
    assert t[sign..] == s[sign..][..n];
    DigitPrefixOfDigits(s[sign..][..n]);
    assert t[sign..][..n] == s[sign..][..n];
  }
}
