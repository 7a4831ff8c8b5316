/**
 Conversions between an amount in the smallest unit (a 256-bit integer) and a decimal amount
 of coins. Both directions work on decimal strings: pad, insert the point, trim, truncate.
 */
module EthAmounts {
  import opened Wrappers

  /** `intVal` times ten to the power `-scale`. */
  datatype BigDecimal = BigDecimal(intVal: int, scale: int)

  function Pow10(k: nat): (p: nat)
    ensures p > 0
  {
    if k == 0 then 1 else 10 * Pow10(k - 1)
  }

  const U256_LIMIT: nat := 0x1_0000000000000000_0000000000000000_0000000000000000_0000000000000000

  lemma {:induction false} Pow10Add(a: nat, b: nat)
    ensures Pow10(a + b) == Pow10(a) * Pow10(b)
  {
    if a > 0 {
      Pow10Add(a - 1, b);
      TenTimes(Pow10(b), Pow10(a - 1), Pow10(a));
    }
  }

  function Times(a: nat, b: nat): nat { a * b }

  function Quotient(a: nat, b: nat): nat
    requires b > 0
  {
    a / b
  }

  // --- digit strings ------------------------------------------------------------------------------

  predicate IsDigit(c: char) { '0' <= c <= '9' }

  predicate IsDigits(s: string) { forall i :: 0 <= i < |s| ==> IsDigit(s[i]) }

  function DigitValue(c: char): nat
    requires IsDigit(c)
  {
    (c as int) - ('0' as int)
  }

  function DigitChar(d: nat): (c: char)
    requires d < 10
    ensures IsDigit(c) && DigitValue(c) == d
  {
    (d + '0' as int) as char
  }

  /** The number a digit string denotes. */
  function NumberOf(s: string): nat
    requires IsDigits(s)
  {
    if s == [] then 0 else 10 * NumberOf(s[..|s| - 1]) + DigitValue(s[|s| - 1])
  }

  /** The decimal digits of a number, without leading zeros. */
  function ToDigits(n: nat): (s: string)
    ensures IsDigits(s) && |s| >= 1 && NumberOf(s) == n
  {
    if n < 10 then [DigitChar(n)] else
    var s := ToDigits(n / 10) + [DigitChar(n % 10)];
    assert s[..|s| - 1] == ToDigits(n / 10);
    s
  }

  function Zeros(k: nat): (s: string)
    ensures IsDigits(s) && |s| == k
  {
    seq(k, _ => '0')
  }

  lemma {:induction false} NumberOfConcat(a: string, b: string)
    requires IsDigits(a) && IsDigits(b)
    ensures IsDigits(a + b) && NumberOf(a + b) == NumberOf(a) * Pow10(|b|) + NumberOf(b)
    ensures NumberOf(b) < Pow10(|b|)
    decreases |b|
  {
    if b == [] {
      assert a + b == a;
    } else {
      var b' := b[..|b| - 1];
      NumberOfConcat(a, b');
      assert (a + b)[..|a + b| - 1] == a + b';
      TenTimes(NumberOf(a), Pow10(|b'|), Pow10(|b|));
    }
  }

  lemma TenTimes(a: int, p: int, q: int)
    requires q == 10 * p
    ensures 10 * (a * p) == a * q
  {
    assert a * (10 * p) == 10 * (a * p);
  }

  lemma {:induction false} NumberOfZeros(z: string)
    requires forall i :: 0 <= i < |z| ==> z[i] == '0'
    ensures IsDigits(z) && NumberOf(z) == 0
  {
    if z != [] { NumberOfZeros(z[..|z| - 1]); }
  }

  // --- to a decimal ---------------------------------------------------------------------------------

  function TrimEndZeros(s: string): string {
    if s != [] && s[|s| - 1] == '0' then TrimEndZeros(s[..|s| - 1]) else s
  }

  /** At least one digit more than `decimals`. */
  function PaddedDigits(number: nat, decimals: nat): (padded: string)
    ensures IsDigits(padded) && |padded| > decimals
  {
    var digits := ToDigits(number);
    if |digits| <= decimals then Zeros(decimals - |digits| + 1) + digits else digits
  }

  lemma PaddedDigitsDenoteTheNumber(number: nat, decimals: nat)
    ensures NumberOf(PaddedDigits(number, decimals)) == number
  {
    var digits := ToDigits(number);
    if |digits| <= decimals {
      NumberOfZeros(Zeros(decimals - |digits| + 1));
      NumberOfConcat(Zeros(decimals - |digits| + 1), digits);
    }
  }

  function DisplayU256WithDecimalPoint(number: nat, decimals: nat): string {
    var padded := PaddedDigits(number, decimals);
    var point := |padded| - decimals;
    TrimEndZeros(padded[..point] + "." + padded[point..])
  }

  function Find(s: string, c: char): (r: Option<nat>)
    ensures r.Some? ==> r.value < |s| && s[r.value] == c && c !in s[..r.value]
    ensures r.None? ==> c !in s
  {
    if s == [] then None
    else if s[0] == c then Some(0)
    else
      match Find(s[1..], c)
      case Some(i) => Some(i + 1)
      case None => None
  }

  /** Parses unsigned digits with at most one point, as the display above produces them. */
  function ParseBigDecimal(s: string): Option<BigDecimal> {
    match Find(s, '.')
    case None =>
      if s != [] && IsDigits(s) then Some(BigDecimal(NumberOf(s), 0)) else None
    case Some(point) =>
      var lead, trail := s[..point], s[point + 1..];
      if lead + trail != [] && IsDigits(lead + trail) then Some(BigDecimal(NumberOf(lead + trail), |trail|)) else None
  }

  function U256ToBigDecimal(number: nat, decimals: nat): Option<BigDecimal> {
    ParseBigDecimal(DisplayU256WithDecimalPoint(number, decimals))
  }

  /** Trimming removes zeros of the fraction and never crosses the point. */
  lemma {:induction false} TrimStopsAtThePoint(lead: string, frac: string) returns (k: nat)
    ensures k <= |frac| && TrimEndZeros(lead + "." + frac) == lead + "." + frac[..k]
    ensures forall i :: k <= i < |frac| ==> frac[i] == '0'
    ensures k > 0 ==> frac[k - 1] != '0'
    decreases |frac|
  {
    var s := lead + "." + frac;
    if frac == [] {
      assert s[|s| - 1] == '.';
      k := 0;
    } else if frac[|frac| - 1] == '0' {
      var f := frac[..|frac| - 1];
      assert s[..|s| - 1] == lead + "." + f;
      k := TrimStopsAtThePoint(lead, f);
      assert f[..k] == frac[..k];
    } else {
      k := |frac|;
      assert s[|s| - 1] == frac[|frac| - 1];
      assert frac[..k] == frac;
    }
  }

  lemma FindPoint(lead: string, frac: string)
    requires IsDigits(lead)
    ensures Find(lead + "." + frac, '.') == Some(|lead|)
  {
    var s := lead + "." + frac;
    assert forall i :: 0 <= i < |lead| ==> s[i] == lead[i];
    assert s[|lead|] == '.';
    assert forall k :: |lead| < k <= |s| ==> s[..k][|lead|] == '.';
  }

  lemma ParsedParts(lead: string, trail: string)
    requires IsDigits(lead) && IsDigits(trail) && lead != []
    ensures ParseBigDecimal(lead + "." + trail) == Some(BigDecimal(NumberOf(lead + trail), |trail|))
  {
    FindPoint(lead, trail);
    var s := lead + "." + trail;
    assert s[..|lead|] == lead && s[|lead| + 1..] == trail;
  }

  lemma DisplayedParts(number: nat, decimals: nat) returns (lead: string, frac: string, k: nat)
    ensures IsDigits(lead) && IsDigits(frac) && lead != [] && |frac| == decimals && k <= decimals
    ensures NumberOf(lead + frac) == number
    ensures DisplayU256WithDecimalPoint(number, decimals) == lead + "." + frac[..k]
    ensures forall i :: k <= i < |frac| ==> frac[i] == '0'
    ensures k > 0 ==> frac[k - 1] != '0'
  {
    var padded := PaddedDigits(number, decimals);
    PaddedDigitsDenoteTheNumber(number, decimals);
    lead, frac := padded[..|padded| - decimals], padded[|padded| - decimals..];
    assert lead + frac == padded;
    k := TrimStopsAtThePoint(lead, frac);
  }

  /** The decimal is exactly `number / 10^decimals`, with no more fraction digits than needed. */
  lemma U256ToBigDecimalIsExact(number: nat, decimals: nat)
    ensures U256ToBigDecimal(number, decimals).Some?
    ensures var b := U256ToBigDecimal(number, decimals).value;
            && 0 <= b.scale <= decimals && b.intVal >= 0
            && b.intVal * Pow10(decimals - b.scale) == number
            && (b.scale > 0 ==> b.intVal % 10 != 0)
  {
    var lead, frac, k := DisplayedParts(number, decimals);
    var intVal := ParsedNumber(lead, frac, k);
    assert U256ToBigDecimal(number, decimals) == Some(BigDecimal(intVal, k));
  }

  lemma ParsedNumber(lead: string, frac: string, k: nat) returns (intVal: nat)
    requires IsDigits(lead) && IsDigits(frac) && lead != [] && k <= |frac|
    requires (forall i :: k <= i < |frac| ==> frac[i] == '0') && (k > 0 ==> frac[k - 1] != '0')
    ensures ParseBigDecimal(lead + "." + frac[..k]) == Some(BigDecimal(intVal, k))
    ensures IsDigits(lead + frac) && intVal * Pow10(|frac| - k) == NumberOf(lead + frac)
    ensures k > 0 ==> intVal % 10 != 0
  {
    DroppedZeros(lead, frac, k);
    ParsedParts(lead, frac[..k]);
    LastDigitIsNotZero(lead, frac, k);
    intVal := NumberOf(lead + frac[..k]);
  }

  lemma LastDigitIsNotZero(lead: string, frac: string, k: nat)
    requires IsDigits(lead) && IsDigits(frac) && k <= |frac| && (k > 0 ==> frac[k - 1] != '0')
    ensures IsDigits(lead + frac[..k]) && (k > 0 ==> NumberOf(lead + frac[..k]) % 10 != 0)
  {
    if k > 0 {
      LastDigit(lead + frac[..k]);
    }
  }

  lemma LastDigit(s: string)
    requires IsDigits(s) && s != []
    ensures NumberOf(s) % 10 == DigitValue(s[|s| - 1])
  {
    LastOfTen(NumberOf(s[..|s| - 1]), DigitValue(s[|s| - 1]));
  }

  lemma LastOfTen(n: nat, d: nat)
    requires d < 10
    ensures (10 * n + d) % 10 == d
  {}

  lemma DroppedZeros(lead: string, frac: string, k: nat)
    requires IsDigits(lead) && IsDigits(frac) && k <= |frac|
    requires forall i :: k <= i < |frac| ==> frac[i] == '0'
    ensures IsDigits(lead + frac[..k]) && IsDigits(lead + frac)
    ensures NumberOf(lead + frac[..k]) * Pow10(|frac| - k) == NumberOf(lead + frac)
  {
    NumberOfZeros(frac[k..]);
    NumberOfConcat(lead + frac[..k], frac[k..]);
    assert lead + frac[..k] + frac[k..] == lead + frac;
  }

  // --- from a decimal ---------------------------------------------------------------------------------

  /** Integer and fraction digits of an amount that is not negative. */
  function PrintedParts(amount: BigDecimal): (parts: (string, string))
    requires amount.intVal >= 0
    ensures IsDigits(parts.0) && IsDigits(parts.1)
    ensures |parts.1| == if amount.scale > 0 then amount.scale else 0
  {
    var digits := ToDigits(amount.intVal);
    if amount.scale >= |digits| then ("0", Zeros(amount.scale - |digits|) + digits)
    else if amount.scale < 0 then (digits + Zeros(-amount.scale), "")
    else (digits[..|digits| - amount.scale], digits[|digits| - amount.scale..])
  }

  /** How a big decimal prints: sign, integer part, and a fraction if there is one. */
  function BigDecimalToString(b: BigDecimal): string {
    var (before, after) := PrintedParts(BigDecimal(if b.intVal < 0 then -b.intVal else b.intVal, b.scale));
    (if b.intVal < 0 then "-" else "") + (if after != [] then before + "." + after else before)
  }

  function U256FromDecStr(s: string): Option<nat> {
    if IsDigits(s) && NumberOf(s) < U256_LIMIT then Some(NumberOf(s)) else None
  }

  /** A fraction padded with zeros and then truncated to `decimals` digits. */
  function Aligned(fractional: string, decimals: nat): (r: string)
    ensures |r| == decimals
  {
    var padded := if |fractional| < decimals then fractional + Zeros(decimals - |fractional|) else fractional;
    padded[..decimals]
  }

  function WeiFromBigDecimal(amount: BigDecimal, decimals: nat): Option<nat> {
    var s := BigDecimalToString(amount);
    match Find(s, '.')
    case Some(index) =>
      U256FromDecStr(s[..index] + Aligned(s[index + 1..], decimals))
    case None => U256FromDecStr(s + Zeros(decimals))
  }

  /** The integer part of `amount * 10^decimals`, for an amount that is not negative. */
  ghost function FloorScaled(amount: BigDecimal, decimals: nat): nat
    requires amount.intVal >= 0
  {
    if amount.scale <= decimals then Times(amount.intVal, Pow10(decimals - amount.scale))
    else Quotient(amount.intVal, Pow10(amount.scale - decimals))
  }

  /** The largest integer not above `x / p`. */
  ghost predicate IsFloor(r: int, x: int, p: int) { r * p <= x < (r + 1) * p }

  /** `FloorScaled` is the floor of `intVal * 10^decimals / 10^scale`. With a negative scale that is an
      integer itself. */
  lemma FloorScaledIsTheFloor(amount: BigDecimal, decimals: nat)
    requires amount.intVal >= 0
    ensures amount.scale < 0 ==>
              FloorScaled(amount, decimals) == amount.intVal * Pow10(-amount.scale) * Pow10(decimals)
    ensures amount.scale >= 0 ==>
              IsFloor(FloorScaled(amount, decimals), amount.intVal * Pow10(decimals), Pow10(amount.scale))
  {
    if amount.scale < 0 {
      Pow10Add(-amount.scale, decimals);
      MulAssoc(amount.intVal, Pow10(-amount.scale), Pow10(decimals));
    } else if amount.scale <= decimals {
      Pow10Add(decimals - amount.scale, amount.scale);
      ExactStep(amount.intVal, Pow10(decimals - amount.scale), Pow10(amount.scale), Pow10(decimals));
    } else {
      Pow10Add(amount.scale - decimals, decimals);
      FloorStep(amount.intVal, Pow10(amount.scale - decimals), Pow10(decimals), Pow10(amount.scale));
    }
  }

  lemma ExactStep(i: nat, p: nat, q: nat, pq: nat)
    requires q > 0 && pq == p * q
    ensures IsFloor(i * p, i * pq, q)
  {
    assert (i * p) * q == i * (p * q);
    assert (i * p + 1) * q == (i * p) * q + q;
  }

  lemma FloorStep(i: nat, p: nat, q: nat, pq: nat)
    requires p > 0 && q > 0 && pq == p * q
    ensures IsFloor(i / p, i * q, pq)
  {
    var r := i / p;
    assert r * p <= i < (r + 1) * p;
    assert (r * p) * q <= i * q < ((r + 1) * p) * q;
    assert (r * p) * q == r * (p * q) && ((r + 1) * p) * q == (r + 1) * (p * q);
  }

  lemma NegativeAmountsFail(amount: BigDecimal, decimals: nat)
    requires amount.intVal < 0
    ensures WeiFromBigDecimal(amount, decimals).None?
  {
    var s := BigDecimalToString(amount);
    assert s[0] == '-';
    match Find(s, '.')
    case Some(index) =>
      assert (s[..index] + Aligned(s[index + 1..], decimals))[0] == '-';
    case None =>
      assert (s + Zeros(decimals))[0] == '-';
  }

  lemma PartsOfAFraction(amount: BigDecimal)
    requires amount.intVal >= 0 && amount.scale >= 0
    ensures var (before, after) := PrintedParts(amount);
            NumberOf(before + after) == amount.intVal
  {
    var digits := ToDigits(amount.intVal);
    var (before, after) := PrintedParts(amount);
    if amount.scale >= |digits| {
      var z := Zeros(amount.scale - |digits|);
      NumberOfZeros("0" + z);
      NumberOfConcat("0" + z, digits);
      assert before + after == ("0" + z) + digits;
    } else {
      assert before + after == digits;
    }
  }

  lemma PartsOfAnInteger(amount: BigDecimal)
    requires amount.intVal >= 0 && amount.scale < 0
    ensures var (before, after) := PrintedParts(amount);
            NumberOf(before + after) == amount.intVal * Pow10(-amount.scale)
  {
    var digits := ToDigits(amount.intVal);
    var (before, after) := PrintedParts(amount);
    NumberOfZeros(Zeros(-amount.scale));
    NumberOfConcat(digits, Zeros(-amount.scale));
    assert before + after == digits + Zeros(-amount.scale);
  }

  /** Padding or truncating the fraction to `decimals` digits multiplies or divides by a power of ten. */
  lemma AlignedFraction(before: string, after: string, decimals: nat)
    requires IsDigits(before) && IsDigits(after)
    ensures IsDigits(before + Aligned(after, decimals))
    ensures NumberOf(before + Aligned(after, decimals)) ==
            if |after| <= decimals then NumberOf(before + after) * Pow10(decimals - |after|)
            else NumberOf(before + after) / Pow10(|after| - decimals)
  {
    if |after| <= decimals {
      var z := Zeros(decimals - |after|);
      NumberOfZeros(z);
      NumberOfConcat(before + after, z);
      assert before + Aligned(after, decimals) == before + after + z;
    } else {
      var head, tail := before + after[..decimals], after[decimals..];
      NumberOfConcat(head, tail);
      assert head + tail == before + after;
      QuotientOfSplit(NumberOf(head), Pow10(|tail|), NumberOf(tail));
    }
  }

  lemma QuotientOfSplit(q: nat, p: nat, r: nat)
    requires r < p
    ensures (q * p + r) / p == q
  {
    var x := q * p + r;
    var d := x / p;
    assert x == p * d + x % p && 0 <= x % p < p;
    MulDifference(p, d, q);
  }

  lemma MulDifference(p: int, d: int, q: int)
    requires p > 0 && -p < p * d - q * p < p
    ensures d == q
  {
    var e := d - q;
    assert p * d - q * p == p * e;
    assert e >= 1 ==> p * e >= p;
    assert e <= -1 ==> p * e <= -p;
  }

  /** The digits handed to the 256-bit parser. */
  lemma ParsedDigits(amount: BigDecimal, decimals: nat)
    requires amount.intVal >= 0
    ensures var (before, after) := PrintedParts(amount);
            WeiFromBigDecimal(amount, decimals) == U256FromDecStr(before + Aligned(after, decimals))
  {
    var (before, after) := PrintedParts(amount);
    var s := BigDecimalToString(amount);
    if after != [] {
      FindPoint(before, after);
      assert s == before + "." + after;
      assert s[..|before|] == before && s[|before| + 1..] == after;
    } else {
      assert s == before;
      NoPoint(before);
      assert Aligned(after, decimals) == Zeros(decimals);
    }
  }

  lemma AlignedDigitsDenoteTheFloor(amount: BigDecimal, decimals: nat)
    requires amount.intVal >= 0
    ensures var (before, after) := PrintedParts(amount);
            && IsDigits(before + Aligned(after, decimals))
            && NumberOf(before + Aligned(after, decimals)) == FloorScaled(amount, decimals)
  {
    var (before, after) := PrintedParts(amount);
    AlignedFraction(before, after, decimals);
    if amount.scale >= 0 {
      PartsOfAFraction(amount);
    } else {
      PartsOfAnInteger(amount);
      Pow10Add(-amount.scale, decimals);
      MulAssoc(amount.intVal, Pow10(-amount.scale), Pow10(decimals));
    }
  }

  lemma MulAssoc(a: int, b: int, c: int)
    ensures a * b * c == a * (b * c)
  {}

  /** The result is the floor of `amount * 10^decimals`, and an error exactly when the amount is
      negative or that floor does not fit into 256 bits. */
  lemma WeiIsTheFloor(amount: BigDecimal, decimals: nat)
    ensures WeiFromBigDecimal(amount, decimals).Some? <==>
            amount.intVal >= 0 && FloorScaled(amount, decimals) < U256_LIMIT
    ensures WeiFromBigDecimal(amount, decimals).Some? ==>
            WeiFromBigDecimal(amount, decimals).value == FloorScaled(amount, decimals)
  {
    if amount.intVal < 0 {
      NegativeAmountsFail(amount, decimals);
    } else {
      ParsedDigits(amount, decimals);
      AlignedDigitsDenoteTheFloor(amount, decimals);
    }
  }

  lemma NoPoint(s: string)
    requires IsDigits(s)
    ensures Find(s, '.').None?
  {
    assert forall i :: 0 <= i < |s| ==> IsDigit(s[i]) && s[i] != '.';
  }

  lemma WeiOfAnExactAmount(amount: BigDecimal, decimals: nat, number: nat)
    requires amount.intVal >= 0 && amount.scale <= decimals && number < U256_LIMIT
    requires amount.intVal * Pow10(decimals - amount.scale) == number
    ensures WeiFromBigDecimal(amount, decimals) == Some(number)
  {
    WeiIsTheFloor(amount, decimals);
    assert FloorScaled(amount, decimals) == number;
  }

  /** Every 256-bit amount survives the trip to a decimal and back, for every number of decimals. */
  lemma WeiRoundTrip(number: nat, decimals: nat)
    requires number < U256_LIMIT
    ensures U256ToBigDecimal(number, decimals).Some?
    ensures WeiFromBigDecimal(U256ToBigDecimal(number, decimals).value, decimals) == Some(number)
  {
    U256ToBigDecimalIsExact(number, decimals);
    WeiOfAnExactAmount(U256ToBigDecimal(number, decimals).value, decimals, number);
  }
}
