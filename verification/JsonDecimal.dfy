/** What the numbers of RFC 8259 are worth, and which of them the reader takes. */
module JsonDecimal {
  import opened Bytes
  import opened JsonString
  import opened JsonNumber
  import opened JsonText
  import opened JsonRoundTrip

  datatype Exponent = NoExponent | Exponent(mark: byte, sign: bytes, digits: bytes)

  /** A number by its parts: sign, digits before and behind the dot, exponent. */
  datatype Decimal = Decimal(neg: bool, whole: bytes, frac: bytes, exp: Exponent)

  predicate AllDigits(s: bytes) {
    forall i :: 0 <= i < |s| ==> 0x30 <= s[i] <= 0x39
  }

  predicate ProperExponent(e: Exponent) {
    e.Exponent? ==>
      e.mark in {0x65, 0x45} && e.sign in {[], [0x2B], [0x2D]} && e.digits != [] && AllDigits(e.digits)
  }

  predicate Spelled(d: Decimal) {
    d.whole != [] && AllDigits(d.whole) && AllDigits(d.frac) && ProperExponent(d.exp)
  }

  /** Section 6 of RFC 8259: no needless zero at the front. */
  predicate Proper(d: Decimal) {
    Spelled(d) && (d.whole[0] == 0x30 ==> |d.whole| == 1)
  }

  function FractionText(frac: bytes): bytes {
    if frac == [] then [] else [0x2E] + frac
  }

  function ExponentText(e: Exponent): bytes {
    if e.NoExponent? then [] else [e.mark] + (e.sign + e.digits)
  }

  function Unsigned(d: Decimal): bytes {
    d.whole + (FractionText(d.frac) + ExponentText(d.exp))
  }

  function Text(d: Decimal): bytes {
    (if d.neg then [0x2D] else []) + Unsigned(d)
  }

  // The parts are found again

  lemma {:induction false} RunOfDigits(s: bytes, rest: bytes)
    requires AllDigits(s) && (rest == [] || !(0x30 <= rest[0] <= 0x39))
    ensures Digits(s + rest) == |s|
    decreases |s|
  {
    if s == [] {
      assert s + rest == rest;
    } else {
      assert (s + rest)[1..] == s[1..] + rest;
      RunOfDigits(s[1..], rest);
    }
  }

  lemma ExponentIsWhole(e: Exponent)
    requires ProperExponent(e)
    ensures var t := ExponentText(e);
            && ExponentLen(t) == |t| && (e.NoExponent? ==> t == [])
            && (e.Exponent? ==> |t| > 1 && t[0] == e.mark && t[1 + |e.sign|..] == e.digits)
            && (e.Exponent? && e.sign != [] ==> t[1] == e.sign[0])
            && (e.Exponent? && e.sign == [] ==> t[1] == e.digits[0])
  {
    if e.Exponent? {
      var t := ExponentText(e);
      assert t[1 + |e.sign|..] == e.digits && t[1..] == e.sign + e.digits;
      RunOfDigits(e.digits, []);
      assert e.digits + [] == e.digits;
    }
  }

  lemma FractionIsFound(frac: bytes, rest: bytes)
    requires AllDigits(frac) && (rest == [] || IsE(rest[0]))
    ensures FractionLen(FractionText(frac) + rest) == |FractionText(frac)|
  {
    var u := FractionText(frac) + rest;
    if frac == [] {
      assert u == rest;
    } else {
      assert u[1..] == frac + rest;
      RunOfDigits(frac, rest);
    }
  }

  lemma Slices(w: bytes, u: bytes, e: bytes)
    ensures var t := w + (u + e);
            && t[..|w|] == w && t[|w|..] == u + e && t[|w| + |u|..] == e
            && (u != [] ==> t[|w| + 1..|w| + |u|] == u[1..])
  {
  }

  lemma PartsAreFound(d: Decimal)
    requires Spelled(d)
    ensures var t, i, f := Unsigned(d), |d.whole|, |FractionText(d.frac)|;
            && Digits(t) == i && FractionLen(t[i..]) == f && ExponentLen(t[i + f..]) == |t| - i - f
            && t[..i] == d.whole && t[i + f..] == ExponentText(d.exp) && t[0] == d.whole[0]
            && (f > 0 ==> t[i + 1..i + f] == d.frac) && (f == 0 <==> d.frac == [])
  {
    hide Digits, FractionLen, ExponentLen;
    var u, e := FractionText(d.frac), ExponentText(d.exp);
    ExponentIsWhole(d.exp);
    FractionIsFound(d.frac, e);
    StartsNoDigit(d);
    RunOfDigits(d.whole, u + e);
    Slices(d.whole, u, e);
    assert d.frac != [] ==> u[1..] == d.frac;
  }

  lemma StartsNoDigit(d: Decimal)
    requires Spelled(d)
    ensures var s := FractionText(d.frac) + ExponentText(d.exp); s == [] || !(0x30 <= s[0] <= 0x39)
  {
  }

  lemma BehindSign(d: Decimal)
    requires Spelled(d)
    ensures var l, t := Text(d), Unsigned(d);
            && l[if d.neg then 1 else 0..] == t && l != []
            && l[0] == if d.neg then 0x2D else d.whole[0]
  {
    var l, t := Text(d), Unsigned(d);
    if d.neg {
      assert l[1..] == t;
    } else {
      assert l == t && l[0..] == t;
    }
  }

  lemma SpelledIsJsonNumber(d: Decimal)
    requires Proper(d)
    ensures IsJsonNumber(Text(d))
  {
    hide Digits, FractionLen, ExponentLen, Text, Unsigned, FractionText, ExponentText;
    PartsAreFound(d);
    BehindSign(d);
  }

  // Every number of the scanner's grammar is spelled so

  lemma {:induction false} DigitsAreDigits(s: bytes)
    ensures AllDigits(s[..Digits(s)])
    decreases |s|
  {
    if s != [] && IsDigit(s[0]) {
      DigitsAreDigits(s[1..]);
      assert s[..Digits(s)] == [s[0]] + s[1..][..Digits(s[1..])];
    }
  }

  lemma ExponentOfWhole(t: bytes) returns (e: Exponent)
    requires ExponentLen(t) == |t|
    ensures ProperExponent(e) && ExponentText(e) == t
  {
    if t == [] {
      e := NoExponent;
    } else {
      var sign := if |t| > 1 && IsSign(t[1]) then 1 else 0;
      e := Exponent(t[0], t[1..1 + sign], t[1 + sign..]);
      DigitsAreDigits(e.digits);
      assert e.digits[..|e.digits|] == e.digits;
      assert t[1..1 + sign] == if sign == 1 then [t[1]] else [];
    }
  }

  lemma FractionOfWhole(u: bytes) returns (frac: bytes)
    requires FractionLen(u) != 1
    ensures AllDigits(frac) && FractionText(frac) == u[..FractionLen(u)]
  {
    if FractionLen(u) == 0 {
      frac := [];
    } else {
      frac := u[1..FractionLen(u)];
      DigitsAreDigits(u[1..]);
      assert frac == u[1..][..Digits(u[1..])];
    }
  }

  lemma UnsignedIsSpelled(t: bytes) returns (d: Decimal)
    requires IsUnsigned(t)
    ensures Proper(d) && !d.neg && Unsigned(d) == t
  {
    hide Digits, FractionLen, ExponentLen, FractionText, ExponentText, ProperExponent, AllDigits;
    var i := Digits(t);
    var u := t[i..];
    var f := FractionLen(u);
    DigitsAreDigits(t);
    var frac := FractionOfWhole(u);
    ThreeSlices(t, i, f);
    var e := ExponentOfWhole(u[f..]);
    d := Decimal(false, t[..i], frac, e);
  }

  lemma ThreeSlices(t: bytes, i: nat, f: nat)
    requires i + f <= |t|
    ensures t[i..][f..] == t[i + f..] && t == t[..i] + (t[i..][..f] + t[i..][f..])
    ensures i > 0 ==> t[..i] != [] && t[..i][0] == t[0]
  {
  }

  /** The numbers of RFC 8259 are exactly the proper spellings. */
  lemma JsonNumberIsSpelled(l: bytes) returns (d: Decimal)
    requires IsJsonNumber(l)
    ensures Proper(d) && Text(d) == l
  {
    hide IsUnsigned, Unsigned;
    var neg := l != [] && l[0] == MINUS;
    d := UnsignedIsSpelled(l[if neg then 1 else 0..]);
    d := d.(neg := neg);
    SameUnsigned(d);
    assert neg ==> l == [0x2D] + l[1..];
    assert !neg ==> l[0..] == l && [] + l == l;
  }

  lemma SameUnsigned(d: Decimal)
    ensures Unsigned(d.(neg := false)) == Unsigned(d)
  {
  }

  // Values

  function ExponentValue(e: Exponent): int {
    if e.NoExponent? then 0 else if e.sign == [0x2D] then 0 - DigitsValue(e.digits) else DigitsValue(e.digits)
  }

  function Scaled(n: nat, k: int): real {
    n as real * Pow10(k)
  }

  /** The digits as one integer, scaled by the exponent and the number of digits behind the dot. */
  function Magnitude(d: Decimal): real {
    Scaled(DigitsValue(d.whole + d.frac), ExponentValue(d.exp) - |d.frac|)
  }

  lemma ExponentOfText(e: Exponent)
    requires ProperExponent(e)
    ensures ExponentOf(ExponentText(e)) == ExponentValue(e)
  {
    hide ExponentLen, DigitsValue, ExponentText;
    ExponentIsWhole(e);
    if e.Exponent? {
      assert e.sign == [] ==> !IsSign(e.digits[0]);
      assert e.sign != [] ==> e.sign[0] in {0x2B, 0x2D};
    }
  }

  lemma MagnitudeOfText(d: Decimal)
    requires Spelled(d)
    ensures NumberValue(Text(d)) == if d.neg then -Magnitude(d) else Magnitude(d)
  {
    hide Digits, FractionLen, ExponentLen, ExponentOf, ExponentValue, DigitsValue, Pow10;
    hide Text, Unsigned, FractionText, ExponentText;
    PartsAreFound(d);
    ExponentOfText(d.exp);
    BehindSign(d);
    assert !d.neg ==> !IsSign(d.whole[0]);
    assert d.whole + [] == d.whole;
  }

  // What is read

  /** A zero with an exponent, written `0E`, `-0e` or `-0E`. */
  predicate ZeroWithExponent(d: Decimal) {
    d.whole == [0x30] && d.frac == [] && d.exp.Exponent? && (d.neg || d.exp.mark == 0x45)
  }

  lemma RejectedIff(d: Decimal)
    requires Proper(d)
    ensures IsDecimal(Text(d)) <==> !ZeroWithExponent(d)
  {
    SpelledIsJsonNumber(d);
    JsonNumbersRejected(Text(d));
    BehindSign(d);
    SecondByte(d);
    hide IsDecimal, IsJsonNumber, Text;
    var l, t := Text(d), Unsigned(d);
    if d.neg {
      assert |l| > 2 ==> l[2] == t[1];
      assert l[1] == t[0];
    } else {
      assert l == t;
    }
  }

  /** A leading zero is followed by the exponent's mark exactly if there is no fraction. */
  lemma SecondByte(d: Decimal)
    requires Proper(d)
    ensures var t := Unsigned(d);
            && t != [] && t[0] == d.whole[0]
            && (d.whole == [0x30] ==> (|t| > 1 && IsE(t[1]) <==> d.frac == [] && d.exp.Exponent?))
            && (d.whole == [0x30] && d.frac == [] && d.exp.Exponent? ==> t[1] == d.exp.mark)
  {
    var t := Unsigned(d);
    assert d.whole == [0x30] ==> t[1..] == FractionText(d.frac) + ExponentText(d.exp);
    if d.whole == [0x30] && d.frac == [] && d.exp.Exponent? {
      assert t[1..][0] == d.exp.mark;
    } else if d.whole == [0x30] && d.frac != [] {
      assert t[1..][0] == 0x2E;
    } else if d.whole == [0x30] {
      assert t == [0x30];
    }
  }

  lemma TimesConstant(c: nat, x: nat, y: nat)
    ensures c * (x * y) == (c * x) * y
  {
  }

  lemma {:induction false} Pow2Adds(a: nat, b: nat)
    ensures Pow2(a + b) == Pow2(a) * Pow2(b)
  {
    if a > 0 {
      Pow2Adds(a - 1, b);
      assert Pow2(a + b) == 2 * Pow2(a - 1 + b) && Pow2(a) == 2 * Pow2(a - 1);
      hide Pow2;
      TimesConstant(2, Pow2(a - 1), Pow2(b));
    }
  }

  /** Half a unit behind the largest double: 53 binary digits of ones in front of 971 zeros. */
  function RoundsToInfinity(): nat {
    (Pow2(53) - 1) * Pow2(971) + Pow2(970)
  }

  lemma Midpoint(p: nat, q: nat)
    ensures Pow2(p + (q + 1)) - Pow2(q) == (Pow2(p) - 1) * Pow2(q + 1) + Pow2(q)
  {
    Pow2Adds(p, q + 1);
    assert Pow2(q + 1) == 2 * Pow2(q);
    hide Pow2;
    assert (Pow2(p) - 1) * Pow2(q + 1) == Pow2(p) * Pow2(q + 1) - Pow2(q + 1);
  }

  lemma LimitIsMidpoint()
    ensures Pow2(1024) - Pow2(970) == RoundsToInfinity()
  {
    hide Pow2;
    Midpoint(53, 970);
  }

  lemma OverflowsIff(d: Decimal)
    requires Spelled(d)
    ensures Overflows(Text(d)) <==> Magnitude(d) >= RoundsToInfinity() as real
  {
    MagnitudeOfText(d);
    LimitIsMidpoint();
    MagnitudeNotNegative(d);
    hide Magnitude, NumberValue, RoundsToInfinity, Pow2;
  }

  lemma {:induction false} PowerPositive(k: int)
    ensures Pow10(k) > 0.0
    decreases if k < 0 then 0 - k else k
  {
    if k > 0 {
      PowerPositive(k - 1);
    } else if k < 0 {
      PowerPositive(k + 1);
    }
  }

  lemma MagnitudeNotNegative(d: Decimal)
    ensures Magnitude(d) >= 0.0
  {
    PowerPositive(ExponentValue(d.exp) - |d.frac|);
    hide Pow10, DigitsValue, ExponentValue;
  }

  /** A number of RFC 8259, as a whole text, is read exactly unless it is a zero with an exponent of the rejected
      spellings or lies at half a unit behind the largest double or beyond. */
  lemma NumberIsReadIff(d: Decimal)
    requires Proper(d)
    ensures ParseText(Text(d))
         == if ZeroWithExponent(d) || Magnitude(d) >= RoundsToInfinity() as real then Fail else Ok(Number(Text(d)), [])
  {
    SpelledIsJsonNumber(d);
    RejectedIff(d);
    OverflowsIff(d);
    BehindSign(d);
    hide Text, IsJsonNumber, IsDecimal, Overflows, Magnitude, RoundsToInfinity, ZeroWithExponent;
    WholeNumberParses(Text(d));
  }

  lemma WholeNumberParses(l: bytes)
    requires IsJsonNumber(l) && l != [] && (l[0] == MINUS || IsDigit(l[0]))
    ensures ParseText(l) == if Accepted(l) then Ok(Number(l), []) else Fail
  {
    StrtodTakesNumber(l, []);
    NumberDispatch(l, 0);
    hide StrtodLen, Accepted, IsJsonNumber, ParseValue;
    assert l + [] == l && l[..|l|] == l && l[|l|..] == [];
  }

  // Sizes

  function Ten(k: nat): (r: nat)
    ensures r > 0
  {
    if k == 0 then 1 else 10 * Ten(k - 1)
  }

  lemma {:induction false} TenAdds(a: nat, b: nat)
    ensures Ten(a + b) == Ten(a) * Ten(b)
  {
    if a > 0 {
      TenAdds(a - 1, b);
      assert Ten(a + b) == 10 * Ten(a - 1 + b) && Ten(a) == 10 * Ten(a - 1);
      hide Ten;
      TimesConstant(10, Ten(a - 1), Ten(b));
    }
  }

  lemma {:induction false} TenGrows(a: nat, b: nat)
    requires a <= b
    ensures Ten(a) <= Ten(b)
    decreases b - a
  {
    if a < b {
      TenGrows(a, b - 1);
    }
  }

  lemma {:induction false} DigitsBounds(s: bytes)
    requires AllDigits(s)
    ensures DigitsValue(s) < Ten(|s|)
    ensures s != [] && s[0] != 0x30 ==> DigitsValue(s) >= Ten(|s| - 1)
  {
    if |s| > 1 {
      DigitsBounds(s[..|s| - 1]);
    }
  }

  /** Digits behind the dot only add to the value below the next integer. */
  lemma {:induction false} ScaledDown(n: nat, k: nat, f: nat)
    ensures n < Ten(k + f) ==> n as real * Pow10(0 - f) < Ten(k) as real
    ensures n >= Ten(k + f) ==> n as real * Pow10(0 - f) >= Ten(k) as real
  {
    PowersCancel(f);
    PowerPositive(0 - f);
    TenAdds(k, f);
    var p := Pow10(0 - f);
    hide Pow10, Ten;
    assert (Ten(k) * Ten(f)) as real * p == Ten(k) as real * (Ten(f) as real * p);
    Scales(n as real, Ten(k + f) as real, p);
  }

  lemma Scales(x: real, y: real, p: real)
    requires p > 0.0
    ensures x < y ==> x * p < y * p
    ensures x >= y ==> x * p >= y * p
  {
  }

  lemma {:induction false} PowersCancel(f: nat)
    ensures Ten(f) as real * Pow10(0 - f) == 1.0
  {
    if f > 0 {
      PowersCancel(f - 1);
      assert Pow10(0 - f) == Pow10(0 - (f - 1)) / 10.0;
      assert Ten(f) as real == 10.0 * Ten(f - 1) as real;
      hide Pow10, Ten;
      Regroup(Ten(f - 1) as real, Pow10(0 - (f - 1)));
    }
  }

  lemma Regroup(a: real, b: real)
    ensures (10.0 * a) * (b / 10.0) == a * b
  {
  }

  /** Without an exponent, the digits before the dot decide the size. */
  lemma PlainMagnitude(d: Decimal, n: nat)
    requires Spelled(d) && d.exp.NoExponent?
    ensures |d.whole| <= n ==> Magnitude(d) < Ten(n) as real
    ensures d.whole[0] != 0x30 && |d.whole| > n ==> Magnitude(d) >= Ten(n) as real
  {
    hide Ten, Pow10, DigitsValue;
    var s, f := d.whole + d.frac, |d.frac|;
    DigitsBounds(s);
    ScaledDown(DigitsValue(s), n, f);
    assert Scaled(DigitsValue(s), 0 - f) == DigitsValue(s) as real * Pow10(0 - f);
    if |d.whole| <= n {
      TenGrows(|s|, n + f);
    } else {
      TenGrows(n + f, |s| - 1);
    }
  }

  lemma {:induction false} PowerOfPower(a: nat, b: nat, k: nat, up: bool)
    requires if up then Ten(a) < Pow2(b) else Pow2(b) < Ten(a)
    requires k > 0
    ensures if up then Ten(k * a) < Pow2(k * b) else Pow2(k * b) < Ten(k * a)
    decreases k
  {
    if k > 1 {
      PowerOfPower(a, b, k - 1, up);
      TenAdds((k - 1) * a, a);
      Pow2Adds((k - 1) * b, b);
      assert k * a == (k - 1) * a + a && k * b == (k - 1) * b + b;
      hide Ten, Pow2;
      if up {
        Products(Ten((k - 1) * a), Pow2((k - 1) * b), Ten(a), Pow2(b));
      } else {
        Products(Pow2((k - 1) * b), Ten((k - 1) * a), Pow2(b), Ten(a));
      }
    } else {
      assert k * a == a && k * b == b;
    }
  }

  lemma Products(a: nat, b: nat, c: nat, d: nat)
    requires a < b && c < d
    ensures a * c < b * d
  {
    assert a * c <= a * d && a * d < b * d;
  }

  /** The limit lies between 10^308 and 10^309. */
  lemma LimitInDecimal()
    ensures Ten(308) < RoundsToInfinity() <= Ten(309)
  {
    hide Ten, Pow2;
    LimitIsMidpoint();
    TenLiterals();
    TwoLiterals();
    PowerOfPower(59, 196, 5, true);
    TenAdds(295, 13);
    Pow2Adds(980, 44);
    PowerOfPower(28, 93, 11, false);
    TenAdds(308, 1);
    Pow2Adds(1023, 1);
    Pow2Adds(970, 10);
    LimitArithmetic(Ten(295), Pow2(980), Pow2(970), Ten(308), Pow2(1023));
  }

  lemma LimitArithmetic(ten295: nat, two980: nat, two970: nat, ten308: nat, two1023: nat)
    requires ten295 < two980 && two980 == two970 * 1024 && ten308 == ten295 * 10_000_000_000_000 && two1023 < ten308
    ensures ten308 < two980 * 17_592_186_044_416 - two970
    ensures two1023 * 2 - two970 <= ten308 * 10
  {
  }

  lemma SmallPowers()
    ensures Ten(1) == 10 && Ten(2) == 100 && Pow2(1) == 2 && Pow2(2) == 4 && Pow2(5) == 32
  {
    assert Pow2(3) == 8;
  }

  lemma TenLiterals()
    ensures Ten(1) == 10 && Ten(13) == 10_000_000_000_000
    ensures Ten(28) == 10_000_000_000_000_000_000_000_000_000
    ensures Ten(59) == 100_000_000_000_000_000_000_000_000_000_000_000_000_000_000_000_000_000_000_000
  {
    SmallPowers();
    hide Ten;
    TenAdds(2, 2);
    TenAdds(4, 4);
    TenAdds(8, 4);
    TenAdds(12, 1);
    TenAdds(13, 13);
    TenAdds(26, 2);
    TenAdds(28, 28);
    TenAdds(56, 2);
    TenAdds(58, 1);
  }

  lemma TwoLiterals()
    ensures Pow2(1) == 2 && Pow2(10) == 1024 && Pow2(44) == 17_592_186_044_416
    ensures Pow2(93) == 17_592_186_044_416 * 562_949_953_421_312
    ensures Pow2(196) == Pow2(93) * Pow2(93) * 1024
  {
    SmallPowers();
    hide Pow2;
    Pow2Adds(5, 5);
    Pow2Adds(10, 10);
    Pow2Adds(20, 20);
    Pow2Adds(40, 2);
    Pow2Adds(42, 2);
    Pow2Adds(44, 5);
    Pow2Adds(44, 49);
    Pow2Adds(93, 93);
    Pow2Adds(186, 10);
  }

  /** Every number of RFC 8259 with at most 308 digits before the dot and no exponent is read. */
  lemma ShortNumbersAreRead(d: Decimal)
    requires Proper(d) && d.exp.NoExponent? && |d.whole| <= 308
    ensures ParseText(Text(d)) == Ok(Number(Text(d)), [])
  {
    hide Ten, RoundsToInfinity, Magnitude;
    NumberIsReadIff(d);
    PlainMagnitude(d, 308);
    LimitInDecimal();
  }

  /** None with 310 digits or more before the dot is. */
  lemma LongNumbersAreRefused(d: Decimal)
    requires Proper(d) && d.exp.NoExponent? && |d.whole| >= 310
    ensures ParseText(Text(d)) == Fail
  {
    hide Ten, RoundsToInfinity, Magnitude;
    NumberIsReadIff(d);
    PlainMagnitude(d, 309);
    LimitInDecimal();
  }

  // What digits and exponents are worth

  /** `%u` */
  function DecimalText(n: nat): (s: bytes)
    ensures s != []
  {
    if n < 10 then [0x30 + n] else DecimalText(n / 10) + [0x30 + n % 10]
  }

  lemma {:induction false} DecimalTextReads(n: nat)
    ensures AllDigits(DecimalText(n)) && DigitsValue(DecimalText(n)) == n
    decreases n
  {
    var s := DecimalText(n);
    if n >= 10 {
      DecimalTextReads(n / 10);
      assert s[..|s| - 1] == DecimalText(n / 10);
    } else {
      assert s[..0] == [];
    }
  }

  lemma {:induction false} LeadingZero(s: bytes)
    ensures DigitsValue([0x30] + s) == DigitsValue(s)
    decreases |s|
  {
    var t := [0x30] + s;
    if s == [] {
      assert t[..0] == [];
    } else {
      assert t[..|t| - 1] == [0x30] + s[..|s| - 1];
      LeadingZero(s[..|s| - 1]);
    }
  }

  lemma ScaledLaws(n: nat, k: int)
    ensures Scaled(n, k + 1) == 10.0 * Scaled(n, k) && Scaled(n, 0) == n as real
  {
    var x, p := n as real, Pow10(k);
    assert Pow10(k + 1) == 10.0 * p && Pow10(0) == 1.0;
    hide Pow10;
    assert x * (10.0 * p) == 10.0 * (x * p);
  }

  lemma WholeText(w: bytes)
    ensures Text(Decimal(false, w, [], NoExponent)) == w && Text(Decimal(true, w, [], NoExponent)) == [0x2D] + w
  {
    var nothing: bytes := [];
    assert nothing + nothing == nothing && w + nothing == w && nothing + w == w;
  }

  /** A whole number is worth what its digits spell, and its negative the opposite. */
  lemma WholeNumbers(n: nat)
    ensures NumberValue(DecimalText(n)) == n as real
    ensures NumberValue([0x2D] + DecimalText(n)) == -(n as real)
  {
    hide NumberValue, DecimalText, DigitsValue, Scaled, Text;
    DecimalTextReads(n);
    var w := DecimalText(n);
    var d := Decimal(false, w, [], NoExponent);
    assert w + [] == w;
    WholeText(w);
    MagnitudeOfText(d);
    MagnitudeOfText(d.(neg := true));
    ScaledLaws(n, 0);
  }

  /** Moving the dot one digit to the right makes the value ten times as large. */
  lemma DotMoves(d: Decimal, c: byte)
    requires Spelled(d) && 0x30 <= c <= 0x39
    ensures NumberValue(Text(d.(whole := d.whole + [c]))) == 10.0 * NumberValue(Text(d.(frac := [c] + d.frac)))
  {
    hide NumberValue, Text, DigitsValue, ExponentValue, Scaled;
    var left, right := d.(frac := [c] + d.frac), d.(whole := d.whole + [c]);
    Assoc(d.whole, [c], d.frac);
    ScaledLaws(DigitsValue(d.whole + ([c] + d.frac)), ExponentValue(d.exp) - |d.frac| - 1);
    MagnitudeOfText(left);
    MagnitudeOfText(right);
  }

  /** An exponent that is one larger makes the value ten times as large, a negative one a tenth of it. */
  lemma ExponentScales(d: Decimal, mark: byte, sign: bytes, k: nat)
    requires Spelled(d) && mark in {0x65, 0x45} && sign in {[], [0x2B], [0x2D]}
    ensures var small := NumberValue(Text(d.(exp := Exponent(mark, sign, DecimalText(k)))));
            var large := NumberValue(Text(d.(exp := Exponent(mark, sign, DecimalText(k + 1)))));
            if sign == [0x2D] then small == 10.0 * large else large == 10.0 * small
    ensures NumberValue(Text(d.(exp := Exponent(mark, sign, DecimalText(0)))))
        == NumberValue(Text(d.(exp := NoExponent)))
  {
    hide NumberValue, Text, Scaled;
    ValueWithExponent(d, mark, sign, 0);
    ValueWithExponent(d, mark, sign, k);
    ValueWithExponent(d, mark, sign, k + 1);
    MagnitudeOfText(d.(exp := NoExponent));
    var n, f := DigitsValue(d.whole + d.frac), |d.frac|;
    hide DigitsValue;
    ScaledLaws(n, k - f);
    ScaledLaws(n, 0 - (k + 1) - f);
  }

  lemma ValueWithExponent(d: Decimal, mark: byte, sign: bytes, k: nat)
    requires Spelled(d) && mark in {0x65, 0x45} && sign in {[], [0x2B], [0x2D]}
    ensures var e, x := Exponent(mark, sign, DecimalText(k)), DigitsValue(d.whole + d.frac);
            var size := Scaled(x, (if sign == [0x2D] then 0 - k else k) - |d.frac|);
            NumberValue(Text(d.(exp := e))) == if d.neg then -size else size
  {
    DecimalTextReads(k);
    hide NumberValue, Text, Scaled, DecimalText, DigitsValue;
    MagnitudeOfText(d.(exp := Exponent(mark, sign, DecimalText(k))));
  }
}
