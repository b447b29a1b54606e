/** scalbn of the C library's double-precision math: scaling by a power of two through at
    most three multiplications, with a single rounding for every argument. */
module Scalbn {
  import opened Bits
  import opened Rounding
  import opened Ieee

  /** The unit exponent: a double of magnitude m is m * 2^-1074. */
  const LOW: nat := 1074

  /** x * 2^n, rounded once. */
  function Scaled(x: Fp, n: int): Fp {
    if x.Fin? then RoundAt(DOUBLE, x.neg, x.mag, n - LOW) else x
  }

  /** Exponent field 0x3ff + n with a zero fraction is the number 2^n. */
  lemma PowerBits(n: int)
    requires -1022 <= n <= 1023
    ensures Decode(DOUBLE_BITS, Shl64(0x3ff + n, 52)) == Power(DOUBLE, n)
  {
    hide Pow2, Decode;
    var e := 0x3ff + n;
    Pow2Of11();
    Pow2Of64();
    Pow2Add(12, 52);
    MulStrict(e, Pow2(12), Pow2(52));
    DivModUnique(e * Pow2(52), B64, 0, e * Pow2(52));
    DoubleLayout(e, 0);
  }

  lemma Pow2Of11()
    ensures Pow2(11) == 2048 && Pow2(12) == 4096
  {
  }

  lemma MulExact(x: Fp, k: int)
    requires k + LOW >= 0
    ensures Mul(DOUBLE, x, Power(DOUBLE, k)) == Scaled(x, k)
  {
    hide Pow2, Round, RoundAt;
    if x.Fin? { MulPower(DOUBLE, x, k); }
  }

  /** Scaling up in two steps is scaling up once. */
  lemma ScaleUp(x: Fp, k: nat, n: nat)
    requires x.Fin? && IsValue(DOUBLE, x)
    ensures IsValue(DOUBLE, Scaled(x, k))
    ensures Scaled(Scaled(x, k), n) == Scaled(x, k + n)
  {
    hide Pow2, Round, Fits, BitLen;
    FitsUp(DOUBLE, x.mag, k);
    RoundFits(DOUBLE, x.neg, x.mag * Pow2(k));
    FitsUp(DOUBLE, x.mag, k + n);
    RoundFits(DOUBLE, x.neg, x.mag * Pow2(k + n));
    Pow2Add(k, n);
    MulAssoc(x.mag, Pow2(k), Pow2(n));
    MulMono(1, Pow2(n), x.mag * Pow2(k));
  }

  /** Scaling far enough up overflows every nonzero value. */
  lemma ScaleOver(x: Fp, n: nat)
    requires x.Fin? && IsValue(DOUBLE, x) && n >= 2098
    ensures Scaled(x, n) == if x.mag == 0 then x else Inf(x.neg)
  {
    hide Pow2, Round, Fits, BitLen;
    FitsUp(DOUBLE, x.mag, n);
    RoundFits(DOUBLE, x.neg, x.mag * Pow2(n));
    if x.mag == 0 {
      assert 0 * Pow2(n) == 0;
    } else {
      MulMono(1, x.mag, Pow2(n));
      Pow2Mono(2098, n);
    }
  }

  /** Values too small for the target unit become zero. */
  lemma ScaleTiny(x: Fp, n: int, t: nat)
    requires x.Fin? && x.mag <= Pow2(t) && n <= -2 - t
    ensures Scaled(x, n) == Fin(x.neg, 0)
  {
    hide Pow2, Round;
    Pow2Mono(t, t + 1);
    Pow2Mono(t + 1, -n);
    TinyRounds(DOUBLE, x.neg, x.mag, -n);
  }

  /** The reduction by 2^-969 never rounds twice: either it is exact, or the final value is zero. */
  lemma ScaleDown(x: Fp, n: int)
    requires x.Fin? && IsValue(DOUBLE, x) && n < -1022
    ensures Scaled(x, -969).Fin? && IsValue(DOUBLE, Scaled(x, -969))
    ensures Scaled(Scaled(x, -969), n + 969) == Scaled(x, n)
  {
    hide Pow2, Round, BitLen, RoundMag;
    var y := Scaled(x, -969);
    RoundIsValue(DOUBLE, x.neg, x.mag, 969);
    if x.mag < Pow2(1021) {
      SmallScaled(x, 969, 52);
      ScaleTiny(y, n + 969, 52);
      ScaleTiny(x, n, 1021);
    } else {
      var q := LargeMultiple(x);
      RoundScale(DOUBLE, x.neg, q, 0, 969);
      QuotientFits(x, q);
      RoundScale(DOUBLE, x.neg, q, -(n + 969), 969);
    }
  }

  /** A magnitude below 2^(s+t) is at most 2^t after division by 2^s. */
  lemma SmallScaled(x: Fp, s: nat, t: nat)
    requires x.Fin? && s > 0 && t < 2098 && x.mag < Pow2(s + t)
    ensures Scaled(x, -(s as int)).Fin? && Scaled(x, -(s as int)).mag <= Pow2(t)
    ensures Scaled(x, -(s as int)).neg == x.neg
  {
    hide Pow2, RoundMag;
    RoundMagBound(DOUBLE, x.mag, s, t);
    Pow2Mono(t, 2098);
  }

  /** Magnitudes of 2^1021 and more are multiples of 2^969. */
  lemma LargeMultiple(x: Fp) returns (q: nat)
    requires x.Fin? && Fits(DOUBLE, x.mag) && Pow2(1021) <= x.mag
    ensures x.mag == q * Pow2(969)
  {
    hide Pow2, BitLen;
    BitLenRange(x.mag);
    var n := BitLen(x.mag);
    if n < 1022 { Pow2Mono(n, 1021); assert false; }
    var (h, r) := Split(x.mag, n - 53);
    DivModUnique(x.mag, Pow2(n - 53), h, r);
    Pow2Add(n - 53 - 969, 969);
    MulAssoc(h, Pow2(n - 53 - 969), Pow2(969));
    q := h * Pow2(n - 53 - 969);
  }

  lemma QuotientFits(x: Fp, q: nat)
    requires x.Fin? && IsValue(DOUBLE, x) && x.mag == q * Pow2(969)
    ensures Round(DOUBLE, x.neg, q, 0) == Fin(x.neg, q)
  {
    hide Pow2, Round, BitLen;
    if q > 0 {
      BitLenScale(q, 969);
      var n := BitLen(q);
      if n > 53 {
        Pow2Add(n - 53, 969);
        DivModScale(q, Pow2(n - 53), Pow2(969));
        var r := q % Pow2(n - 53);
        if r != 0 { MulPositive(r, Pow2(969)); assert false; }
      }
    }
    RoundFits(DOUBLE, x.neg, q);
    MulMono(1, Pow2(969), q);
  }

  /** scalbn returns x * 2^n rounded once, for every double x and every int n. */
  method Scalbn(x: Fp, n0: int) returns (r: Fp)
    requires IsValue(DOUBLE, x)
    ensures r == Scaled(x, n0)
  {
    hide Pow2, Mul, Scaled, IsValue, Decode, Power, Shl64;
    var n := n0;
    var y := x;
    if n > 1023 {
      y := Mul(DOUBLE, y, Power(DOUBLE, 1023));
      n := n - 1023;
      if n > 1023 {
        y := Mul(DOUBLE, y, Power(DOUBLE, 1023));
        n := n - 1023;
        if n > 1023 {
          n := 1023;
        }
      }
      ScalbnUp(x, n0);
    } else if n < -1022 {
      // 0x1p-1022 * 0x1p53: the final factor stays below 2^-53
      y := Mul(DOUBLE, y, Power(DOUBLE, -969));
      n := n + 969;
      if n < -1022 {
        y := Mul(DOUBLE, y, Power(DOUBLE, -969));
        n := n + 969;
        if n < -1022 {
          n := -1022;
        }
      }
      ScalbnDown(x, n0);
    }
    PowerBits(n);
    MulExact(y, n);
    r := Mul(DOUBLE, y, Decode(DOUBLE_BITS, Shl64(0x3ff + n, 52)));
  }

  lemma ScalbnUp(x: Fp, n: int)
    requires IsValue(DOUBLE, x) && n > 1023
    ensures var y := Mul(DOUBLE, x, Power(DOUBLE, 1023));
            n <= 2046 ==> Scaled(y, n - 1023) == Scaled(x, n)
    ensures var z := Mul(DOUBLE, Mul(DOUBLE, x, Power(DOUBLE, 1023)), Power(DOUBLE, 1023));
            n > 2046 ==> Scaled(z, if n > 3069 then 1023 else n - 2046) == Scaled(x, n)
  {
    hide Pow2, Mul, RoundAt, IsValue, Power;
    MulExact(x, 1023);
    var y := Mul(DOUBLE, x, Power(DOUBLE, 1023));
    MulExact(y, 1023);
    if x.Fin? {
      ScaleUp(x, 1023, n - 1023);
      ScaleUp(x, 1023, 1023);
      if n > 2046 {
        ScaleUp(x, 2046, if n > 3069 then 1023 else n - 2046);
        if n > 3069 {
          ScaleOver(x, n);
          ScaleOver(x, 3069);
        }
      }
    }
  }

  lemma ScalbnDown(x: Fp, n: int)
    requires IsValue(DOUBLE, x) && n < -1022
    ensures var y := Mul(DOUBLE, x, Power(DOUBLE, -969));
            n >= -1991 ==> Scaled(y, n + 969) == Scaled(x, n)
    ensures var z := Mul(DOUBLE, Mul(DOUBLE, x, Power(DOUBLE, -969)), Power(DOUBLE, -969));
            n < -1991 ==> Scaled(z, if n < -2960 then -1022 else n + 1938) == Scaled(x, n)
  {
    hide Pow2, Mul, RoundAt, Power, Fits;
    MulExact(x, -969);
    var y := Mul(DOUBLE, x, Power(DOUBLE, -969));
    MulExact(y, -969);
    if x.Fin? {
      hide Scaled, IsValue;
      ScaleDown(x, n);
      if n < -1991 {
        ScaleDown(y, n + 969);
        if n + 1938 < -1022 { ScaleFarDown(x, n); }
      }
    }
  }

  lemma ScaleFarDown(x: Fp, n: int)
    requires x.Fin? && IsValue(DOUBLE, x) && n < -2960
    ensures Scaled(Scaled(Scaled(x, -969), -969), -1022) == Scaled(x, n)
  {
    hide Pow2, Scaled, Fits;
    var y := Scaled(x, -969);
    SmallScaled(x, 969, 1128 + 1);
    Pow2Mono(1129, 1130);
    SmallScaled(y, 969, 161);
    ScaleTiny(Scaled(y, -969), -1022, 161);
    ScaleTiny(x, n, 2098);
  }
}
