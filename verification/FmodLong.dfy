/** fmodl as a whole, for long doubles of 64 and of 113 bits: the exits, the scaling of subnormal operands by 2^120,
    the integer loops and the scaling back. */
module FmodLong {
  import opened Bits
  import opened Ieee
  import opened Fmodl
  import Fmod
  import FmaWords

  const EXTENDED := Format(64, 16445, 16384)
  const QUAD := Format(113, 16494, 16384)

  predicate IsLong(f: Format) { f == EXTENDED || f == QUAD }

  /** The exponent field of a datum. */
  function Exp(f: Format, a: Fp): nat
    requires f.prec > 0
  {
    if !a.Fin? then 0x7fff
    else if a.mag < Pow2(f.prec - 1) then 0
    else Above(BitLen(a.mag) + 1, f.prec)
  }

  /** The significand of a datum above the subnormals. */
  function Significand(f: Format, mag: nat): nat
    requires f.prec > 0
  {
    Shr(mag, Above(BitLen(mag), f.prec))
  }

  ghost predicate IsSignificand(f: Format, m: nat)
    requires f.prec > 0
  {
    Pow2(f.prec - 1) <= m < Pow2(f.prec)
  }

  lemma FieldsMean(f: Format, neg: bool, mag: nat)
    requires f.prec > 0 && Fits(f, mag) && Pow2(f.prec - 1) <= mag
    ensures Exp(f, Fin(neg, mag)) >= 1 && IsSignificand(f, Significand(f, mag))
    ensures Significand(f, mag) * Pow2(Exp(f, Fin(neg, mag)) - 1) == mag
  {
    hide Pow2, BitLen;
    var e, q := Leading(Layout(f.prec - 1, 0), mag);
    Pow2Step1(f.prec - 1);
    ShrOf(mag, e - 1, q, 0);
  }

  /** Only the exponent field of infinities and NaNs is all ones. */
  lemma FieldRange(f: Format, a: Fp)
    requires IsLong(f) && IsValue(f, a)
    ensures Exp(f, a) == 0x7fff <==> !a.Fin?
  {
    hide Pow2, BitLen, Fits;
    if a.Fin? && Pow2(f.prec - 1) <= a.mag {
      BitLenRange(a.mag);
      if f.top + f.low < BitLen(a.mag) {
        Pow2Mono(f.top + f.low, BitLen(a.mag) - 1);
        assert false;
      }
    }
  }

  /** The formats: bias 0x3fff, one leading bit, and 2^16383 is the largest power of two. */
  lemma LongFields(f: Format, n: int)
    requires IsLong(f) && -16382 <= n
    ensures Exp(f, Power(f, n)) == 0x3fff + n && Significand(f, Pow2(n + f.low)) == Pow2(f.prec - 1)
    ensures IsValue(f, Power(f, n)) <==> n <= 16383
  {
    hide Pow2, BitLen, Fits, Shr;
    var k := n + f.low;
    PowerLength(k);
    Pow2Mono(f.prec - 1, k);
    LeadingBit(k, f.prec);
    PowerFits(f, k);
    PowerOrder(k, f.top + f.low);
  }

  lemma LeadingBit(k: nat, p: nat)
    requires 0 < p <= k + 1
    ensures Shr(Pow2(k), k + 1 - p) == Pow2(p - 1)
  {
    hide Pow2;
    Pow2Add(p - 1, k + 1 - p);
    ShrOf(Pow2(k), k + 1 - p, Pow2(p - 1), 0);
  }

  lemma PowerFits(f: Format, k: nat)
    requires f.prec > 0
    ensures Fits(f, Pow2(k))
  {
    hide Pow2, BitLen, Fits;
    Pow2One();
    Pow2Mono(1, f.prec);
    FitsScaled(f, 1, k);
    assert 1 * Pow2(k) == Pow2(k);
  }

  lemma PowerOrder(a: nat, b: nat)
    ensures Pow2(a) < Pow2(b) <==> a < b
  {
    hide Pow2;
    if a < b {
      Pow2Step1(a);
      Pow2Mono(a + 1, b);
    } else {
      Pow2Mono(b, a);
    }
  }

  lemma PowerLength(k: nat)
    ensures BitLen(Pow2(k)) == k + 1
  {
    hide Pow2, BitLen;
    Pow2Step1(k);
    BitLenUnique(Pow2(k), k + 1);
  }

  lemma Sizes()
    ensures Pow2(63) == P63 && Pow2(64) == B64 && Pow2(112) == P48 * B64 && Pow2(113) == 2 * P48 * B64
  {
    hide Pow2;
    Pow2Of64();
    Pow2Step1(63);
    Pow2Step16(32);
    Pow2Add(48, 64);
    Pow2Step1(112);
  }

  // ------------------------------------------------------------ the two ends

  /** The value m * 2^ex in units of 2^-120 of the least subnormal. */
  ghost predicate IsScaled(m: nat, ex: int, mag: nat) {
    ex >= -119 && m * Pow2(ex + 119) == mag * Pow2(120)
  }

  /** A positive operand becomes a full significand and an exponent; a subnormal one is scaled up first. */
  method Normalize(f: Format, mag: nat) returns (m: nat, ex: int)
    requires IsLong(f) && IsValue(f, Fin(false, mag)) && mag > 0
    ensures IsSignificand(f, m) && IsScaled(m, ex, mag)
  {
    hide Pow2, Fits, Exp, Significand, Mul, IsSignificand;
    ex := Exp(f, Fin(false, mag));
    var v := Fin(false, mag);
    if ex == 0 {
      ScaledUp(f, mag);
      v := Mul(f, v, Power(f, 120));
      ex := Exp(f, v) - 120;
      FieldsMean(f, false, v.mag);
    } else {
      ZeroField(f, mag);
      FieldsMean(f, false, mag);
      Lifted(Significand(f, mag), ex, mag);
    }
    m := Significand(f, v.mag);
  }

  lemma ZeroField(f: Format, mag: nat)
    requires f.prec > 0
    ensures Exp(f, Fin(false, mag)) == 0 <== mag < Pow2(f.prec - 1)
  {
  }

  lemma Lifted(m: nat, ex: nat, mag: nat)
    requires ex >= 1 && m * Pow2(ex - 1) == mag
    ensures m * Pow2(ex + 119) == mag * Pow2(120)
  {
    hide Pow2;
    Pow2Add(ex - 1, 120);
    MulAssoc(m, Pow2(ex - 1), Pow2(120));
  }

  /** The scaling is exact and leaves the subnormals. */
  lemma ScaledUp(f: Format, mag: nat)
    requires IsLong(f) && IsValue(f, Fin(false, mag)) && mag > 0 && Exp(f, Fin(false, mag)) == 0
    ensures Mul(f, Fin(false, mag), Power(f, 120)) == Fin(false, mag * Pow2(120))
    ensures Pow2(f.prec - 1) <= mag * Pow2(120) && Fits(f, mag * Pow2(120))
  {
    hide Pow2, Fits, BitLen, Mul, Round;
    assert mag < Pow2(f.prec - 1) by { FullField(f, mag); }
    MulPower(f, Fin(false, mag), 120);
    FitsUp(f, mag, 120);
    RoundFits(f, false, mag * Pow2(120));
    MulStrict(mag, Pow2(f.prec - 1), Pow2(120));
    Pow2Add(f.prec - 1, 120);
    Pow2Mono(f.prec + 119, f.top + f.low);
    MulMono(1, mag, Pow2(120));
    Pow2Mono(f.prec - 1, 120);
  }

  lemma FullField(f: Format, mag: nat)
    requires f.prec > 0 && Fits(f, mag) && Exp(f, Fin(false, mag)) == 0
    ensures mag < Pow2(f.prec - 1)
  {
    hide Fits, Exp;
    if Pow2(f.prec - 1) <= mag {
      FieldsMean(f, false, mag);
      assert false;
    }
  }

  /** The result from its fields; below the normal range it is put together 2^120 times too large and scaled back
      without rounding. */
  method Assemble(f: Format, neg: bool, m: nat, e: int, ghost mag: nat) returns (r: Fp)
    requires IsLong(f) && IsSignificand(f, m) && IsScaled(m, e, mag) && mag < Pow2(f.top + f.low)
    ensures r == Fin(neg, mag)
  {
    hide Pow2, Mul;
    if e <= 0 {
      ScaledBack(f, neg, m, e, mag);
      r := Mul(f, Fin(neg, m * Pow2(e + 120 - 1)), Power(f, -120));
    } else {
      Lowered(m, e, mag);
      r := Fin(neg, m * Pow2(e - 1));
    }
  }

  lemma Lowered(m: nat, e: nat, mag: nat)
    requires e >= 1 && m * Pow2(e + 119) == mag * Pow2(120)
    ensures m * Pow2(e - 1) == mag
  {
    hide Pow2;
    Lifted(m, e, m * Pow2(e - 1));
    var v := m * Pow2(e - 1);
    if v < mag { MulStrict(v, mag, Pow2(120)); }
    if mag < v { MulStrict(mag, v, Pow2(120)); }
  }

  lemma ScaledBack(f: Format, neg: bool, m: nat, e: int, mag: nat)
    requires -119 <= e <= 0 && IsLong(f)
    requires IsSignificand(f, m) && IsScaled(m, e, mag) && mag < Pow2(f.top + f.low)
    ensures Mul(f, Fin(neg, m * Pow2(e + 119)), Power(f, -120)) == Fin(neg, mag)
  {
    hide Pow2, Fits, BitLen, Mul, Round;
    MulPower(f, Fin(neg, mag * Pow2(120)), -120);
    RoundScale(f, neg, mag, 0, 120);
    ShortFits(f, m, e, mag);
    RoundFits(f, neg, mag);
  }

  lemma ShortFits(f: Format, m: nat, e: int, mag: nat)
    requires IsLong(f) && IsSignificand(f, m) && IsScaled(m, e, mag) && e <= 0
    ensures Fits(f, mag)
  {
    hide Pow2, BitLen;
    if Pow2(f.prec) <= mag {
      MulMono(Pow2(f.prec), mag, Pow2(120));
      Pow2Mono(e + 119, 120);
      MulMono(m, Pow2(f.prec), Pow2(e + 119));
      MulMono(Pow2(e + 119), Pow2(120), Pow2(f.prec));
      MulStrict(m, Pow2(f.prec), Pow2(e + 119));
      assert false;
    }
    if mag > 0 {
      BitLenRange(mag);
      if f.prec < BitLen(mag) {
        Pow2Mono(f.prec, BitLen(mag) - 1);
        assert false;
      }
    } else {
      BitLenZero();
    }
  }

  // ---------------------------------------------------------------- the loops

  /** One of the two loops, as the width demands. */
  method Divide(f: Format, mx: nat, ex: int, my: nat, ey: int) returns (zero: bool, m: nat, e: int)
    requires IsLong(f) && IsSignificand(f, mx) && IsSignificand(f, my) && ey <= ex
    ensures zero <==> Fmod.Residue(mx, ex - ey, my) == 0
    ensures !zero ==> IsSignificand(f, m) && Renormalized(Fmod.Residue(mx, ex - ey, my), ey, m, e)
  {
    hide Pow2, Fmod.Residue, Renormalized, FmaWords.Two;
    Sizes();
    if f == EXTENDED {
      zero, m, e := Divide64(mx, ex, my, ey);
    } else {
      Words(mx);
      Words(my);
      var hi, lo;
      zero, hi, lo, e := Divide113(mx / B64, mx % B64, ex, my / B64, my % B64, ey);
      m := FmaWords.Two(hi, lo);
      if !zero { PairIsSignificand(hi, lo); }
    }
  }

  lemma Words(m: nat)
    requires P48 * B64 <= m < 2 * P48 * B64
    ensures P48 <= m / B64 < 2 * P48 && m % B64 < B64 && FmaWords.Two(m / B64, m % B64) == m
  {
  }

  lemma PairIsSignificand(hi: nat, lo: nat)
    requires P48 <= hi < 2 * P48 && lo < B64
    ensures P48 * B64 <= FmaWords.Two(hi, lo) < 2 * P48 * B64
  {
  }

  /** The larger operand has the larger exponent. */
  lemma ExponentOrder(f: Format, mx: nat, ex: int, x: nat, my: nat, ey: int, y: nat)
    requires IsLong(f) && IsSignificand(f, mx) && IsSignificand(f, my) && IsScaled(mx, ex, x) && IsScaled(my, ey, y)
    requires y <= x
    ensures ey <= ex
  {
    hide Pow2;
    if ex < ey {
      MulMono(y, x, Pow2(120));
      MulStrict(mx, Pow2(f.prec), Pow2(ex + 119));
      Pow2Add(f.prec, ex + 119);
      MulMono(Pow2(f.prec - 1), my, Pow2(ey + 119));
      Pow2Add(f.prec - 1, ey + 119);
      Pow2Mono(f.prec + (ex + 119), f.prec - 1 + (ey + 119));
      assert false;
    }
  }

  /** The residue is the remainder of the magnitudes. */
  lemma ResidueIs(mx: nat, ex: int, x: nat, my: nat, ey: int, y: nat)
    requires IsScaled(mx, ex, x) && IsScaled(my, ey, y) && ey <= ex && 0 < my && 0 < y
    ensures Fmod.Residue(mx, ex - ey, my) * Pow2(ey + 119) == x % y * Pow2(120)
  {
    hide Pow2, Fmod.Residue;
    var r := Fmod.Residue(mx, ex - ey, my);
    RenormalizeStart(r, ey);
    ExactRemainder(mx, ex, my, ey, r, ey, -119);
    DivModScale(x, y, Pow2(120));
  }

  lemma NoResidue(r: nat, p: nat, rem: nat, q: nat)
    requires r * p == rem * q && p > 0 && q > 0
    ensures r == 0 <==> rem == 0
  {
    if r > 0 { MulPositive(r, p); }
    if rem > 0 { MulPositive(rem, q); }
  }

  /** The renormalised residue is the remainder, and its exponent is in reach of the scaling. */
  lemma RenormalizedIs(f: Format, r: nat, ey: int, m: nat, e: int, rem: nat)
    requires IsLong(f) && IsSignificand(f, m) && Renormalized(r, ey, m, e) && IsScaled(r, ey, rem) && rem > 0
    ensures IsScaled(m, e, rem)
  {
    hide Pow2;
    if e < -119 {
      var d := -119 - e;
      Pow2Add(ey + 119, d);
      MulAssoc(r, Pow2(ey + 119), Pow2(d));
      MulMono(1, rem, Pow2(120));
      Pow2Mono(0, d);
      Pow2Zero();
      MulMono(1, Pow2(d), rem * Pow2(120));
      Pow2Mono(f.prec, 120);
      assert false;
    }
    Pow2Add(ey - e, e + 119);
    MulAssoc(r, Pow2(ey - e), Pow2(e + 119));
  }

  // -------------------------------------------------------------------- fmodl

  /** A quotient p/p. */
  function SelfQuotient(f: Format, p: Fp): Fp { if p.Fin? && p.mag > 0 then FromInt(f, 1) else NaN }

  /** What fmodl promises: the exact remainder of the magnitudes with the sign of x. */
  predicate IsRemainder(x: Fp, y: Fp, r: Fp) {
    if !x.Fin? || y.NaN? || (y.Fin? && y.mag == 0) then r == NaN
    else if y.Inf? then r == x
    else r == Fin(x.neg, x.mag % y.mag)
  }

  lemma InvalidOperands(f: Format, x: Fp, y: Fp)
    requires !x.Fin? || y.NaN? || (y.Fin? && y.mag == 0)
    ensures SelfQuotient(f, Mul(f, x, y)) == NaN
  {
    hide Round;
    if x.Fin? && y.Fin? {
      assert x.mag * y.mag == 0;
      ZeroRounds(f, Xor(x.neg, y.neg), f.low);
    }
  }

  lemma ZeroTimes(f: Format, x: Fp)
    requires x.Fin?
    ensures Mul(f, Fin(false, 0), x) == Fin(x.neg, 0)
  {
    hide Round;
    assert 0 * x.mag == 0;
    ZeroRounds(f, x.neg, f.low);
  }

  /** fmodl is exact for all finite x and nonzero y, subnormal ones included. */
  method Remainder(f: Format, x: Fp, y: Fp) returns (r: Fp)
    requires f == EXTENDED || f == QUAD
    requires IsValue(f, x) && IsValue(f, y)
    ensures IsRemainder(x, y, r)
  {
    hide Pow2, Mul, Fits, Exp, SelfQuotient, Fmod.Residue, Renormalized, IsSignificand, IsScaled, IsValue;
    FieldRange(f, x);
    if (y.Fin? && y.mag == 0) || y.NaN? || Exp(f, x) == 0x7fff {
      InvalidOperands(f, x, y);
      return SelfQuotient(f, Mul(f, x, y));
    }
    ZeroTimes(f, x);
    if y.Inf? || x.mag <= y.mag {
      if y.Fin? { Fmod.SelfRemainder(x.mag, y.mag); }
      if y.Fin? && x.mag == y.mag { return Mul(f, Fin(false, 0), x); }
      return x;
    }
    r := Loop(f, x, y);
  }

  /** The part of fmodl behind its exits. */
  method Loop(f: Format, x: Fp, y: Fp) returns (r: Fp)
    requires IsLong(f) && IsValue(f, x) && IsValue(f, y) && x.Fin? && y.Fin? && 0 < y.mag < x.mag
    ensures r == Fin(x.neg, x.mag % y.mag)
  {
    hide Pow2, Mul, Fits, Fmod.Residue, Renormalized, IsSignificand;
    var mx, ex := Normalize(f, x.mag);
    var my, ey := Normalize(f, y.mag);
    ExponentOrder(f, mx, ex, x.mag, my, ey, y.mag);
    SignificandPositive(f, my);
    ResidueIs(mx, ex, x.mag, my, ey, y.mag);
    ghost var (res, rem) := (Fmod.Residue(mx, ex - ey, my), x.mag % y.mag);
    NoResidue(res, Pow2(ey + 119), rem, Pow2(120));
    var zero, m, e := Divide(f, mx, ex, my, ey);
    ZeroTimes(f, x);
    if zero { return Mul(f, Fin(false, 0), x); }
    RenormalizedIs(f, res, ey, m, e, rem);
    r := Assemble(f, x.neg, m, e, rem);
  }

  lemma SignificandPositive(f: Format, m: nat)
    requires f.prec > 0 && IsSignificand(f, m)
    ensures m > 0
  {
  }
}
