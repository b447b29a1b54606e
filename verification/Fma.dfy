/** fma of the C library's double-precision math: x*y + z with a single rounding, computed on
    128-bit integers. */
module Fma {
  import opened Bits
  import opened Rounding
  import opened Ieee
  import opened Scalbn
  import opened FmaWords
  import opened FmaAlign
  import opened FmaExact
  import opened FmaConvert

  /** Even significand of 54 bits, exponent and sign of a double: m * 2^e. */
  datatype Num = Num(m: nat, e: int, sign: nat)

  const ZEROINFNAN: int := 0x7ff - 0x3ff - 52 - 1

  function Normalize(ix0: nat): Num {
    var top := Shr(ix0, 52);
    var sign := if top / 0x800 % 2 == 1 then 0x800 else 0;
    var e0 := top % 0x800;
    var ix := if e0 != 0 then ix0 else Rescaled(ix0);
    var e := if e0 != 0 then e0 else
             (var e1 := Shr(ix, 52) % 0x800; if e1 != 0 then e1 - 63 else 0x800);
    Num(Shl64(Or(Pow2(52), ix % Pow2(52)), 1), e - (0x3ff + 52 + 1), sign)
  }

  /** The bit pattern of x * 0x1p63 for a subnormal or zero x. */
  function Rescaled(ix: nat): nat {
    var y := Mul(DOUBLE, Decode(DOUBLE_BITS, ix), Power(DOUBLE, 63));
    if y.Fin? then Encode(DOUBLE_BITS, y) else ix
  }

  lemma Fields(ix: nat)
    ensures Shr(ix, 52) % 0x800 == Exponent(DOUBLE_BITS, ix)
    ensures Shr(ix, 52) / 0x800 % 2 == 1 <==> Negative(DOUBLE_BITS, ix)
    ensures Finite(DOUBLE_BITS, ix) <==> Exponent(DOUBLE_BITS, ix) != 0x7ff
    ensures Fraction(DOUBLE_BITS, ix) < P52
  {
    hide Pow2;
    Powers();
    Pow2Of11();
    Pow2Add(52, 11);
    DivModTwice(ix, Pow2(52), Pow2(11));
  }

  /** Sets the implicit bit and doubles. */
  lemma Significand(ix: nat)
    ensures Shl64(Or(Pow2(52), ix % Pow2(52)), 1) == 2 * (P52 + ix % P52)
  {
    hide Pow2, Or;
    Powers();
    Pow2One();
    OrDisjoint(Pow2(52), ix % Pow2(52), 52);
  }

  /** A finite nonzero double is m * 2^e with a normalised even m; other inputs are told apart by e. */
  lemma NormalizeMeaning(ix: nat)
    ensures var n := Normalize(ix);
            (n.sign == 0 || n.sign == 0x800) && (n.sign == 0x800 <==> Negative(DOUBLE_BITS, ix))
    ensures var n := Normalize(ix); var mag := Magnitude(DOUBLE_BITS, ix);
            Finite(DOUBLE_BITS, ix) && mag > 0 ==>
              -1127 <= n.e < ZEROINFNAN && P53 <= n.m < P54 && n.m % 2 == 0
              && mag * Pow2(53) == n.m * Pow2(n.e + 1127)
    ensures Finite(DOUBLE_BITS, ix) && Magnitude(DOUBLE_BITS, ix) == 0 ==> Normalize(ix).e > ZEROINFNAN
    ensures !Finite(DOUBLE_BITS, ix) ==> Normalize(ix).e == ZEROINFNAN
  {
    hide Pow2, Or, Shl64, Shr, Exponent, Negative, Finite, Fraction, Rescaled;
    Fields(ix);
    var e0 := Exponent(DOUBLE_BITS, ix);
    if e0 != 0 {
      Significand(ix);
      FractionOf(ix);
      NormalUnits(ix % P52, e0);
    } else {
      RescaledMeaning(ix);
      var iy := Rescaled(ix);
      Significand(iy);
      Fields(iy);
      FractionOf(iy);
    }
  }

  lemma NormalUnits(f: nat, e: nat)
    requires f < P52 && 0 < e
    ensures Pow2(52) == P52 && (Pow2(52) + f) * Pow2(e - 1) > 0
    ensures (Pow2(52) + f) * Pow2(e - 1) * Pow2(53) == 2 * (P52 + f) * Pow2(e + 51)
  {
    hide Pow2;
    Powers();
    ScaleTwo(P52 + f, e - 1, 53, e + 51);
    MulPositive(P52 + f, Pow2(e - 1));
  }

  lemma FractionOf(ix: nat)
    ensures Fraction(DOUBLE_BITS, ix) == ix % P52
  {
    hide Pow2;
    Powers();
  }

  lemma ScaleTwo(w: nat, a: nat, b: nat, c: nat)
    requires a + b == c + 1
    ensures w * Pow2(a) * Pow2(b) == 2 * w * Pow2(c)
  {
    hide Pow2;
    Pow2Add(a, b);
    Pow2Step1(c);
    MulAssoc(w, Pow2(a), Pow2(b));
    MulAssoc(w, 2, Pow2(c));
  }

  /** Multiplying a subnormal by 2^63 normalises it exactly. */
  lemma RescaledMeaning(ix: nat)
    requires Exponent(DOUBLE_BITS, ix) == 0 && Finite(DOUBLE_BITS, ix)
    ensures var iy := Rescaled(ix); var f := Fraction(DOUBLE_BITS, ix);
            f == 0 ==> Exponent(DOUBLE_BITS, iy) == 0
    ensures var iy := Rescaled(ix); var f := Fraction(DOUBLE_BITS, ix); var e := Exponent(DOUBLE_BITS, iy);
            f > 0 ==> 12 <= e <= 63 && f * Pow2(53) == 2 * (P52 + Fraction(DOUBLE_BITS, iy)) * Pow2(e - 12)
  {
    hide Pow2, Round, RoundAt, Exponent, Negative, Finite, Fraction, Mul, Power, Encode, BitLen;
    var f := Fraction(DOUBLE_BITS, ix);
    var x := Decode(DOUBLE_BITS, ix);
    Fields(ix);
    MulPower(DOUBLE, x, 63);
    Times63(x.neg, f);
    var y := Fin(x.neg, f * Pow2(63));
    EncodeSubnormal(y, f);
  }

  lemma Times63(neg: bool, f: nat)
    requires f < P52
    ensures RoundAt(DOUBLE, neg, f, 63 - 1074) == Fin(neg, f * Pow2(63))
  {
    hide Pow2, Round, BitLen;
    Powers();
    assert Fits(DOUBLE, f) by {
      if f == 0 { BitLenZero(); } else {
        BitLenRange(f);
        if BitLen(f) > 53 { Pow2Mono(52, BitLen(f) - 1); assert false; }
      }
    }
    FitsUp(DOUBLE, f, 63);
    RoundFits(DOUBLE, neg, f * Pow2(63));
    Pow2Add(52, 63);
    MulMono(f, P52, Pow2(63));
    Pow2Mono(115, 2098);
  }

  lemma EncodeSubnormal(y: Fp, f: nat)
    requires y.Fin? && f < P52 && y.mag == f * Pow2(63)
    ensures var iy := Encode(DOUBLE_BITS, y);
            f == 0 ==> Exponent(DOUBLE_BITS, iy) == 0
    ensures var iy := Encode(DOUBLE_BITS, y); var e := Exponent(DOUBLE_BITS, iy);
            f > 0 ==> 12 <= e <= 63 && f * Pow2(53) == 2 * (P52 + Fraction(DOUBLE_BITS, iy)) * Pow2(e - 12)
  {
    hide Pow2, BitLen, Exponent, Fraction, Negative;
    Powers();
    Pow2Of11();
    if f == 0 {
      assert y.mag == 0;
      FieldsOf(DOUBLE_BITS, Bool(y.neg), 0, 0);
    } else {
      var n := BitLen(f);
      BitLenScale(f, 63);
      var q := Shifted(f, n);
      assert y.mag >= P52 by { Pow2Mono(52, 63); MulMono(1, f, Pow2(63)); }
      var e := n + 11;
      DivModUnique(y.mag, Pow2(e - 1), q, 0);
      DivModUnique(q, P52, 1, q - P52);
      FieldsOf(DOUBLE_BITS, Bool(y.neg), e, q - P52);
    }
  }

  /** A subnormal fraction of n bits, moved up to 53 bits. */
  lemma Shifted(f: nat, n: nat) returns (q: nat)
    requires 0 < f < P52 && n == BitLen(f)
    ensures 0 < n <= 52
    ensures f * Pow2(63) == q * Pow2(n + 10) && P52 <= q < 2 * P52
    ensures f * Pow2(53) == 2 * q * Pow2(n - 1)
  {
    hide Pow2, BitLen;
    Powers();
    BitLenRange(f);
    if n > 52 { Pow2Mono(52, n - 1); assert false; }
    q := f * Pow2(53 - n);
    Pow2Add(53 - n, n + 10);
    MulAssoc(f, Pow2(53 - n), Pow2(n + 10));
    Pow2Add(n - 1, 53 - n);
    Pow2Add(n, 53 - n);
    MulMono(Pow2(n - 1), f, Pow2(53 - n));
    MulStrict(f, Pow2(n), Pow2(53 - n));
    Pow2Step1(52);
    MulAssoc(f, Pow2(53 - n), Pow2(n));
    Pow2Step1(n - 1);
    MulAssoc(q, 2, Pow2(n - 1));
  }

  // ------------------------------------------------------------ the exact sum

  /** x*y + z in units of 2^-2148, the square of the least subnormal. */
  function ExactSum(x: Fp, y: Fp, z: Fp): int
    requires x.Fin? && y.Fin? && z.Fin?
  {
    Signed(x) * Signed(y) + Signed(z) * Pow2(LOW)
  }

  /** The correctly rounded result. */
  function Rounded(x: Fp, y: Fp, z: Fp): Fp
    requires x.Fin? && y.Fin? && z.Fin?
  {
    Round(DOUBLE, ExactSum(x, y, z) < 0, Abs(ExactSum(x, y, z)), LOW)
  }

  /** x*y + z with two roundings, as the processor evaluates it. */
  function Native(x: Fp, y: Fp, z: Fp): Fp { Add(DOUBLE, Mul(DOUBLE, x, y), z) }

  function Times(a: nat, b: nat): nat {
    MulMono(0, a, b);
    a * b
  }

  lemma SignedProduct(x: Fp, y: Fp)
    requires x.Fin? && y.Fin?
    ensures Signed(x) * Signed(y) == if Xor(x.neg, y.neg) then -(Times(x.mag, y.mag) as int) else Times(x.mag, y.mag)
  {
    var (a, b) := (x.mag as int, y.mag as int);
    assert (-a) * b == -(a * b) && a * (-b) == -(a * b) && (-a) * (-b) == a * b;
  }

  /** Magnitude and sign of the exact sum from the aligned comparison. */
  lemma ExactParts(x: Fp, y: Fp, z: Fp)
    requires x.Fin? && y.Fin? && z.Fin?
    ensures var sum := ExactSum(x, y, z); var (p, q) := (Times(x.mag, y.mag), Times(z.mag, Pow2(LOW)));
            var s := Xor(x.neg, y.neg);
            && Abs(sum) == Joined(s == z.neg, p, q)
            && (sum != 0 ==> (sum < 0 <==> if s != z.neg && p < q then !s else s))
  {
    hide Pow2;
    SignedProduct(x, y);
    MulMono(0, z.mag, Pow2(LOW));
    var b := z.mag as int;
    assert (-b) * Pow2(LOW) == -(b * Pow2(LOW));
  }

  /** Significands and exponents against magnitudes. */
  lemma UnitsOf(mx: nat, ex: int, x: nat, my: nat, ey: int, y: nat)
    requires -1127 <= ex && -1127 <= ey
    requires x * Pow2(53) == mx * Pow2(ex + 1127) && y * Pow2(53) == my * Pow2(ey + 1127)
    ensures Units(Times(mx, my), ex + ey) == Times(x, y) * Pow2(252)
  {
    hide Pow2;
    Pow2Add(53, 53);
    Pow2Add(106, 146);
    Pow2Add(ex + 1127, ey + 1127);
    Pow2Add(ex + ey + 2254, 146);
    Interchange(x, Pow2(53), y, Pow2(53));
    Interchange(mx, Pow2(ex + 1127), my, Pow2(ey + 1127));
    MulAssoc(x * y, Pow2(106), Pow2(146));
    MulAssoc(mx * my, Pow2(ex + ey + 2254), Pow2(146));
  }

  lemma Interchange(a: int, b: int, c: int, d: int)
    ensures (a * b) * (c * d) == (a * c) * (b * d)
  {
    MulAssoc(a, b, c * d);
    MulAssoc(b, c, d);
    MulAssoc(c, b, d);
    MulAssoc(a, c, b * d);
  }

  lemma UnitsOfAddend(mz: nat, ez: int, z: nat)
    requires -1127 <= ez && z * Pow2(53) == mz * Pow2(ez + 1127)
    ensures Units(mz, ez) == Times(z, Pow2(LOW)) * Pow2(252)
  {
    hide Pow2;
    Pow2Add(53, 1273);
    Pow2Add(LOW, 252);
    Pow2Add(ez + 1127, 1273);
    MulAssoc(z, Pow2(53), Pow2(1273));
    MulAssoc(z, Pow2(LOW), Pow2(252));
    MulAssoc(mz, Pow2(ez + 1127), Pow2(1273));
  }

  /** Rounding the 63-bit integer rounds the value it was cut from. */
  lemma FinalRound(neg: bool, v: nat, top: nat, f: int)
    requires f + UNIT >= 0 && top == Sticky(v, f + UNIT) && P62 <= top < P63
    ensures RoundAt(DOUBLE, neg, top, f) == Round(DOUBLE, neg, v, UNIT - LOW)
  {
    hide Pow2, Sticky, Round, BitLen;
    var j := f + UNIT;
    StickyLarge(v, j);
    Len63(top);
    if f + LOW >= 0 {
      RoundStickyUp(DOUBLE, neg, v, UNIT - LOW, j);
    } else {
      RoundSticky(DOUBLE, neg, v, -(f + LOW), j);
    }
  }

  lemma ProductRange(mx: nat, my: nat)
    requires P53 <= mx < P54 && P53 <= my < P54 && mx % 2 == 0
    ensures P42 * B64 <= Times(mx, my) < P44 * B64 && Times(mx, my) % 2 == 0
    ensures mx % B32 * (my / B32) + mx / B32 * (my % B32) < B64
  {
    MulMono(P53, mx, P53);
    MulMono(P53, my, mx);
    MulMono(mx, P54 - 1, my);
    MulMono(my, P54 - 1, P54 - 1);
    EvenProduct(mx, my);
    HalfProduct(mx % B32, my / B32);
    HalfProduct(my % B32, mx / B32);
  }

  lemma HalfProduct(a: nat, b: nat)
    requires a < B32 && b < 0x40_0000
    ensures a * b < P54
  {
    MulMono(a, B32 - 1, b);
    MulMono(b, 0x40_0000 - 1, B32 - 1);
  }

  lemma HighRange(hi: nat, lo: nat)
    requires lo < B64 && P42 * B64 <= Two(hi, lo) < P44 * B64
    ensures P42 <= hi < P44
  {
  }

  /** The addition step on two words, with the sign of the result. */
  method AddSigned(rhi0: nat, rlo0: nat, zhi: nat, zlo: nat, sign0: nat, zsign: nat)
      returns (rhi: nat, rlo: nat, sign: nat, nonzero: bool)
    requires rhi0 < P44 && rlo0 < B64 && zhi < P54 && zlo < B64
    ensures rhi < P62 && rlo < B64
    ensures Two(rhi, rlo) == Joined(sign0 == zsign, Two(rhi0, rlo0), Two(zhi, zlo))
    ensures sign != 0 <==> if sign0 != zsign && Two(rhi0, rlo0) < Two(zhi, zlo) then sign0 == 0 else sign0 != 0
    ensures nonzero <==> sign0 == zsign || rhi != 0
  {
    hide Two;
    sign := sign0;
    nonzero := true;
    if sign0 == zsign {
      rhi, rlo := AddWords(rhi0, rlo0, zhi, zlo);
    } else {
      var negated;
      rhi, rlo, negated := SubWords(rhi0, rlo0, zhi, zlo);
      if negated { sign := Bool(sign == 0); }
      nonzero := rhi != 0;
    }
    HighBound(rhi0, rlo0, zhi, zlo, rhi, rlo);
  }

  lemma HighBound(rhi0: nat, rlo0: nat, zhi: nat, zlo: nat, rhi: nat, rlo: nat)
    requires rhi0 < P44 && rlo0 < B64 && zhi < P54 && zlo < B64 && rlo < B64
    requires Two(rhi, rlo) <= Two(rhi0, rlo0) + Two(zhi, zlo)
    ensures rhi < P62
  {
  }

  lemma HighZero(hi: nat, lo: nat)
    requires lo < B64
    ensures hi == 0 <==> Two(hi, lo) < B64
  {
  }

  /** The integer part: for nonzero finite operands, either the exact sum is zero, or the result is
      that sum cut to 63 bits and rounded to odd. */
  method Sum(nx: Num, ny: Num, nz: Num) returns (zero: bool, top: nat, e: int, sign: nat)
    requires nx.sign in {0, 0x800} && ny.sign in {0, 0x800} && nz.sign in {0, 0x800}
    requires -1127 <= nx.e && P53 <= nx.m < P54 && nx.m % 2 == 0
    requires -1127 <= ny.e && P53 <= ny.m < P54
    requires -1127 <= nz.e && P53 <= nz.m < P54 && nz.m % 2 == 0
    ensures var p := Units(Times(nx.m, ny.m), nx.e + ny.e); var q := Units(nz.m, nz.e);
            var s := nx.sign != ny.sign; var same := s == (nz.sign != 0);
            && (zero <==> Joined(same, p, q) == 0)
            && (!zero ==>
                  && P62 <= top < P63 && e + UNIT >= 0
                  && top == Sticky(Joined(same, p, q), e + UNIT)
                  && (sign != 0 <==> if !same && p < q then !s else s))
  {
    hide Pow2, Sticky, Two, Units, Times, Joined;
    var rhi, rlo := MulWords(nx.m, ny.m);
    ProductRange(nx.m, ny.m);
    ghost var r0 := Two(rhi, rlo);
    assert r0 == Times(nx.m, ny.m) by { TimesIs(nx.m, ny.m); }
    HighRange(rhi, rlo);
    var e0 := nx.e + ny.e;
    var zhi, zlo;
    rhi, rlo, zhi, zlo, e := Align(rhi, rlo, e0, nz.m, nz.e);
    ghost var (r, z) := (Two(rhi, rlo), Two(zhi, zlo));
    assert Aligned(r0, e0, nz.m, nz.e, r, z, e) by { TwoZero(zhi, zlo); }
    sign := if nx.sign == ny.sign then 0 else 0x800;
    ghost var same := sign == nz.sign;
    var nonzero;
    rhi, rlo, sign, nonzero := AddSigned(rhi, rlo, zhi, zlo, sign, nz.sign);
    Cancellation(same, r0, e0, nz.m, nz.e, r, z, e);
    HighZero(rhi, rlo);
    ghost var e1 := e;
    zero, top, e := TopBits(nonzero, rhi, rlo, e);
    SameZero(same, r0, e0, nz.m, nz.e, r, z, e1);
    if !zero {
      TopIsExact(same, r0, e0, nz.m, nz.e, r, z, e1, top, e);
    }
  }

  lemma TimesIs(a: nat, b: nat)
    ensures Times(a, b) == a * b
  {
  }

  lemma TwoZero(hi: nat, lo: nat)
    ensures hi == 0 ==> Two(hi, lo) == lo
    ensures lo == 0 ==> Two(hi, lo) == hi * B64
  {
  }

  /** The computed sum vanishes exactly when the exact one does, and has the same sign. */
  lemma SameZero(same: bool, r0: nat, e0: int, mz: nat, ez: int, r: nat, z: nat, e: int)
    requires Operands(r0, e0, mz, ez) && Aligned(r0, e0, mz, ez, r, z, e)
    ensures Joined(same, r, z) == 0 <==> Joined(same, Units(r0, e0), Units(mz, ez)) == 0
    ensures r < z <==> Units(r0, e0) < Units(mz, ez)
  {
    hide Pow2, Sticky, Units;
    if ez - e0 >= 128 {
      FarAlignment(same, r0, e0, mz, ez, r, z, e, 54);
    } else {
      NearAlignment(same, r0, e0, mz, ez, r, z, e);
      var v := Joined(same, Units(r0, e0), Units(mz, ez));
      if v > 0 {
        StickyPositive(v, e + UNIT);
      } else {
        assert 0 * Pow2(e + UNIT) == 0;
        StickyExact(0, e + UNIT);
      }
    }
  }

  // ------------------------------------------------------------------- fma

  function Double(b: nat): Fp { Decode(DOUBLE_BITS, b) }

  /** A finite bit pattern is a double. */
  lemma DoubleIsValue(b: nat)
    ensures IsValue(DOUBLE, Double(b))
    ensures Double(b).Fin? <==> Finite(DOUBLE_BITS, b)
  {
    hide Pow2, Decode, IsValue, Finite;
    DoubleLayout(1, b);
    PatternIsValue(DOUBLE_BITS, DOUBLE, b);
  }

  /** Equal as numbers: the sign of zero is not compared. */
  predicate SameNumber(a: Fp, b: Fp) {
    a == b || (a.Fin? && b.Fin? && a.mag == 0 && b.mag == 0)
  }

  /** The one inexact result whose sign of zero is wrong: a negative product too small for a double,
      added to a positive zero by the processor instead of by fma. */
  predicate LosesSign(x: Fp, y: Fp, z: Fp)
    requires x.Fin? && y.Fin? && z.Fin?
  {
    && z == Fin(false, 0) && ExactSum(x, y, z) < 0
    && 2 * Abs(ExactSum(x, y, z)) <= Pow2(LOW)
  }

  /** What fma promises for operands x, y, z and result r. For finite operands r is the exact sum
      rounded once. A nonzero sum also has the right sign, except in the one case of LosesSign; a zero
      sum is negative exactly when product and addend are. */
  predicate Correct(x: Fp, y: Fp, z: Fp, r: Fp) {
    if !x.Fin? || !y.Fin? then r == Native(x, y, z)
    else if !z.Fin? then r == z
    else
      && SameNumber(r, Rounded(x, y, z))
      && (ExactSum(x, y, z) != 0 ==> (r == Rounded(x, y, z) <==> !LosesSign(x, y, z)))
      && (ExactSum(x, y, z) == 0 ==> r == Fin(Xor(x.neg, y.neg) && z.neg, 0))
  }

  /** fma returns the exact x*y + z rounded once, for all finite doubles. */
  method Fma(x: nat, y: nat, z: nat) returns (r: Fp)
    ensures Correct(Double(x), Double(y), Double(z), r)
  {
    hide Pow2, Double, Normalize, Correct, Native, Matches, ExactSum, RoundAt, Units, Times, Joined, Sticky;
    var nx, ny, nz := Normalize(x), Normalize(y), Normalize(z);
    var a, b, c := Double(x), Double(y), Double(z);
    Classified(x);
    Classified(y);
    Classified(z);
    if nx.e >= ZEROINFNAN || ny.e >= ZEROINFNAN {
      ZeroFactor(a, b, c);
      return Native(a, b, c);
    }
    if nz.e >= ZEROINFNAN {
      if nz.e > ZEROINFNAN {
        ZeroAddend(a, b, c);
        return Native(a, b, c);
      }
      InfiniteAddend(a, b, c);
      return c;
    }
    MatchBounds(nx, a);
    MatchBounds(ny, b);
    MatchBounds(nz, c);
    var zero, top, e, sign := Sum(nx, ny, nz);
    ExactUnits(nx, a, ny, b, nz, c);
    if zero {
      ExactZero(a, b, c);
      return Native(a, b, c);
    }
    r := ToDouble(top, sign, e);
    Delivered(nx, a, ny, b, nz, c, top, sign, e);
  }

  lemma MatchBounds(n: Num, a: Fp)
    requires a.Fin? && Matches(n, a)
    ensures n.sign in {0, 0x800} && -1127 <= n.e && P53 <= n.m < P54 && n.m % 2 == 0
  {
  }

  lemma InfiniteAddend(x: Fp, y: Fp, z: Fp)
    requires x.Fin? && y.Fin? && !z.Fin?
    ensures Correct(x, y, z, z)
  {
  }

  /** A normalised operand against the double it came from. */
  ghost predicate Matches(n: Num, a: Fp)
    requires a.Fin?
  {
    && n.sign in {0, 0x800} && (n.sign == 0x800 <==> a.neg)
    && -1127 <= n.e < ZEROINFNAN && P53 <= n.m < P54 && n.m % 2 == 0
    && a.mag * Pow2(53) == n.m * Pow2(n.e + 1127)
  }

  lemma Classified(b: nat)
    ensures Normalize(b).e < ZEROINFNAN <==> Double(b).Fin? && Double(b).mag > 0
    ensures Normalize(b).e > ZEROINFNAN <==> Double(b).Fin? && Double(b).mag == 0
    ensures Double(b).Fin? && Double(b).mag > 0 ==> Matches(Normalize(b), Double(b))
    ensures IsValue(DOUBLE, Double(b))
  {
    hide Pow2, Normalize, Finite, Magnitude, Negative, IsValue;
    NormalizeMeaning(b);
    DoubleIsValue(b);
  }

  lemma ExactUnits(nx: Num, x: Fp, ny: Num, y: Fp, nz: Num, z: Fp)
    requires x.Fin? && y.Fin? && z.Fin? && Matches(nx, x) && Matches(ny, y) && Matches(nz, z)
    ensures var p := Units(Times(nx.m, ny.m), nx.e + ny.e); var q := Units(nz.m, nz.e);
            var s := nx.sign != ny.sign; var same := s == (nz.sign != 0); var sum := ExactSum(x, y, z);
            && Joined(same, p, q) == Abs(sum) * Pow2(252)
            && (Joined(same, p, q) == 0 <==> sum == 0)
            && (sum != 0 ==> (sum < 0 <==> if !same && p < q then !s else s))
  {
    hide Pow2, Units, Times, ExactSum;
    UnitsOf(nx.m, nx.e, x.mag, ny.m, ny.e, y.mag);
    UnitsOfAddend(nz.m, nz.e, z.mag);
    ExactParts(x, y, z);
    var (p, q) := (Times(x.mag, y.mag), Times(z.mag, Pow2(LOW)));
    var same := Xor(x.neg, y.neg) == z.neg;
    JoinScale(same, p, q, Pow2(252));
    if p < q { MulStrict(p, q, Pow2(252)); } else { MulMono(q, p, Pow2(252)); }
    var v := Joined(same, p, q);
    if v > 0 { MulPositive(v, Pow2(252)); }
  }

  lemma Delivered(nx: Num, x: Fp, ny: Num, y: Fp, nz: Num, z: Fp, top: nat, sign: nat, e: int)
    requires x.Fin? && y.Fin? && z.Fin? && Matches(nx, x) && Matches(ny, y) && Matches(nz, z)
    requires z.mag > 0 && ExactSum(x, y, z) != 0
    requires var p := Units(Times(nx.m, ny.m), nx.e + ny.e); var q := Units(nz.m, nz.e);
             var s := nx.sign != ny.sign; var same := s == (nz.sign != 0);
             && P62 <= top < P63 && e + UNIT >= 0
             && top == Sticky(Joined(same, p, q), e + UNIT)
             && (sign != 0 <==> if !same && p < q then !s else s)
    ensures Correct(x, y, z, RoundAt(DOUBLE, sign != 0, top, e))
  {
    hide Pow2, Units, Times, ExactSum, Sticky, Joined, Round, RoundAt;
    ExactUnits(nx, x, ny, y, nz, z);
    var sum := ExactSum(x, y, z);
    FinalRound(sum < 0, Abs(sum) * Pow2(252), top, e);
    RoundScale(DOUBLE, sum < 0, Abs(sum), LOW, 252);
  }

  lemma ValueUnchanged(z: Fp)
    requires z.Fin? && IsValue(DOUBLE, z)
    ensures Round(DOUBLE, z.neg, z.mag, 0) == z
    ensures Round(DOUBLE, z.neg, Times(z.mag, Pow2(LOW)), LOW) == z
  {
    hide Pow2, Round, Fits;
    RoundFits(DOUBLE, z.neg, z.mag);
    RoundScale(DOUBLE, z.neg, z.mag, 0, LOW);
  }

  lemma ZeroTimesAny(x: Fp, y: Fp)
    requires x.Fin? && y.Fin? && (x.mag == 0 || y.mag == 0)
    ensures Mul(DOUBLE, x, y) == Fin(Xor(x.neg, y.neg), 0) && Signed(x) * Signed(y) == 0
  {
    hide Pow2, Round;
    assert x.mag * y.mag == 0;
    ZeroRounds(DOUBLE, Xor(x.neg, y.neg), LOW);
  }

  /** Exit for a zero factor. */
  lemma ZeroFactor(x: Fp, y: Fp, z: Fp)
    requires x.Fin? && y.Fin? ==> x.mag == 0 || y.mag == 0
    requires IsValue(DOUBLE, z)
    ensures Correct(x, y, z, Native(x, y, z))
  {
    hide Pow2, Round, Fits, Mul, IsValue, Abs;
    if x.Fin? && y.Fin? { ZeroTimesAny(x, y); }
    if x.Fin? && y.Fin? && z.Fin? {
      ValueUnchanged(z);
      if z.mag > 0 {
        ExactParts(x, y, z);
        MulPositive(z.mag, Pow2(LOW));
        assert Abs(Signed(z)) == z.mag by { SignedAbs(z.neg, z.mag); }
      } else {
        assert Signed(z) * Pow2(LOW) == 0;
        AbsZero();
        ZeroRounds(DOUBLE, false, LOW);
        ZeroRounds(DOUBLE, Xor(x.neg, y.neg) && z.neg, 0);
      }
    }
  }

  lemma AbsZero()
    ensures Abs(0) == 0
  {
  }

  /** Exit for an exact zero. */
  lemma ExactZero(x: Fp, y: Fp, z: Fp)
    requires x.Fin? && y.Fin? && z.Fin? && z.mag > 0 && IsValue(DOUBLE, z) && ExactSum(x, y, z) == 0
    ensures Correct(x, y, z, Native(x, y, z))
  {
    hide Pow2, Round, Fits, IsValue;
    ExactParts(x, y, z);
    MulPositive(z.mag, Pow2(LOW));
    var s := Xor(x.neg, y.neg);
    assert s != z.neg && x.mag * y.mag == Times(z.mag, Pow2(LOW));
    ValueUnchanged(z);
    RoundSign(z.mag, Times(z.mag, Pow2(LOW)));
    ZeroRounds(DOUBLE, false, LOW);
    ZeroRounds(DOUBLE, false, 0);
  }

  lemma RoundSign(m: nat, v: nat)
    ensures Round(DOUBLE, true, v, LOW) == Fin(true, m) <==> Round(DOUBLE, false, v, LOW) == Fin(false, m)
  {
    hide RoundMag, Pow2;
  }

  /** Exit for a zero addend: the product is rounded once, and only its sign of zero can go wrong. */
  lemma ZeroAddend(x: Fp, y: Fp, z: Fp)
    requires x.Fin? && y.Fin? && z.Fin? && x.mag > 0 && y.mag > 0 && z.mag == 0
    ensures Correct(x, y, z, Native(x, y, z))
  {
    hide Pow2, Round, Fits, IsValue;
    ExactParts(x, y, z);
    var s := Xor(x.neg, y.neg);
    var v := Times(x.mag, y.mag);
    MulPositive(x.mag, y.mag);
    assert z.mag * Pow2(LOW) == 0;
    var p := Round(DOUBLE, s, v, LOW);
    assert Rounded(x, y, z) == p;
    RoundIsValue(DOUBLE, s, v, LOW);
    VanishesIff(s, v);
    if p.Fin? {
      ValueUnchanged(p);
      ZeroRounds(DOUBLE, false, 0);
      ZeroRounds(DOUBLE, true, 0);
    }
  }

  lemma VanishesIff(neg: bool, v: nat)
    requires v > 0
    ensures var p := Round(DOUBLE, neg, v, LOW);
            p.neg == neg && (p == Fin(neg, 0) <==> 2 * v <= Pow2(LOW))
  {
    hide Pow2, Nearest, BitLen;
    var k := Dropped(DOUBLE, v, LOW);
    BitLenRange(v);
    if 2 * v <= Pow2(LOW) {
      if BitLen(v) > LOW { Pow2Mono(LOW, BitLen(v) - 1); assert false; }
      NearestOf(v, LOW, 0, v);
      assert 0 * Pow2(0) == 0;
    } else {
      var (q, r) := Split(v, k);
      NearestOf(v, k, q, r);
      if q == 0 && k > LOW {
        CellRange(v, q, r, 53, k);
        assert false;
      }
      MulPositive(1, Pow2(k - LOW));
      if Nearest(v, k) > 0 { MulPositive(Nearest(v, k), Pow2(k - LOW)); }
    }
  }

  /** LosesSign happens: the least subnormal times its negative, plus zero. */
  lemma SignLost()
    ensures var (x, y, z) := (Fin(false, 1), Fin(true, 1), Fin(false, 0));
            LosesSign(x, y, z) && Rounded(x, y, z) == Fin(true, 0) && Native(x, y, z) == Fin(false, 0)
  {
    hide Pow2, Round;
    Pow2Mono(1, LOW);
    Pow2One();
    assert 0 * Pow2(LOW) == 0;
    VanishesIff(true, 1);
    ZeroRounds(DOUBLE, false, 0);
  }
}
