/** The last stage of fma: from a 63-bit integer and an exponent to the nearest double, with one
    rounding also when the result is subnormal. */
module FmaConvert {
  import opened Bits
  import opened Rounding
  import opened Ieee
  import opened Scalbn
  import opened FmaAlign
  import FmaWords

  /** The double with integer value w or -w. */
  function IntFp(neg: bool, w: nat): Fp { Fin(neg, w * Pow2(LOW)) }

  /** An integer w = m * 2^j with at most 53 significant bits is a double. */
  lemma IntRound(neg: bool, w: nat, m: nat, j: nat)
    requires w == m * Pow2(j) && m <= P53 && j <= 64
    ensures Round(DOUBLE, neg, w * Pow2(LOW), 0) == IntFp(neg, w)
    ensures w * Pow2(LOW) < Pow2(2098)
    ensures IsValue(DOUBLE, IntFp(neg, w))
  {
    hide Pow2, Round, Fits;
    Powers();
    Pow2Step1(52);
    Pow2Add(j, LOW);
    MulAssoc(m, Pow2(j), Pow2(LOW));
    FitsScaled(DOUBLE, m, j + LOW);
    MulMono(m, Pow2(53), Pow2(j + LOW));
    Pow2Add(53, j + LOW);
    Pow2Mono(53 + (j + LOW), 2097);
    Pow2Mono(2097, 2098);
    RoundFits(DOUBLE, neg, w * Pow2(LOW));
  }

  lemma IntExact(neg: bool, w: nat, m: nat, j: nat)
    requires w == m * Pow2(j) && m <= P53 && j <= 64
    ensures RoundAt(DOUBLE, neg, w, 0) == IntFp(neg, w)
    ensures IsValue(DOUBLE, IntFp(neg, w))
  {
    hide Pow2, Round, Fits, IntFp, IsValue;
    IntRound(neg, w, m, j);
  }

  lemma Len63(w: nat)
    requires P62 <= w < P63
    ensures BitLen(w) == 63
  {
    hide Pow2, BitLen;
    Powers();
    BitLenUnique(w, 63);
  }

  lemma NearestTen(w: nat)
    requires P62 <= w < P63
    ensures P52 <= Nearest(w, 10) <= P53
  {
    assert Pow2(10) == 1024;
  }

  /** Conversion of a 63-bit integer keeps 53 bits. */
  lemma IntRounded(neg: bool, w: nat)
    requires P62 <= w < P63
    ensures RoundAt(DOUBLE, neg, w, 0) == IntFp(neg, Nearest(w, 10) * Pow2(10))
    ensures IsValue(DOUBLE, IntFp(neg, Nearest(w, 10) * Pow2(10)))
  {
    hide Pow2, Nearest, BitLen, Fits;
    RoundIsValue(DOUBLE, neg, w * Pow2(LOW), 0);
    var n := Nearest(w, 10);
    Len63(w);
    BitLenScale(w, LOW);
    NearestScale(w, LOW, 10);
    NearestTen(w);
    Powers();
    Pow2Step1(52);
    Pow2Add(10, LOW);
    MulAssoc(n, Pow2(10), Pow2(LOW));
    MulMono(n, Pow2(53), Pow2(10 + LOW));
    Pow2Add(53, 10 + LOW);
    Pow2Mono(63 + LOW, 2097);
    Pow2Mono(2097, 2098);
  }

  /** Scaling an integer-valued double. */
  lemma ScaledInt(neg: bool, w: nat, e: int)
    ensures Scaled(IntFp(neg, w), e) == RoundAt(DOUBLE, neg, w, e)
  {
    hide Pow2, Round;
    if e >= 0 {
      Pow2Add(LOW, e);
      MulAssoc(w, Pow2(LOW), Pow2(e));
    } else if e + LOW >= 0 {
      Pow2Add(e + LOW, -e);
      MulAssoc(w, Pow2(e + LOW), Pow2(-e));
      RoundScale(DOUBLE, neg, w * Pow2(e + LOW), 0, -e);
    } else {
      RoundScale(DOUBLE, neg, w, -(e + LOW), LOW);
    }
  }

  lemma TopUp(w: nat, j: nat)
    requires P62 <= w < P63
    ensures RoundMag(DOUBLE, w * Pow2(j), 0) == Nearest(w, 10) * Pow2(10 + j)
  {
    hide Pow2, Nearest, BitLen;
    Len63(w);
    BitLenScale(w, j);
    NearestScale(w, j, 10);
  }

  lemma TopDown(w: nat, s: nat)
    requires P62 <= w < P63 && s <= 10
    ensures RoundMag(DOUBLE, w, s) == Nearest(w, 10) * Pow2(10 - s)
  {
    hide Pow2, Nearest, BitLen;
    Len63(w);
  }

  /** In the normal range the conversion has already rounded to the final precision. */
  lemma NormalRange(neg: bool, w: nat, e: int)
    requires P62 <= w < P63 && e >= -1022 - 62
    ensures RoundAt(DOUBLE, neg, Nearest(w, 10) * Pow2(10), e) == RoundAt(DOUBLE, neg, w, e)
  {
    hide Pow2, Nearest, Fits, RoundMag;
    var n := Nearest(w, 10);
    NearestTen(w);
    Powers();
    Pow2Step1(52);
    var j := e + LOW;
    if j >= 0 {
      Pow2Add(10, j);
      MulAssoc(n, Pow2(10), Pow2(j));
      FitsScaled(DOUBLE, n, 10 + j);
      RoundFits(DOUBLE, neg, n * Pow2(10 + j));
      TopUp(w, j);
    } else {
      var s: nat := -j;
      Pow2Add(10 - s, s);
      MulAssoc(n, Pow2(10 - s), Pow2(s));
      RoundScale(DOUBLE, neg, n * Pow2(10 - s), 0, s);
      FitsScaled(DOUBLE, n, 10 - s);
      RoundFits(DOUBLE, neg, n * Pow2(10 - s));
      TopDown(w, s);
    }
  }

  /** Far below the normal range, 53 bits rounded to odd are enough for the rounding to come. */
  lemma DeepRange(neg: bool, w: nat, e: int)
    requires P62 <= w < P63 && e < -1022 - 63
    ensures RoundAt(DOUBLE, neg, Sticky(w, 10) * Pow2(10), e) == RoundAt(DOUBLE, neg, w, e)
  {
    hide Pow2, Sticky, Round, BitLen;
    var s: nat := -(e + LOW);
    Powers();
    Pow2Mono(10, 62);
    RoundScale(DOUBLE, neg, Sticky(w, 10), s - 10, 10);
    RoundSticky(DOUBLE, neg, w, s - 10, 10);
  }

  /** Just below the normal range the last bit kept is bit 11. */
  lemma MiddleRange(neg: bool, w: nat)
    requires P62 <= w < P63
    ensures Nearest(w, 11) <= P52
    ensures RoundAt(DOUBLE, neg, w, -1022 - 63) == Fin(neg, Nearest(w, 11))
    ensures RoundAt(DOUBLE, neg, Nearest(w, 11) * Pow2(11), -1022 - 63) == Fin(neg, Nearest(w, 11))
  {
    hide Pow2, BitLen, Nearest, Fits;
    var n := Nearest(w, 11);
    Len63(w);
    Powers();
    NearestEleven(w);
    Pow2Zero();
    Pow2Mono(52, 2097);
    Pow2Mono(2097, 2098);
    RoundScale(DOUBLE, neg, n, 0, 11);
    Pow2Step1(52);
    FitsScaled(DOUBLE, n, 0);
    RoundFits(DOUBLE, neg, n);
    assert Pow2(0) == 1 ==> n * Pow2(0) == n;
  }

  lemma NearestEleven(w: nat)
    requires P62 <= w < P63
    ensures P52 / 2 <= Nearest(w, 11) <= P52
    ensures Nearest(w, 10) == P53 ==> Nearest(w, 11) == P52
    ensures Nearest(P62 + Sticky(w, 1), 10) == P52 + Nearest(w, 11)
    ensures P62 <= P62 + Sticky(w, 1) < P63
  {
    hide Nearest, Sticky, Pow2;
    ElevenRange(w);
    NearestSticky(w, 1, 10);
    StickyHalf(w);
    TenShifted(Sticky(w, 1));
  }

  lemma ElevenRange(w: nat)
    requires P62 <= w < P63
    ensures P52 / 2 <= Nearest(w, 11) <= P52
    ensures Nearest(w, 10) == P53 ==> Nearest(w, 11) == P52
  {
    hide Nearest, Pow2;
    Pow2Ten();
    Pow2Of11();
    var (q, r) := (w / 2048, w % 2048);
    NearestOf(w, 11, q, r);
    NearestOf(w, 10, w / 1024, w % 1024);
  }

  lemma StickyHalf(w: nat)
    requires P62 <= w < P63
    ensures Sticky(w, 1) < P62
  {
    hide Sticky, Pow2;
    Pow2One();
    StickyOf(w, 1, w / 2, w % 2);
  }

  lemma TenShifted(x: nat)
    ensures Nearest(P62 + x, 10) == P52 + Nearest(x, 10)
  {
    hide Nearest, Pow2;
    Pow2Ten();
    NearestOf(x, 10, x / 1024, x % 1024);
    NearestOf(P62 + x, 10, P52 + x / 1024, x % 1024);
  }

  /** 0x0.ffffff8p-63: 25 one bits. */
  function AlmostOne(): Fp { Fin(false, 0x1ff_ffff * Pow2(986)) }

  lemma FiveAndTwenty(j: nat)
    requires j <= 2000
    ensures Round(DOUBLE, false, 0x1ff_ffff * Pow2(j), 0) == Fin(false, 0x1ff_ffff * Pow2(j))
    ensures Round(DOUBLE, true, 0x1ff_ffff * Pow2(j), 0) == Fin(true, 0x1ff_ffff * Pow2(j))
  {
    hide Pow2, Round, Fits;
    Powers();
    Pow2Step1(52);
    FitsScaled(DOUBLE, 0x1ff_ffff, j);
    MulMono(0x1ff_ffff, Pow2(53), Pow2(j));
    Pow2Add(53, j);
    Pow2Mono(53 + j, 2097);
    Pow2Mono(2097, 2098);
    RoundFits(DOUBLE, false, 0x1ff_ffff * Pow2(j));
    RoundFits(DOUBLE, true, 0x1ff_ffff * Pow2(j));
  }

  /** The product handed to the conversion to float. */
  lemma AlmostFltMin(neg: bool)
    ensures Mul(DOUBLE, Mul(DOUBLE, AlmostOne(), Power(DOUBLE, -126)), IntFp(neg, P63))
            == Fin(neg, 0x1ff_ffff * Pow2(923))
  {
    hide Pow2, Round, Mul;
    MulPower(DOUBLE, AlmostOne(), -126);
    Pow2Add(860, 126);
    MulAssoc(0x1ff_ffff, Pow2(860), Pow2(126));
    RoundScale(DOUBLE, false, 0x1ff_ffff * Pow2(860), 0, 126);
    FiveAndTwenty(860);
    var a := Fin(false, 0x1ff_ffff * Pow2(860));
    Powers();
    Pow2Add(63, LOW);
    MulSignedPower(DOUBLE, a, neg, 63);
    Pow2Add(860, 63);
    MulAssoc(0x1ff_ffff, Pow2(860), Pow2(63));
    FiveAndTwenty(923);
  }

  lemma ToFltMin(neg: bool)
    ensures Convert(DOUBLE, FLOAT, Fin(neg, 0x1ff_ffff * Pow2(923))) == Fin(neg, 0x80_0000)
  {
    hide Pow2, Round;
    RoundScale(FLOAT, neg, 0x1ff_ffff, 2, 923);
    QuarterRound(neg);
  }

  lemma QuarterRound(neg: bool)
    ensures Round(FLOAT, neg, 0x1ff_ffff, 2) == Fin(neg, 0x80_0000)
  {
    hide BitLen, Pow2;
    assert Pow2(24) == 0x100_0000 && Pow2(25) == 0x200_0000 && Pow2(2) == 4 && Pow2(0) == 1 by { FloatPowers(); }
    BitLenUnique(0x1ff_ffff, 25);
    Pow2Mono(24, 277);
  }

  lemma FloatPowers()
    ensures Pow2(24) == 0x100_0000 && Pow2(25) == 0x200_0000 && Pow2(2) == 4 && Pow2(0) == 1 && Pow2(23) == 0x80_0000
  {
    hide Pow2;
    Pow2Zero();
    Pow2Step16(0);
    Pow2Step4(16);
    Pow2Step1(20);
    Pow2Step1(21);
    Pow2Step1(22);
    Pow2Step1(23);
    Pow2Step1(24);
    Pow2One();
    Pow2Step1(1);
  }

  lemma FromFltMin(neg: bool)
    ensures Mul(DOUBLE, Power(DOUBLE, -896), Convert(FLOAT, DOUBLE, Fin(neg, 0x80_0000))) == Fin(neg, P52)
  {
    hide Pow2, Round, Mul, Fits;
    FloatPowers();
    Powers();
    Pow2Add(23, 925);
    Pow2Step1(52);
    Pow2Mono(0, 53);
    Pow2Zero();
    FitsScaled(DOUBLE, 1, 948);
    Pow2Mono(948, 2098);
    RoundFits(DOUBLE, neg, Pow2(948));
    var b := Fin(neg, Pow2(948));
    assert Convert(FLOAT, DOUBLE, Fin(neg, 0x80_0000)) == b;
    MulSignedPower(DOUBLE, Power(DOUBLE, -896), neg, -126);
    Pow2Add(52, 126);
    RoundScale(DOUBLE, neg, Pow2(52), 0, 126);
    FitsScaled(DOUBLE, 1, 52);
    Pow2Mono(52, 2098);
    RoundFits(DOUBLE, neg, Pow2(52));
  }

  lemma MulComm(a: Fp, b: Fp)
    ensures Mul(DOUBLE, a, b) == Mul(DOUBLE, b, a)
  {
    hide Round;
    if a.Fin? && b.Fin? { assert a.mag * b.mag == b.mag * a.mag; }
  }

  /** 2*r - c on integer-valued doubles: the extra top bit is removed exactly. */
  lemma RemoveTop(neg: bool, m: nat)
    requires 0 < m <= P52
    ensures Sub(DOUBLE, Mul(DOUBLE, Power(DOUBLE, 1), IntFp(neg, (P52 + m) * Pow2(10))), IntFp(neg, P63))
            == IntFp(neg, m * Pow2(11))
    ensures IsValue(DOUBLE, IntFp(neg, m * Pow2(11)))
  {
    hide Pow2, Round, Mul, Power;
    var r := IntFp(neg, (P52 + m) * Pow2(10));
    MulComm(Power(DOUBLE, 1), r);
    MulPower(DOUBLE, r, 1);
    Doubled(P52 + m);
    IntRound(neg, (P52 + m) * Pow2(11), P52 + m, 11);
    Powers();
    Pow2Add(52, 11);
    Distribute(P52, m, Pow2(11));
    Distribute(P63, m * Pow2(11), Pow2(LOW));
    IntRound(neg, m * Pow2(11), m, 11);
    MulPositive(m, Pow2(11));
    MulPositive(m * Pow2(11), Pow2(LOW));
  }

  lemma Doubled(m: nat)
    ensures m * Pow2(10) * Pow2(LOW) * Pow2(1) == m * Pow2(11) * Pow2(LOW)
  {
    hide Pow2;
    Pow2One();
    Pow2Step1(10);
    var (a, b) := (m * Pow2(10), Pow2(LOW));
    MulAssoc(m, 2, Pow2(10));
    MulAssoc(2, a, b);
  }

  /** The expression that raises the underflow exception adds a zero. */
  lemma UnderflowNoise(neg: bool, m: nat)
    requires 0 < m <= P52
    ensures var r := IntFp(neg, m * Pow2(11));
            var tiny := Mul(DOUBLE, Power(DOUBLE, -896), r);
            Add(DOUBLE, r, Mul(DOUBLE, Mul(DOUBLE, tiny, tiny), Sub(DOUBLE, r, r))) == r
  {
    hide Pow2, Round, Mul, Power;
    var w := m * Pow2(11);
    var r := IntFp(neg, w);
    IntRound(neg, m * Pow2(11), m, 11);
    ZeroRounds(DOUBLE, false, 0);
    assert Sub(DOUBLE, r, r) == Fin(false, 0);
    var tiny := Mul(DOUBLE, Power(DOUBLE, -896), r);
    TinySquare(neg, w);
    var t := Mul(DOUBLE, tiny, tiny);
    ZeroTimes(t);
    assert Signed(r) + 0 == Signed(r);
    MulPositive(m, Pow2(11));
    MulPositive(w, Pow2(LOW));
  }

  lemma ZeroTimes(t: Fp)
    requires t.Fin?
    ensures Mul(DOUBLE, t, Fin(false, 0)) == Fin(t.neg, 0)
  {
    hide Pow2, Round;
    assert t.mag * 0 == 0;
    ZeroRounds(DOUBLE, t.neg, 1074);
  }

  lemma TinySquare(neg: bool, w: nat)
    requires w * Pow2(LOW) < Pow2(2098)
    ensures var tiny := Mul(DOUBLE, Power(DOUBLE, -896), IntFp(neg, w));
            Mul(DOUBLE, tiny, tiny).Fin?
  {
    hide Pow2, RoundMag;
    var r := IntFp(neg, w);
    MulComm(Power(DOUBLE, -896), r);
    MulPower(DOUBLE, r, -896);
    RoundMagBound(DOUBLE, r.mag, 896, 1202);
    Pow2Mono(1202, 2098);
    var tiny := Mul(DOUBLE, Power(DOUBLE, -896), r);
    var t := tiny.mag;
    Pow2Add(1202, 1202);
    MulMono(t, Pow2(1202), t);
    MulMono(t, Pow2(1202), Pow2(1202));
    Pow2Mono(2404, 1074 + 1331);
    RoundMagBound(DOUBLE, t * t, 1074, 1331);
    Pow2Mono(1331, 2098);
  }

  lemma TopConstant(neg: bool)
    ensures (if neg then Negate(Power(DOUBLE, 63)) else Power(DOUBLE, 63)) == IntFp(neg, P63)
  {
    hide Pow2;
    Powers();
    Pow2Add(63, LOW);
  }

  lemma FullTop(neg: bool, n: nat)
    requires IntFp(neg, n * Pow2(10)) == IntFp(neg, P63)
    ensures n == P53 && n * Pow2(10) == P63
  {
    hide Pow2;
    var w := n * Pow2(10);
    if w < P63 { MulStrict(w, P63, Pow2(LOW)); }
    if P63 < w { MulStrict(P63, w, Pow2(LOW)); }
    Pow2Ten();
  }

  lemma Pow2Ten()
    ensures Pow2(10) == 1024
  {
  }

  lemma TopBitAdded(w: nat)
    requires P62 <= w < P63
    ensures Or(Pow2(62), Or(w / 2, w % 2)) == P62 + Sticky(w, 1)
  {
    hide Pow2, Or, Sticky;
    Powers();
    Pow2One();
    OrBit(w / 2, w % 2 == 1);
    StickyOf(w, 1, w / 2, w % 2);
    DivModUnique(Pow2(62), Pow2(62), 1, 0);
    StickyRange(w, 1, 62);
    OrDisjoint(Pow2(62), Sticky(w, 1), 62);
  }

  lemma LowBitsClear(w: nat)
    requires P62 <= w < P63 && Shl64(w, 53) == 0
    ensures Nearest(w, 10) * Pow2(10) == w
  {
    hide Pow2, Nearest;
    Powers();
    Pow2Add(11, 53);
    Pow2Of11();
    var (q, t) := Split(w, 11);
    FmaWords.LowPart(w, q, t, Pow2(11), Pow2(53));
    Pow2Ten();
    NearestExact(2 * q, 10);
  }

  lemma KeptBits(w: nat)
    requires P62 <= w < P63
    ensures Shl64(Or(Shr(w, 10), Bool(Shl64(w, 54) != 0)), 10) == Sticky(w, 10) * Pow2(10)
    ensures 0 < Sticky(w, 10) <= P53 && Sticky(w, 10) * Pow2(10) > 0
  {
    hide Pow2, Or, Sticky;
    Powers();
    Pow2Ten();
    Pow2Add(10, 54);
    var (q, t) := Split(w, 10);
    FmaWords.LowPart(w, q, t, Pow2(10), Pow2(54));
    ShrOf(w, 10, q, t);
    OrBit(q, t != 0);
    StickyOf(w, 10, q, t);
    Pow2Step1(52);
    StickyRange(w, 10, 53);
  }

  lemma SignedAbs(neg: bool, i: nat)
    requires i > 0
    ensures var v := if neg then -(i as int) else i;
            Abs(v) == i && (v < 0 <==> neg)
  {
  }

  /** Converts rhi * 2^e, rhi in [2^62, 2^63), to the nearest double. */
  method ToDouble(rhi: nat, sign: nat, e: int) returns (result: Fp)
    requires P62 <= rhi < P63
    ensures result == RoundAt(DOUBLE, sign != 0, rhi, e)
  {
    hide Pow2, Or, Sticky, Shl64, Shr, Nearest, RoundAt, Mul, Add, Sub, Power, Convert, IntFp, Scaled, IsValue;
    hide AlmostOne;
    ghost var neg := sign != 0;
    var i: int := if sign != 0 then -(rhi as int) else rhi;
    SignedAbs(neg, rhi);
    var r := FromInt(DOUBLE, i);
    IntRounded(neg, rhi);
    ghost var w := Nearest(rhi, 10) * Pow2(10);
    if e < -1022 - 62 {
      if e == -1022 - 63 {
        var c := Power(DOUBLE, 63);
        if sign != 0 { c := Negate(c); }
        TopConstant(neg);
        MiddleRange(neg, rhi);
        NearestEleven(rhi);
        if r == c {
          FullTop(neg, Nearest(rhi, 10));
          AlmostFltMin(neg);
          ToFltMin(neg);
          FromFltMin(neg);
          var fltmin := Convert(DOUBLE, FLOAT, Mul(DOUBLE, Mul(DOUBLE, AlmostOne(), Power(DOUBLE, -126)), r));
          return Mul(DOUBLE, Power(DOUBLE, -896), Convert(FLOAT, DOUBLE, fltmin));
        }
        if Shl64(rhi, 53) != 0 {
          var top := Or(Pow2(62), Or(rhi / 2, rhi % 2));
          TopBitAdded(rhi);
          i := if sign != 0 then -(top as int) else top;
          SignedAbs(neg, top);
          r := FromInt(DOUBLE, i);
          IntRounded(neg, top);
          w := Nearest(rhi, 11) * Pow2(11);
          RemoveTop(neg, Nearest(rhi, 11));
          r := Sub(DOUBLE, Mul(DOUBLE, Power(DOUBLE, 1), r), c);
          UnderflowNoise(neg, Nearest(rhi, 11));
          var tiny := Mul(DOUBLE, Power(DOUBLE, -896), r);
          r := Add(DOUBLE, r, Mul(DOUBLE, Mul(DOUBLE, tiny, tiny), Sub(DOUBLE, r, r)));
        } else {
          LowBitsClear(rhi);
          w := rhi;
        }
      } else {
        var kept := Shl64(Or(Shr(rhi, 10), Bool(Shl64(rhi, 54) != 0)), 10);
        KeptBits(rhi);
        i := if sign != 0 then -(kept as int) else kept;
        SignedAbs(neg, kept);
        r := FromInt(DOUBLE, i);
        w := Sticky(rhi, 10) * Pow2(10);
        IntExact(neg, w, Sticky(rhi, 10), 10);
        DeepRange(neg, rhi, e);
      }
    } else {
      NormalRange(neg, rhi, e);
    }
    assert r == IntFp(neg, w);
    ScaledInt(neg, w, e);
    result := Scalbn.Scalbn(r, e);
  }
}
