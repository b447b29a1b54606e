/** The 64-bit word operations of fma: leading zeros, the 64 x 64 -> 128 bit product,
    shifts of a two-word number with a sticky bit, and two-word addition and subtraction. */
module FmaWords {
  import opened Bits
  import opened Rounding

  /** The number held by a high and a low word. */
  function Two(hi: nat, lo: nat): nat { hi * B64 + lo }

  lemma NarrowStep(x: nat, y: nat, s: nat, h: nat)
    requires y * Pow2(s) <= x < (y + 1) * Pow2(s)
    ensures Shr(y, h) * Pow2(s + h) <= x < (Shr(y, h) + 1) * Pow2(s + h)
    ensures Shr(y, h) == 0 <==> y < Pow2(h)
  {
    hide Pow2, Sticky, Or;
    var (q, r) := Split(y, h);
    assert Shr(y, h) == q by { DivModUnique(y, Pow2(h), q, r); }
    Pow2Add(h, s);
    var (a, b) := (Pow2(h), Pow2(s));
    MulMono(q * a, y, b);
    MulMono(y + 1, (q + 1) * a, b);
    MulAssoc(q, a, b);
    MulAssoc(q + 1, a, b);
    if q > 0 { MulMono(1, q, a); }
    assert q == 0 ==> q * a == 0;
  }

  /** Number of zero bits above the highest set bit; the bits collected in r are disjoint. */
  method Clz64(x: nat) returns (r: nat)
    requires x < B64
    ensures x > 0 ==> r <= 63 && Pow2(63 - r) <= x < Pow2(64 - r)
  {
    hide Pow2, Sticky, Or, Shr;
    Pow2Of64();
    SmallPowers();
    var y: nat;
    ghost var s := 0;
    NarrowStep(x, x, 0, 32);
    if Shr(x, 32) != 0 { y, r, s := Shr(x, 32), 0, 32; } else { y, r := x, 32; }
    assert x > 0 ==> Narrowed(x, y, s, 32, r) by {
      if s == 32 { ShiftedBound(x, 32, 32); }
    }
    y, r, s := ClzStep(x, y, s, 32, 16, r);
    y, r, s := ClzStep(x, y, s, 16, 8, r);
    y, r, s := ClzStep(x, y, s, 8, 4, r);
    y, r, s := ClzStep(x, y, s, 4, 2, r);
    if x > 0 { ClzDone(x, y, s, r); }
    r := r + (if Shr(y, 1) == 0 then 1 else 0);
  }

  lemma SmallPowers()
    ensures Pow2(0) == 1 && Pow2(1) == 2 && Pow2(2) == 4 && Pow2(4) == 16 && Pow2(8) == 256 && Pow2(16) == 0x1_0000
  {
  }

  ghost predicate Narrowed(x: nat, y: nat, s: nat, w: nat, r: nat) {
    s + r + w == 64 && 0 < y < Pow2(w) && y * Pow2(s) <= x < (y + 1) * Pow2(s)
  }

  lemma ShiftedBound(y: nat, h: nat, w: nat)
    requires y < Pow2(w + h)
    ensures Shr(y, h) < Pow2(w)
  {
    hide Pow2, Or, Sticky;
    var (q, r) := Split(y, h);
    DivModUnique(y, Pow2(h), q, r);
    Pow2Add(w, h);
    if Pow2(w) <= q { MulMono(Pow2(w), q, Pow2(h)); assert false; }
  }

  /** One halving step of a_clz_64, from width w to width h. */
  method ClzStep(ghost x: nat, y0: nat, ghost s0: nat, ghost w: nat, h: nat, r0: nat)
      returns (y: nat, r: nat, ghost s: nat)
    requires w == 2 * h
    requires x > 0 ==> Narrowed(x, y0, s0, w, r0)
    ensures x > 0 ==> Narrowed(x, y, s, h, r)
  {
    hide Pow2, Sticky, Or, Shr;
    y, r, s := y0, r0, s0;
    if x > 0 {
      NarrowStep(x, y, s, h);
      ShiftedBound(y, h, h);
    }
    if Shr(y, h) != 0 { y := Shr(y, h); s := s + h; } else { r := r + h; }
  }

  lemma ClzDone(x: nat, y: nat, s: nat, r: nat)
    requires x > 0 && Narrowed(x, y, s, 2, r)
    ensures Shr(y, 1) == 0 <==> y == 1
    ensures if y == 1 then Pow2(62 - r) <= x < Pow2(63 - r) else Pow2(63 - r) <= x < Pow2(64 - r)
  {
    SmallPowers();
    assert Pow2(s + 1) == 2 * Pow2(s) && Pow2(s + 2) == 4 * Pow2(s);
    assert y == 1 || y == 2 || y == 3;
  }

  const B32: nat := 0x1_0000_0000

  /** The double-word product. The middle sum is one word wide: the result is x * y exactly when
      that sum does not wrap, and 2^96 too small otherwise. */
  method MulWords(x: nat, y: nat) returns (hi: nat, lo: nat)
    requires x < B64 && y < B64
    ensures hi < B64 && lo < B64
    ensures Two(hi, lo) == x * y <==> x % B32 * (y / B32) + x / B32 * (y % B32) < B64
  {
    hide Pow2, Or, Sticky, Shl64, Shr, Mul64, Add64, Two, Bool;
    var xlo, xhi := x % B32, x / B32;
    var ylo, yhi := y % B32, y / B32;
    PartialProduct(xlo, ylo);
    PartialProduct(xlo, yhi);
    PartialProduct(xhi, ylo);
    PartialProduct(xhi, yhi);
    var t1 := Mul64(xlo, ylo);
    var t2 := Add64(Mul64(xlo, yhi), Mul64(xhi, ylo));
    var t3 := Mul64(xhi, yhi);
    lo := Add64(t1, Shl64(t2, 32));
    hi := Add64(Add64(t3, Shr(t2, 32)), Bool(t1 > lo));
    WrapAdd(Mul64(xlo, yhi), Mul64(xhi, ylo));
    WordCarry(t1, t2, t3, lo, hi);
    MiddleSum(x, y, t2);
  }

  lemma MiddleSum(x: nat, y: nat, t2: nat)
    requires t2 == Add64(x % B32 * (y / B32), x / B32 * (y % B32))
    ensures x / B32 * (y / B32) * B64 + t2 * B32 + x % B32 * (y % B32) == x * y
            <==> x % B32 * (y / B32) + x / B32 * (y % B32) < B64
  {
    CrossProduct(x / B32, x % B32, y / B32, y % B32);
    WrapAdd(x % B32 * (y / B32), x / B32 * (y % B32));
  }

  lemma WrapAdd(a: nat, b: nat)
    ensures Add64(a, b) == a + b <==> a + b < B64
    ensures Add64(a, b) < B64
  {
  }

  lemma PartialProduct(a: nat, b: nat)
    requires a < B32 && b < B32
    ensures 0 <= a * b <= (B32 - 1) * (B32 - 1)
    ensures Mul64(a, b) == a * b
  {
    MulMono(a, B32 - 1, b);
    MulMono(b, B32 - 1, B32 - 1);
    MulMono(0, a, b);
  }

  lemma CrossProduct(xhi: nat, xlo: nat, yhi: nat, ylo: nat)
    ensures (xhi * B32 + xlo) * (yhi * B32 + ylo)
            == xhi * yhi * B64 + (xlo * yhi + xhi * ylo) * B32 + xlo * ylo
  {
    var a, b := xhi * B32, yhi * B32;
    assert (a + xlo) * (b + ylo) == a * b + a * ylo + xlo * b + xlo * ylo by {
      Distribute(a, xlo, b + ylo);
      Distribute(b, ylo, a);
      Distribute(b, ylo, xlo);
    }
    assert a * b == xhi * yhi * B64;
    assert a * ylo == xhi * ylo * B32;
    assert xlo * b == xlo * yhi * B32;
  }

  lemma WordCarry(t1: nat, t2: nat, t3: nat, lo: nat, hi: nat)
    requires t1 < B64 && t2 < B64 && t3 <= (B32 - 1) * (B32 - 1)
    requires lo == Add64(t1, Shl64(t2, 32))
    requires hi == Add64(Add64(t3, Shr(t2, 32)), Bool(t1 > lo))
    ensures hi < B64 && lo < B64
    ensures Two(hi, lo) == t3 * B64 + t2 * B32 + t1
  {
    hide Add64, Bool, Shl64, Shr, Pow2;
    var (a, b) := (t2 / B32, t2 % B32);
    MiddleWord(t2);
    LowCarry(t1, b * B32);
    BoolBound(t1 > lo);
    HighCarry(t3, a, Bool(t1 > lo));
  }

  lemma MiddleWord(t2: nat)
    requires t2 < B64
    ensures Shl64(t2, 32) == t2 % B32 * B32 && Shr(t2, 32) == t2 / B32
  {
    hide Pow2;
    Pow2Of64();
    assert t2 * B32 == t2 / B32 * B64 + t2 % B32 * B32;
    DivModUnique(t2 * B32, B64, t2 / B32, t2 % B32 * B32);
  }

  lemma LowCarry(t1: nat, c: nat)
    requires t1 < B64 && c < B64
    ensures Add64(t1, c) < B64
    ensures t1 + c == Add64(t1, c) + if t1 > Add64(t1, c) then B64 else 0
  {
  }

  lemma HighCarry(t3: nat, a: nat, c: nat)
    requires t3 + a + c < B64
    ensures Add64(Add64(t3, a), c) == t3 + a + c
  {
  }

  /** A two-word number shifted right by d bits, the lost bits kept in the lowest bit. */
  lemma ShiftSticky(hi: nat, lo: nat, d: nat)
    requires hi < B64 && lo < B64 && 0 < d < 64
    ensures var lo' := Or(Or(Shl64(hi, 64 - d), Shr(lo, d)), Bool(Shl64(lo, 64 - d) != 0));
            lo' < B64 && Two(Shr(hi, d), lo') == Sticky(Two(hi, lo), d)
  {
    hide Pow2, Or, Sticky, MakeOdd, Shl64, Shr, Two;
    var (D, E) := (Pow2(d), Pow2(64 - d));
    Pow2Of64();
    Pow2Add(d, 64 - d);
    var (qh, th) := Split(hi, d);
    var (ql, tl) := Split(lo, d);
    ShrOf(hi, d, qh, th);
    ShrOf(lo, d, ql, tl);
    ShiftedBound(lo, d, 64 - d);
    Shl64Of(hi, 64 - d);
    Shl64Of(lo, 64 - d);
    LowPart(hi, qh, th, D, E);
    LowPart(lo, ql, tl, D, E);
    var low := th * E + ql;
    assert Or(th * E, ql) == low by {
      DivModUnique(th * E, E, th, 0);
      OrDisjoint(th * E, ql, 64 - d);
    }
    OrBit(low, tl != 0);
    DigitBound(th, ql, E, D);
    assert D * E == E * D;
    WordEven(low);
    TwoShifted(hi, lo, qh, th, ql, tl, D, E);
    StickyOf(Two(hi, lo), d, qh * B64 + low, tl);
    TwoIs(qh, low);
    TwoIs(qh, MakeOdd(low));
    MakeOddAdd(qh * B64, low);
  }

  lemma TwoIs(hi: nat, lo: nat)
    ensures Two(hi, lo) == hi * B64 + lo
  {
  }

  lemma TwoShifted(hi: nat, lo: nat, qh: nat, th: nat, ql: nat, tl: nat, D: nat, E: nat)
    requires D * E == B64 && hi == qh * D + th && lo == ql * D + tl
    ensures Two(hi, lo) == (qh * B64 + (th * E + ql)) * D + tl
  {
    Regroup(hi, ql, tl, D, E);
    Regroup(qh, th, 0, E, D);
    assert E * D == D * E;
  }

  lemma Shl64Of(v: nat, d: nat)
    ensures Shl64(v, d) == v * Pow2(d) % B64
  {
    hide Pow2;
  }

  lemma WordEven(low: nat)
    requires low < B64
    ensures MakeOdd(low) < B64
  {
  }

  /** Shifting left by 64-d keeps exactly the low d bits. */
  lemma LowPart(v: nat, q: nat, t: nat, d: nat, e: nat)
    requires t < d && v == q * d + t && 0 < e && d * e == B64
    ensures v * e % B64 == t * e && (t * e == 0 <==> t == 0)
  {
    MulMono(0, t, e);
    Regroup(q, t, 0, e, d);
    assert e * d == d * e;
    MulStrict(t, d, e);
    DivModUnique(v * e, B64, q, t * e);
    if t > 0 { MulPositive(t, e); }
  }

  /** r += z on two words. */
  method AddWords(rhi: nat, rlo: nat, zhi: nat, zlo: nat) returns (hi: nat, lo: nat)
    requires rlo < B64 && zlo < B64 && rhi + zhi + 1 < B64
    ensures lo < B64
    ensures Two(hi, lo) == Two(rhi, rlo) + Two(zhi, zlo)
  {
    lo := Add64(rlo, zlo);
    hi := Add64(rhi, Add64(zhi, Bool(lo < zlo)));
  }

  /** r -= z on two words, negated when the difference came out negative. */
  method SubWords(rhi: nat, rlo: nat, zhi: nat, zlo: nat) returns (hi: nat, lo: nat, negated: bool)
    requires rlo < B64 && zlo < B64 && rhi < B64 / 2 && zhi < B64 / 2
    ensures lo < B64 && hi < B64
    ensures negated <==> Two(rhi, rlo) < Two(zhi, zlo)
    ensures Two(hi, lo) == if negated then Two(zhi, zlo) - Two(rhi, rlo) else Two(rhi, rlo) - Two(zhi, zlo)
  {
    hide Sub64, Two, Bool;
    var t := rlo;
    lo := Sub64(rlo, zlo);
    WrapSub(rlo, zlo);
    hi := Sub64(Sub64(rhi, zhi), Bool(t < lo));
    WrapSub(rhi, zhi);
    BoolBound(t < lo);
    WrapSub(Sub64(rhi, zhi), Bool(t < lo));
    Difference(rhi, rlo, zhi, zlo, hi, lo);
    negated := false;
    if hi / 0x8000_0000_0000_0000 != 0 {
      WrapSub(0, lo);
      WrapSub(0, hi);
      lo := Sub64(0, lo);
      BoolBound(lo != 0);
      WrapSub(Sub64(0, hi), Bool(lo != 0));
      hi := Sub64(Sub64(0, hi), Bool(lo != 0));
      negated := true;
      Difference(zhi, zlo, rhi, rlo, hi, lo);
    }
  }

  lemma WrapSub(a: nat, b: nat)
    requires a < B64 && b < B64
    ensures Sub64(a, b) == if b <= a then a - b else a - b + B64
    ensures Sub64(a, b) < B64
  {
  }

  lemma BoolBound(b: bool)
    ensures Bool(b) == if b then 1 else 0
  {
  }

  /** A borrow-propagating difference whose high word is below 2^63 is the true difference. */
  lemma Difference(rhi: nat, rlo: nat, zhi: nat, zlo: nat, hi: nat, lo: nat)
    requires rlo < B64 && zlo < B64 && rhi < B64 / 2 && zhi < B64 / 2 && lo < B64 && hi < B64
    requires lo == if zlo <= rlo then rlo - zlo else rlo - zlo + B64
    requires var h := rhi - zhi - (if zlo <= rlo then 0 else 1);
             hi == if 0 <= h then h else h + B64
    ensures hi / 0x8000_0000_0000_0000 != 0 <==> Two(rhi, rlo) < Two(zhi, zlo)
    ensures hi / 0x8000_0000_0000_0000 == 0 ==> Two(hi, lo) == Two(rhi, rlo) - Two(zhi, zlo)
  {
    var h := rhi - zhi - (if zlo <= rlo then 0 else 1);
    assert Two(rhi, rlo) - Two(zhi, zlo) == h * B64 + lo;
  }
}
