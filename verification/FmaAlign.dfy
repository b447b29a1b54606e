/** The integer core of fma: alignment of the product and the addend to a common exponent,
    and extraction of the top 63 bits, both rounded to odd. */
module FmaAlign {
  import opened Bits
  import opened Rounding
  import opened FmaWords

  const P42: nat := 0x400_0000_0000
  const P44: nat := 0x1000_0000_0000
  const P52: nat := 0x10_0000_0000_0000
  const P53: nat := 0x20_0000_0000_0000
  const P54: nat := 0x40_0000_0000_0000
  const P62: nat := 0x4000_0000_0000_0000

  lemma Powers()
    ensures Pow2(44) == P44 && Pow2(52) == P52 && Pow2(54) == P54 && Pow2(62) == P62 && Pow2(63) == P63
    ensures Pow2(64) == B64
  {
    hide Pow2;
    Pow2Of64();
    Pow2Step16(32);
    Pow2Step4(48);
    Pow2Step4(44);
    Pow2Step1(52);
    Pow2Step1(53);
    Pow2Step4(54);
    Pow2Step4(58);
    Pow2Step1(62);
  }

  /** z <<= kz and r >>= kr with kz + kr == d, lost bits kept in the lowest bit. */
  method Align(rhi0: nat, rlo0: nat, e0: int, mz: nat, ez: int)
      returns (rhi: nat, rlo: nat, zhi: nat, zlo: nat, e: int)
    requires P42 <= rhi0 < P44 && rlo0 < B64
    requires P53 <= mz < P54
    ensures rlo < B64 && zlo < B64 && rhi < P44 && zhi < P54
    ensures ez - e0 <= 64 ==> e == e0 && rhi == rhi0 && rlo == rlo0
    ensures ez - e0 > 64 ==> e == ez - 64
    ensures 64 < ez - e0 < 128 ==> Two(rhi, rlo) == Sticky(Two(rhi0, rlo0), ez - e0 - 64)
    ensures ez - e0 >= 128 ==> Two(rhi, rlo) == 1
    ensures ez - e0 >= 64 ==> zhi == mz && zlo == 0
    ensures 0 <= ez - e0 < 64 ==> Two(zhi, zlo) == mz * Pow2(ez - e0)
    ensures ez - e0 < 0 ==> zhi == 0 && zlo == Sticky(mz, e0 - ez) <= P53
  {
    hide Pow2, Or, Sticky, Shl64, Shr;
    rhi, rlo, e := rhi0, rlo0, e0;
    var d := ez - e;
    Powers();
    if d > 0 {
      if d < 64 {
        zlo := Shl64(mz, d);
        zhi := Shr(mz, 64 - d);
        ShiftLeft(mz, d);
      } else {
        zlo := 0;
        zhi := mz;
        e := ez - 64;
        d := d - 64;
        if d == 0 {
        } else if d < 64 {
          ShiftSticky(rhi, rlo, d);
          ShrSmaller(rhi, d);
          rlo := Or(Or(Shl64(rhi, 64 - d), Shr(rlo, d)), Bool(Shl64(rlo, 64 - d) != 0));
          rhi := Shr(rhi, d);
        } else {
          rlo := 1;
          rhi := 0;
        }
      }
    } else {
      zhi := 0;
      d := -d;
      AddendSticky(mz, d);
      if d == 0 {
        zlo := mz;
      } else if d < 64 {
        zlo := Or(Shr(mz, d), Bool(Shl64(mz, 64 - d) != 0));
      } else {
        zlo := 1;
      }
      assert d == 0 ==> mz * Pow2(0) == mz by { Pow2Zero(); }
    }
  }

  lemma ShrSmaller(v: nat, d: nat)
    ensures Shr(v, d) <= v
  {
    hide Pow2;
    var (q, r) := Split(v, d);
    DivModUnique(v, Pow2(d), q, r);
    MulMono(1, Pow2(d), q);
  }

  /** A word shifted left by d, spilling into a second word. */
  lemma ShiftLeft(m: nat, d: nat)
    requires m < P54 && 0 < d < 64
    ensures Shl64(m, d) < B64 && Shr(m, 64 - d) < P54
    ensures Two(Shr(m, 64 - d), Shl64(m, d)) == m * Pow2(d)
  {
    hide Pow2, Or, Sticky;
    Pow2Of64();
    Pow2Add(64 - d, d);
    var (q, t) := Split(m, 64 - d);
    DivModUnique(m, Pow2(64 - d), q, t);
    LowPart(m, q, t, Pow2(64 - d), Pow2(d));
    ShrSmaller(m, 64 - d);
    Regroup(q, t, 0, Pow2(d), Pow2(64 - d));
  }

  /** The addend shifted right by d, for every d including the shortcut for 64 and more. */
  lemma AddendSticky(m: nat, d: nat)
    requires P53 <= m < P54
    ensures 0 < d < 64 ==> Or(Shr(m, d), Bool(Shl64(m, 64 - d) != 0)) == Sticky(m, d)
    ensures d >= 64 ==> Sticky(m, d) == 1
    ensures d > 0 ==> Sticky(m, d) <= P53
  {
    hide Pow2, Or, Sticky, Shl64, Shr, MakeOdd;
    Powers();
    if 0 < d {
      var (q, r) := Split(m, d);
      StickyOf(m, d, q, r);
      HalfBound(m, q, d);
      if d < 64 {
        Pow2Add(d, 64 - d);
        ShrOf(m, d, q, r);
        LowPart(m, q, r, Pow2(d), Pow2(64 - d));
        Shl64Of(m, 64 - d);
        OrBit(q, r != 0);
      } else {
        Pow2Mono(64, d);
        StickyBelow(m, d);
      }
    }
  }

  lemma HalfBound(m: nat, q: nat, d: nat)
    requires P53 <= m < P54 && d > 0 && q * Pow2(d) <= m
    ensures q < P53 && MakeOdd(q) <= P53
  {
    hide Pow2;
    Pow2One();
    Pow2Mono(1, d);
    MulMono(2, Pow2(d), q);
  }

  /** Sets the result to the top 63 bits of the two-word number, the lowest bit sticky. */
  method TopBits(nonzero: bool, rhi: nat, rlo: nat, e0: int)
      returns (zero: bool, top: nat, e: int)
    requires rhi < P62 && rlo < B64 && (nonzero <==> rhi != 0)
    ensures zero <==> Two(rhi, rlo) == 0
    ensures !zero ==> P62 <= top < P63
    ensures !zero && P63 <= Two(rhi, rlo) ==> e0 < e <= e0 + 64 && top == Sticky(Two(rhi, rlo), e - e0)
    ensures !zero && P52 * B64 <= Two(rhi, rlo) ==> e0 + 54 <= e
    ensures !zero && Two(rhi, rlo) < P63 ==> e0 - 62 <= e <= e0 && top == Two(rhi, rlo) * Pow2(e0 - e)
  {
    hide Pow2, Or, Sticky, Shl64, Shr;
    zero, top, e := false, 0, e0;
    if nonzero {
      e := e + 64;
      var r := Clz64(rhi);
      var d := (r as int) - 1;
      HighTop(rhi, rlo, r);
      top := Or(Or(Shl64(rhi, d), Shr(rlo, 64 - d)), Bool(Shl64(rlo, d) != 0));
      e := e - d;
    } else if rlo != 0 {
      var r := Clz64(rlo);
      var d := (r as int) - 1;
      LowTop(rlo, r);
      if d < 0 {
        top := Or(rlo / 2, rlo % 2);
      } else {
        top := Shl64(rlo, d);
      }
      e := e - d;
    } else {
      zero := true;
    }
  }

  lemma HighTop(rhi: nat, rlo: nat, r: nat)
    requires 0 < rhi < P62 && rlo < B64 && r <= 63 && Pow2(63 - r) <= rhi < Pow2(64 - r)
    ensures 1 < r
    ensures var top := Or(Or(Shl64(rhi, r - 1), Shr(rlo, 65 - r)), Bool(Shl64(rlo, r - 1) != 0));
            P62 <= top < P63 && top == Sticky(Two(rhi, rlo), 65 - r)
    ensures P52 * B64 <= Two(rhi, rlo) ==> r <= 11
  {
    hide Pow2, Or, Sticky, Shl64, Shr;
    Powers();
    if r <= 1 { Pow2Mono(62, 63 - r); assert false; }
    if P52 * B64 <= Two(rhi, rlo) && 11 < r { Pow2Mono(64 - r, 52); assert false; }
    ShiftSticky(rhi, rlo, 65 - r);
    var (a, v) := (65 - r, Two(rhi, rlo));
    assert Shr(rhi, a) == 0 by {
      Pow2Mono(64 - r, a);
      ShrBelow(rhi, a);
    }
    TwoRange(rhi, rlo, r);
    StickyRange(v, a, 63);
  }

  lemma ShrBelow(v: nat, d: nat)
    requires v < Pow2(d)
    ensures Shr(v, d) == 0
  {
    hide Pow2;
    DivModUnique(v, Pow2(d), 0, v);
  }

  lemma TwoRange(rhi: nat, rlo: nat, r: nat)
    requires rlo < B64 && r <= 63 && Pow2(63 - r) <= rhi < Pow2(64 - r)
    ensures Pow2(127 - r) <= Two(rhi, rlo) < Pow2(128 - r)
  {
    hide Pow2;
    Pow2Of64();
    Pow2Add(63 - r, 64);
    Pow2Add(64 - r, 64);
  }

  lemma StickyRange(v: nat, k: nat, n: nat)
    requires n > 0 && Pow2(n + k - 1) <= v < Pow2(n + k)
    ensures Pow2(n - 1) <= Sticky(v, k) < Pow2(n)
  {
    hide *;
    var (q, r) := Split(v, k);
    StickyOf(v, k, q, r);
    QuotientRange(v, q, r, n, k);
    MakeOddRange(q, n);
  }

  lemma LowTop(rlo: nat, r: nat)
    requires 0 < rlo < B64 && r <= 63 && Pow2(63 - r) <= rlo < Pow2(64 - r)
    ensures r == 0 <==> P63 <= rlo
    ensures r == 0 ==> Or(rlo / 2, rlo % 2) == Sticky(rlo, 1) && P62 <= Sticky(rlo, 1) < P63
    ensures r > 0 ==> Shl64(rlo, r - 1) == rlo * Pow2(r - 1) && P62 <= rlo * Pow2(r - 1) < P63
  {
    hide Pow2, Or, Sticky;
    Powers();
    if r == 0 {
      Pow2One();
      OrBit(rlo / 2, rlo % 2 == 1);
      StickyOf(rlo, 1, rlo / 2, rlo % 2);
      StickyRange(rlo, 1, 63);
    } else {
      Pow2Mono(64 - r, 63);
      Pow2Add(63 - r, r - 1);
      Pow2Add(64 - r, r - 1);
      MulMono(Pow2(63 - r), rlo, Pow2(r - 1));
      MulStrict(rlo, Pow2(64 - r), Pow2(r - 1));
    }
  }
}
