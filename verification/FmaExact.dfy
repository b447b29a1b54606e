/** The aligned integers of fma against the exact sum, counted in units of 2^-UNIT. */
module FmaExact {
  import opened Bits
  import opened Rounding
  import opened FmaWords
  import opened FmaAlign

  /** Small enough a unit to make product, addend and every intermediate exponent integral. */
  const UNIT: nat := 2400

  function Units(m: nat, e: int): nat
    requires e + UNIT >= 0
  {
    m * Pow2(e + UNIT)
  }

  /** What Align leaves: r and z in units of 2^e, for the product r0 * 2^e0 and the addend mz * 2^ez. */
  ghost predicate Aligned(r0: nat, e0: int, mz: nat, ez: int, r: nat, z: nat, e: int) {
    var d := ez - e0;
    && (d <= 64 ==> e == e0 && r == r0)
    && (d > 64 ==> e == ez - 64)
    && (64 < d < 128 ==> r == Sticky(r0, d - 64))
    && (d >= 128 ==> r == 1)
    && (d >= 64 ==> z == mz * B64)
    && (0 <= d < 64 ==> z == mz * Pow2(d))
    && (d < 0 ==> z == Sticky(mz, e0 - ez) <= P53)
  }

  /** Normalised operands: a product of two even 54-bit significands and another such significand. */
  ghost predicate Operands(r0: nat, e0: int, mz: nat, ez: int) {
    && P42 * B64 <= r0 < P44 * B64 && r0 % 2 == 0 && -2254 <= e0
    && P53 <= mz < P54 && mz % 2 == 0 && -1127 <= ez
  }

  /** m even and exact, s rounded to odd: so are their sum and difference. */
  lemma Combine(m: nat, s: nat, big: nat, v: nat, j: nat)
    requires m % 2 == 0 && big == m * Pow2(j) && s == Sticky(v, j)
    ensures m + s == Sticky(big + v, j)
    ensures v < big ==> s < m && m - s == Sticky(big - v, j)
    ensures big < v ==> m < s && s - m == Sticky(v - big, j)
    ensures big == v ==> m == s
  {
    hide Sticky, Pow2;
    StickyAdd(m, v, j);
    if v <= big {
      StickySub(m, v, j);
      if v < big { StickyPositive(big - v, j); }
      if v == big { StickyExact(m, j); }
    } else {
      StickyAdd(m, v - big, j);
      StickyPositive(v - big, j);
    }
  }

  function Diff(a: nat, b: nat): nat { if a < b then b - a else a - b }

  /** The signed or unsigned sum computed and the exact one. */
  function Joined(same: bool, a: nat, b: nat): nat { if same then a + b else Diff(a, b) }

  ghost predicate Exactly(same: bool, r: nat, z: nat, p: nat, q: nat, j: nat) {
    && Joined(same, r, z) == Sticky(Joined(same, p, q), j)
    && (r < z <==> p < q)
  }

  lemma CombineBoth(same: bool, m: nat, s: nat, big: nat, v: nat, j: nat)
    requires m % 2 == 0 && big == m * Pow2(j) && s == Sticky(v, j)
    ensures Exactly(same, m, s, big, v, j) && Exactly(same, s, m, v, big, j)
  {
    hide Sticky, Pow2;
    Combine(m, s, big, v, j);
    if big == v { assert 0 * Pow2(j) == 0; StickyExact(0, j); }
  }

  /** Alignment by less than 128 bits is exact up to the sticky bit. */
  lemma NearAlignment(same: bool, r0: nat, e0: int, mz: nat, ez: int, r: nat, z: nat, e: int)
    requires Operands(r0, e0, mz, ez) && Aligned(r0, e0, mz, ez, r, z, e) && ez - e0 < 128
    ensures e + UNIT >= 0 && e >= e0
    ensures Exactly(same, r, z, Units(r0, e0), Units(mz, ez), e + UNIT)
    ensures 0 <= ez - e0 <= 64 ==> r * Pow2(e + UNIT) == Units(r0, e0) && z * Pow2(e + UNIT) == Units(mz, ez)
  {
    hide Sticky, Pow2;
    var d := ez - e0;
    var j := e + UNIT;
    if d < 0 {
      StickyScale(mz, ez + UNIT, -d);
      CombineBoth(same, r, z, Units(r0, e0), Units(mz, ez), j);
    } else {
      AddendExact(mz, ez, z, e, d);
      if d <= 64 {
        StickyExact(r0, j);
      } else {
        StickyScale(r0, e0 + UNIT, d - 64);
      }
      CombineBoth(same, z, r, Units(mz, ez), Units(r0, e0), j);
      assert Joined(same, r, z) == Joined(same, z, r);
    }
  }

  lemma AddendExact(mz: nat, ez: int, z: nat, e: int, d: int)
    requires e + UNIT >= 0 && mz % 2 == 0 && 0 <= d
    requires d < 64 ==> z == mz * Pow2(d) && ez == e + d
    requires d >= 64 ==> z == mz * B64 && ez == e + 64
    ensures z * Pow2(e + UNIT) == Units(mz, ez) && z % 2 == 0
  {
    hide Pow2;
    Pow2Of64();
    var c := if d < 64 then d else 64;
    Pow2Add(c, e + UNIT);
    MulAssoc(mz, Pow2(c), Pow2(e + UNIT));
    EvenProduct(mz, Pow2(c));
  }

  lemma EvenProduct(a: nat, b: nat)
    requires a % 2 == 0
    ensures a * b % 2 == 0
  {
    assert a * b == 2 * (a / 2 * b) by { MulAssoc(2, a / 2, b); }
  }

  /** A far smaller product only makes the result sticky, so its replacement by one bit is harmless
      at every precision the result is later cut to. */
  lemma FarAlignment(same: bool, r0: nat, e0: int, mz: nat, ez: int, r: nat, z: nat, e: int, k: nat)
    requires Operands(r0, e0, mz, ez) && Aligned(r0, e0, mz, ez, r, z, e) && ez - e0 >= 128
    requires 44 <= k <= 64
    ensures e + UNIT >= 0 && r < z && Units(r0, e0) < Units(mz, ez)
    ensures Sticky(Joined(same, r, z), k) == Sticky(Joined(same, Units(r0, e0), Units(mz, ez)), e + UNIT + k)
  {
    hide Sticky, Pow2;
    var j := e + UNIT;
    var m := mz * Pow2(64 - k);
    EvenProduct(mz, Pow2(64 - k));
    var (p, q) := (Units(r0, e0), Units(mz, ez));
    FarBound(r0, e0, e);
    Powers();
    Pow2Mono(44 + j, j + k);
    assert z == m * Pow2(k) by {
      Pow2Add(64 - k, k);
      MulAssoc(mz, Pow2(64 - k), Pow2(k));
    }
    assert q == m * Pow2(j + k) by {
      Pow2Add(64 - k, j + k);
      MulAssoc(mz, Pow2(64 - k), Pow2(j + k));
    }
    assert m >= 1 by { MulPositive(mz, Pow2(64 - k)); }
    MulMono(1, m, Pow2(j + k));
    Pow2Mono(1, k);
    Pow2One();
    StickyBelow(1, k);
    StickyBelow(p, j + k);
    CombineBoth(same, m, 1, z, 1, k);
    CombineBoth(same, m, 1, q, p, j + k);
    assert Joined(same, r, z) == Joined(same, z, r);
    assert Joined(same, p, q) == Joined(same, q, p);
  }

  lemma FarBound(r0: nat, e0: int, e: int)
    requires 0 < r0 < P44 * B64 && -2254 <= e0 && e0 + 64 <= e
    ensures 0 < Units(r0, e0) < Pow2(44 + (e + UNIT))
  {
    hide Pow2;
    Powers();
    Pow2Add(44, 64);
    Pow2Add(108, e0 + UNIT);
    MulStrict(r0, Pow2(108), Pow2(e0 + UNIT));
    Pow2Mono(108 + (e0 + UNIT), 44 + (e + UNIT));
    MulPositive(r0, Pow2(e0 + UNIT));
  }

  /** The sum computed on two words: its order of magnitude, and its exactness when it cancels. */
  lemma Cancellation(same: bool, r0: nat, e0: int, mz: nat, ez: int, r: nat, z: nat, e: int)
    requires Operands(r0, e0, mz, ez) && Aligned(r0, e0, mz, ez, r, z, e)
    ensures ez - e0 < 0 || 64 < ez - e0 || same ==> B64 <= Joined(same, r, z)
    ensures 128 <= ez - e0 ==> P52 * B64 <= Joined(same, r, z)
    ensures r < P44 * B64 && z < P54 * B64
  {
    hide Sticky, Pow2;
    var d := ez - e0;
    if 64 < d < 128 { StickyAtMost(r0, d - 64); }
    if 0 <= d < 64 {
      Pow2Of64();
      Pow2Mono(d, 64);
      MulMono(Pow2(d), B64, mz);
    }
  }

  lemma StickyAtMost(v: nat, k: nat)
    requires k > 0 && v < P44 * B64
    ensures Sticky(v, k) < P44 * B64
  {
    hide Sticky, Pow2;
    var (q, r) := Split(v, k);
    StickyOf(v, k, q, r);
    Pow2One();
    Pow2Mono(1, k);
    MulMono(2, Pow2(k), q);
  }

  /** The top 63 bits are the exact sum rounded to odd. */
  lemma TopIsExact(same: bool, r0: nat, e0: int, mz: nat, ez: int, r: nat, z: nat, e: int, top: nat, f: int)
    requires Operands(r0, e0, mz, ez) && Aligned(r0, e0, mz, ez, r, z, e)
    requires var t := Joined(same, r, z);
             && 0 < t
             && (P63 <= t ==> e < f <= e + 64 && top == Sticky(t, f - e))
             && (P52 * B64 <= t ==> e + 54 <= f)
             && (t < P63 ==> e - 62 <= f <= e && top == t * Pow2(e - f))
    ensures f + UNIT >= 0
    ensures top == Sticky(Joined(same, Units(r0, e0), Units(mz, ez)), f + UNIT)
  {
    hide Sticky, Pow2;
    var t := Joined(same, r, z);
    Cancellation(same, r0, e0, mz, ez, r, z, e);
    if ez - e0 >= 128 {
      FarAlignment(same, r0, e0, mz, ez, r, z, e, f - e);
    } else {
      NearAlignment(same, r0, e0, mz, ez, r, z, e);
      var v := Joined(same, Units(r0, e0), Units(mz, ez));
      if P63 <= t {
        StickyTwice(v, e + UNIT, f - e);
      } else {
        assert t * Pow2(e + UNIT) == v by { JoinScale(same, r, z, Pow2(e + UNIT)); }
        Pow2Add(e - f, f + UNIT);
        MulAssoc(t, Pow2(e - f), Pow2(f + UNIT));
        StickyExact(top, f + UNIT);
      }
    }
  }

  lemma JoinScale(same: bool, r: nat, z: nat, p: nat)
    ensures 0 <= r * p && 0 <= z * p
    ensures 0 < p ==> Joined(same, r, z) * p == Joined(same, r * p, z * p)
  {
    MulMono(0, r, p);
    MulMono(0, z, p);
    if 0 < p {
      Distribute(r, z, p);
      if r < z { MulStrict(r, z, p); } else { MulMono(z, r, p); }
    }
  }
}
