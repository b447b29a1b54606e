/** The two integer loops of fmodl, on normalised significands: the 64-bit one, which notices an
    overflowing doubling by wrap-around, and the 113-bit one, which works on pairs of words. */
module Fmodl {
  import opened Bits
  import opened Fmod
  import opened FmaWords

  const P48: nat := 0x1_0000_0000_0000

  /** A remainder r in the divisor's scale 2^ey, renormalised to m * 2^e. */
  ghost predicate Renormalized(r: nat, ey: int, m: nat, e: int) {
    e <= ey && m == r * Pow2(ey - e)
  }

  lemma RenormalizeStep(r: nat, ey: int, m: nat, e: int)
    requires Renormalized(r, ey, m, e)
    ensures Renormalized(r, ey, 2 * m, e - 1)
  {
    hide Pow2;
    Pow2Step1(ey - e);
    MulAssoc(r, 2, Pow2(ey - e));
  }

  lemma RenormalizeStart(r: nat, ey: int)
    ensures Renormalized(r, ey, r, ey)
  {
    Pow2Zero();
  }

  /** The next partial remainder is congruent to the doubled one. */
  lemma NextResidue(u: nat, k: nat, y: nat, v: nat)
    requires k > 0 && 0 < y && (v == 2 * u || (y <= u && v == 2 * (u - y)) || (y <= 2 * u && v == 2 * u - y))
    ensures Residue(v, k - 1, y) == Residue(u, k, y)
  {
    hide Residue;
    ResidueDouble(u, k, y);
    if v == 2 * u {
    } else if y <= 2 * u && v == 2 * u - y {
      ResidueLess(2 * u, k - 1, y);
    } else {
      ResidueLess(u, k, y);
      ResidueDouble(u - y, k, y);
    }
  }

  // --------------------------------------------------------------- 64 bits

  lemma WrapDouble(a: nat)
    requires a < B64
    ensures Mul64(2, a) == if a < P63 then 2 * a else 2 * a - B64
  {
  }

  /** Significands with an explicit top bit; zero reports an exact division. */
  method Divide64(mx0: nat, ex0: int, my: nat, ey: int) returns (zero: bool, mx: nat, ex: int)
    requires P63 <= mx0 < B64 && P63 <= my < B64 && ey <= ex0
    ensures zero <==> Residue(mx0, ex0 - ey, my) == 0
    ensures !zero ==> P63 <= mx < B64 && Renormalized(Residue(mx0, ex0 - ey, my), ey, mx, ex)
  {
    hide Pow2, Residue, Renormalized, Sub64, Mul64;
    mx, ex := mx0, ex0;
    var i;
    while ex > ey
      invariant ey <= ex && 0 < mx < B64
      invariant Residue(mx, ex - ey, my) == Residue(mx0, ex0 - ey, my)
      decreases ex - ey
    {
      i := Sub64(mx, my);
      WrapSub(mx, my);
      WrapDouble(mx);
      ghost var (u, k) := (mx, ex - ey);
      if mx >= my {
        if i == 0 {
          ResidueZero(ex - ey, my);
          return true, 0, 0;
        }
        WrapDouble(i);
        mx := Mul64(2, i);
      } else if Mul64(2, mx) < mx {
        WrapSub(Mul64(2, mx), my);
        mx := Sub64(Mul64(2, mx), my);
      } else {
        mx := Mul64(2, mx);
      }
      ex := ex - 1;
      NextResidue(u, k, my, mx);
    }
    i := Sub64(mx, my);
    WrapSub(mx, my);
    if mx >= my {
      ResidueLess(mx, 0, my);
      ResidueBase(mx - my, my);
      if i == 0 { return true, 0, 0; }
      mx := i;
    }
    ResidueBase(mx, my);
    RenormalizeStart(mx, ey);
    while mx / P63 == 0
      invariant 0 < mx < B64 && Renormalized(Residue(mx0, ex0 - ey, my), ey, mx, ex)
      decreases B64 - mx
    {
      RenormalizeStep(Residue(mx0, ex0 - ey, my), ey, mx, ex);
      WrapDouble(mx);
      mx := Mul64(2, mx);
      ex := ex - 1;
    }
    zero := false;
  }

  // --------------------------------------------------------------- 113 bits

  /** hi:lo := x - y with a borrow between the words. */
  method SubPair(xhi: nat, xlo: nat, yhi: nat, ylo: nat) returns (hi: nat, lo: nat)
    requires xhi < B64 / 2 && yhi < B64 / 2 && xlo < B64 && ylo < B64
    ensures hi < B64 && lo < B64
    ensures hi / P63 == 0 <==> Two(yhi, ylo) <= Two(xhi, xlo)
    ensures hi / P63 == 0 ==> Two(hi, lo) == Two(xhi, xlo) - Two(yhi, ylo)
  {
    hide Sub64, Two;
    hi := Sub64(xhi, yhi);
    lo := Sub64(xlo, ylo);
    WrapSub(xhi, yhi);
    WrapSub(xlo, ylo);
    if xlo < ylo {
      WrapSub(hi, 1);
      hi := Sub64(hi, 1);
    }
    Difference(xhi, xlo, yhi, ylo, hi, lo);
  }

  /** hi:lo := 2 * x, the top bit of the low word carried over. */
  method DoublePair(xhi: nat, xlo: nat) returns (hi: nat, lo: nat)
    requires xhi < B64 / 2 && xlo < B64
    ensures lo < B64 && Two(hi, lo) == 2 * Two(xhi, xlo)
  {
    hi := Add64(Mul64(2, xhi), xlo / P63);
    lo := Mul64(2, xlo);
  }

  lemma PairRange(hi: nat, lo: nat)
    requires lo < B64
    ensures Two(hi, lo) < 4 * P48 * B64 <==> hi < 4 * P48
    ensures hi / P48 == 0 <==> Two(hi, lo) < P48 * B64
    ensures hi == 0 && lo == 0 <==> Two(hi, lo) == 0
  {
  }

  method Divide113(xhi0: nat, xlo0: nat, ex0: int, yhi: nat, ylo: nat, ey: int)
      returns (zero: bool, xhi: nat, xlo: nat, ex: int)
    requires P48 <= xhi0 < 2 * P48 && P48 <= yhi < 2 * P48 && xlo0 < B64 && ylo < B64 && ey <= ex0
    ensures zero <==> Residue(Two(xhi0, xlo0), ex0 - ey, Two(yhi, ylo)) == 0
    ensures !zero ==> P48 <= xhi < 2 * P48 && xlo < B64
    ensures !zero ==> Renormalized(Residue(Two(xhi0, xlo0), ex0 - ey, Two(yhi, ylo)), ey, Two(xhi, xlo), ex)
  {
    hide Pow2, Residue, Renormalized, Two;
    xhi, xlo, ex := xhi0, xlo0, ex0;
    ghost var y := Two(yhi, ylo);
    ghost var r := PairResidue(xhi0, xlo0, ex0 - ey, yhi, ylo);
    PairStart(xhi, xlo, yhi, ylo);
    var hi, lo;
    while ex > ey
      invariant ey <= ex && xlo < B64 && xhi < 4 * P48 && 0 < Two(xhi, xlo) < 2 * y
      invariant Residue(Two(xhi, xlo), ex - ey, y) == r
      decreases ex - ey
    {
      ghost var (u, k) := (Two(xhi, xlo), ex - ey);
      hi, lo := SubPair(xhi, xlo, yhi, ylo);
      PairRange(hi, lo);
      if hi / P63 == 0 {
        if hi == 0 && lo == 0 {
          ResidueZero(k, y);
          return true, 0, 0, 0;
        }
        xhi, xlo := DoublePair(hi, lo);
      } else {
        xhi, xlo := DoublePair(xhi, xlo);
      }
      ex := ex - 1;
      NextResidue(u, k, y, Two(xhi, xlo));
      PairRange(xhi, xlo);
    }
    hi, lo := SubPair(xhi, xlo, yhi, ylo);
    PairRange(hi, lo);
    if hi / P63 == 0 {
      ResidueLess(Two(xhi, xlo), 0, y);
      ResidueBase(Two(hi, lo), y);
      if hi == 0 && lo == 0 { return true, 0, 0, 0; }
      xhi, xlo := hi, lo;
    }
    ResidueBase(Two(xhi, xlo), y);
    RenormalizeStart(r, ey);
    HalfRange(xhi, xlo);
    while xhi / P48 == 0
      invariant xlo < B64 && 0 < Two(xhi, xlo) < 2 * P48 * B64 && Renormalized(r, ey, Two(xhi, xlo), ex)
      invariant xhi < 2 * P48
      decreases 2 * P48 * B64 - Two(xhi, xlo)
    {
      RenormalizeStep(r, ey, Two(xhi, xlo), ex);
      PairRange(xhi, xlo);
      xhi, xlo := DoublePair(xhi, xlo);
      HalfRange(xhi, xlo);
      ex := ex - 1;
    }
    zero := false;
  }

  ghost function PairResidue(xhi: nat, xlo: nat, k: nat, yhi: nat, ylo: nat): nat
    requires 0 < yhi
  {
    Residue(Two(xhi, xlo), k, Two(yhi, ylo))
  }

  lemma PairStart(xhi: nat, xlo: nat, yhi: nat, ylo: nat)
    requires P48 <= xhi < 2 * P48 && P48 <= yhi < 2 * P48 && xlo < B64 && ylo < B64
    ensures 2 * P48 * B64 <= 2 * Two(yhi, ylo) < 4 * P48 * B64
    ensures 0 < Two(xhi, xlo) < 2 * Two(yhi, ylo)
  {
  }

  lemma HalfRange(hi: nat, lo: nat)
    requires lo < B64 && Two(hi, lo) < 2 * P48 * B64
    ensures hi < 2 * P48
  {
  }

  /** In any unit 2^b fine enough for the result, m * 2^e is the remainder of the two values. */
  lemma ExactRemainder(mx: nat, ex: int, my: nat, ey: int, m: nat, e: int, b: int)
    requires 0 < my && ey <= ex && b <= e && Renormalized(Residue(mx, ex - ey, my), ey, m, e)
    ensures my * Pow2(ey - b) > 0
    ensures m * Pow2(e - b) == mx * Pow2(ex - b) % (my * Pow2(ey - b))
  {
    hide Pow2;
    var r := Residue(mx, ex - ey, my);
    Pow2Add(ey - e, e - b);
    MulAssoc(r, Pow2(ey - e), Pow2(e - b));
    Pow2Add(ex - ey, ey - b);
    MulAssoc(mx, Pow2(ex - ey), Pow2(ey - b));
    MulMono(0, mx, Pow2(ex - ey));
    DivModScale(mx * Pow2(ex - ey), my, Pow2(ey - b));
  }
}
