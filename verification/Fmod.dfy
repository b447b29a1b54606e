/** fmod and fmodf: bit-by-bit long division of significands, for any field layout. */
module Fmod {
  import opened Bits
  import opened Rounding
  import opened Ieee

  /** Width of a word of the layout, its sign bit included. */
  function Width(l: Layout): nat { l.frac + l.exp + 1 }

  /** Left shift in the layout's word. */
  function Shl(l: Layout, a: nat, k: nat): nat { a * Pow2(k) % Pow2(Width(l)) }

  /** Wrapping subtraction in the layout's word. */
  function Sub(l: Layout, a: nat, b: nat): nat { (a - b) % Pow2(Width(l)) }

  /** Exponent and fraction fields together. */
  function AbsBits(l: Layout, b: nat): nat { b % Pow2(l.frac + l.exp) }

  predicate IsNaN(l: Layout, b: nat) { !Finite(l, b) && Fraction(l, b) != 0 }

  ghost predicate IsWord(l: Layout, b: nat) { l.exp >= 2 && l.frac >= 1 && b < Pow2(Width(l)) }

  /** A word is its sign, exponent and fraction fields. */
  lemma Parts(l: Layout, b: nat)
    requires IsWord(l, b)
    ensures var (p, w) := (Pow2(l.frac), Pow2(l.exp));
            && Fraction(l, b) < p && Exponent(l, b) < w
            && AbsBits(l, b) == Exponent(l, b) * p + Fraction(l, b)
            && AbsBits(l, b) < Pow2(l.frac + l.exp)
            && b == Bool(Negative(l, b)) * Pow2(l.frac + l.exp) + AbsBits(l, b)
  {
    hide Pow2;
    var (p, w) := (Pow2(l.frac), Pow2(l.exp));
    Pow2Add(l.frac, l.exp);
    DivModTwice(b, p, w);
    DivModSplit(b, p);
    var half := Pow2(l.frac + l.exp);
    Pow2Step1(l.frac + l.exp);
    var (q, r) := Split(b, l.frac + l.exp);
    DivModUnique(b, half, q, r);
    if 2 <= q { MulMono(2, q, half); }
    assert q == 0 || q == 1;
  }

  /** Shifting out the sign bit doubles the rest. */
  lemma DropSign(l: Layout, b: nat)
    requires IsWord(l, b)
    ensures Shl(l, b, 1) == 2 * AbsBits(l, b)
  {
    hide Pow2, Negative, AbsBits;
    Parts(l, b);
    Pow2One();
    Pow2Step1(l.frac + l.exp);
    DivModUnique(b * 2, Pow2(Width(l)), Bool(Negative(l, b)), 2 * AbsBits(l, b));
  }

  /** The significand scale: magnitude is q * 2^(e-1) for a normalised q, e possibly below 1. */
  ghost predicate Scaled(l: Layout, mag: nat, q: nat, e: int) {
    && Pow2(l.frac) <= q < 2 * Pow2(l.frac) && e > -(l.frac as int)
    && mag * Pow2(l.frac) == q * Pow2(e - 1 + l.frac)
  }

  /** Magnitudes order like the bit patterns without sign. */
  lemma MagnitudeOrder(l: Layout, a: nat, b: nat)
    requires IsWord(l, a) && IsWord(l, b)
    ensures AbsBits(l, a) < AbsBits(l, b) ==> Magnitude(l, a) < Magnitude(l, b)
    ensures AbsBits(l, a) == AbsBits(l, b) ==> Magnitude(l, a) == Magnitude(l, b)
  {
    hide Pow2, AbsBits, Exponent, Fraction, Negative;
    Parts(l, a);
    Parts(l, b);
    var p := Pow2(l.frac);
    var (ea, fa, eb, fb) := (Exponent(l, a), Fraction(l, a), Exponent(l, b), Fraction(l, b));
    FieldOrder(p, ea, fa, eb, fb);
    if ea == eb && fa < fb && ea > 0 { MulStrict(p + fa, p + fb, Pow2(ea - 1)); }
    if ea < eb { LowerBinade(p, ea, fa, eb, fb); }
  }

  lemma FieldOrder(p: nat, ea: nat, fa: nat, eb: nat, fb: nat)
    requires fa < p && fb < p
    ensures ea * p + fa < eb * p + fb <==> ea < eb || (ea == eb && fa < fb)
    ensures ea * p + fa == eb * p + fb <==> ea == eb && fa == fb
  {
    if ea < eb { MulStrict(ea, eb, p); }
    if eb < ea { MulStrict(eb, ea, p); }
  }

  lemma LowerBinade(p: nat, ea: nat, fa: nat, eb: nat, fb: nat)
    requires fa < p && ea < eb
    ensures (if ea == 0 then fa else (p + fa) * Pow2(ea - 1)) < (p + fb) * Pow2(eb - 1)
  {
    hide Pow2;
    MulMono(p, p + fb, Pow2(eb - 1));
    if ea == 0 {
      MulMono(1, Pow2(eb - 1), p);
    } else {
      MulStrict(p + fa, 2 * p, Pow2(ea - 1));
      Pow2Step1(ea - 1);
      MulAssoc(p, 2, Pow2(ea - 1));
      Pow2Mono(ea, eb - 1);
      MulMono(Pow2(ea), Pow2(eb - 1), p);
    }
  }

  // ----------------------------------------------------------- normalisation

  /** Shifting left by the exponent width and one keeps exactly the fraction. */
  lemma FractionOnly(l: Layout, b: nat)
    ensures Shl(l, b, l.exp + 1) == Fraction(l, b) * Pow2(l.exp + 1)
    ensures Fraction(l, b) * Pow2(l.exp + 1) < Pow2(Width(l))
  {
    hide Pow2;
    var (q, r) := Split(b, l.frac);
    DivModUnique(b, Pow2(l.frac), q, r);
    Pow2Add(l.frac, l.exp + 1);
    var e := Pow2(l.exp + 1);
    MulStrict(r, Pow2(l.frac), e);
    Regroup(q, r, 0, e, Pow2(l.frac));
    assert e * Pow2(l.frac) == Pow2(Width(l));
    DivModUnique(b * e, Pow2(Width(l)), q, r * e);
  }

  /** Brings the significand of a nonzero word to full length. */
  method Normalize(l: Layout, u: nat, e0: nat) returns (q: nat, e: int)
    requires IsWord(l, u) && Magnitude(l, u) > 0 && e0 == Exponent(l, u)
    ensures Scaled(l, Magnitude(l, u), q, e) && e <= e0
  {
    hide Pow2, Or, Shl, Exponent, Fraction, Scaled, Magnitude;
    e := e0;
    if e == 0 {
      var i := Shl(l, u, l.exp + 1);
      FractionOnly(l, u);
      ghost var f := Fraction(l, u);
      MagnitudeOf(l, u);
      while Shr(i, Width(l) - 1) == 0
        invariant -(l.frac as int) < e <= 0
        invariant i == f * Pow2(l.exp + 1 - e) < Pow2(Width(l))
        decreases l.frac + e
      {
        StepUp(l, i, f, l.exp + 1 - e);
        e := e - 1;
        i := Shl(l, i, 1);
      }
      TopSet(l, u, i, f, e);
      q := Shl(l, u, -e + 1);
    } else {
      q := Or(Pow2(l.frac), u % Pow2(l.frac));
      Implicit(l, u);
    }
  }

  lemma MagnitudeOf(l: Layout, u: nat)
    ensures Exponent(l, u) == 0 ==> Magnitude(l, u) == Fraction(l, u)
  {
  }

  lemma Implicit(l: Layout, u: nat)
    requires Exponent(l, u) > 0
    ensures Scaled(l, Magnitude(l, u), Or(Pow2(l.frac), u % Pow2(l.frac)), Exponent(l, u))
  {
    hide Pow2, Or, Exponent;
    var p := Pow2(l.frac);
    var e := Exponent(l, u);
    DivModUnique(p, p, 1, 0);
    OrDisjoint(p, u % p, l.frac);
    Pow2Add(e - 1, l.frac);
    MulAssoc(p + u % p, Pow2(e - 1), p);
  }

  /** While the top bit is clear there is room for another doubling. */
  lemma StepUp(l: Layout, i: nat, f: nat, k: nat)
    requires f > 0 && i == f * Pow2(k) && Shr(i, Width(l) - 1) == 0
    ensures Shl(l, i, 1) == f * Pow2(k + 1) < Pow2(Width(l))
    ensures k < l.frac + l.exp
  {
    hide Pow2;
    var (q, r) := Split(i, Width(l) - 1);
    DivModUnique(i, Pow2(Width(l) - 1), q, r);
    Pow2Step1(Width(l) - 1);
    Pow2Step1(k);
    Pow2One();
    MulAssoc(f, 2, Pow2(k));
    DivModUnique(i * 2, Pow2(Width(l)), 0, i * 2);
    MulMono(1, f, Pow2(k));
    if l.frac + l.exp <= k { Pow2Mono(l.frac + l.exp, k); assert false; }
  }

  lemma TopSet(l: Layout, u: nat, i: nat, f: nat, e: int)
    requires IsWord(l, u) && f == Fraction(l, u) == Magnitude(l, u) > 0 && Exponent(l, u) == 0
    requires -(l.frac as int) < e <= 0
    requires i == f * Pow2(l.exp + 1 - e) < Pow2(Width(l)) && Shr(i, Width(l) - 1) != 0
    ensures Scaled(l, Magnitude(l, u), Shl(l, u, 1 - e), e)
  {
    hide Pow2, Exponent, Fraction, Negative, Magnitude, AbsBits;
    var k: nat := 1 - e;
    var q := f * Pow2(k);
    var (h, r) := Split(i, Width(l) - 1);
    DivModUnique(i, Pow2(Width(l) - 1), h, r);
    MulMono(1, h, Pow2(Width(l) - 1));
    FullLength(l, f, k);
    SignShiftedOut(l, u, f, k);
    Pow2Add(k, l.frac - k);
    MulAssoc(f, Pow2(k), Pow2(l.frac - k));
  }

  lemma FullLength(l: Layout, f: nat, k: nat)
    requires Pow2(Width(l) - 1) <= f * Pow2(l.exp + k) < Pow2(Width(l))
    ensures Pow2(l.frac) <= f * Pow2(k) < 2 * Pow2(l.frac)
  {
    hide Pow2;
    var w := Pow2(l.exp);
    Pow2Add(k, l.exp);
    MulAssoc(f, Pow2(k), w);
    Pow2Add(l.frac, l.exp);
    Pow2Add(l.frac + 1, l.exp);
    Pow2Step1(l.frac);
    var q := f * Pow2(k);
    if q < Pow2(l.frac) { MulStrict(q, Pow2(l.frac), w); }
    if Pow2(l.frac + 1) <= q { MulMono(Pow2(l.frac + 1), q, w); }
  }

  /** The sign bit of a subnormal is shifted out, the fraction is not. */
  lemma SignShiftedOut(l: Layout, u: nat, f: nat, k: nat)
    requires IsWord(l, u) && f == Fraction(l, u) && Exponent(l, u) == 0 && k > 0
    requires f * Pow2(k) < 2 * Pow2(l.frac)
    ensures Shl(l, u, k) == f * Pow2(k)
  {
    hide Pow2, Exponent, Fraction, Negative, AbsBits;
    Parts(l, u);
    assert 0 * Pow2(l.frac) == 0;
    var half := l.frac + l.exp;
    var (s, w, c) := (Bool(Negative(l, u)), Pow2(Width(l)), Pow2(k - 1));
    Pow2Add(half, k);
    Pow2Add(half + 1, k - 1);
    ShiftedSum(s, f, Pow2(half), Pow2(k), w, c);
    Pow2Step1(l.frac);
    Pow2Mono(l.frac + 1, Width(l));
    MulMono(0, f, Pow2(k));
    var (q, r) := (s * c, f * Pow2(k));
    DivModUnique(u * Pow2(k), w, q, r);
  }

  lemma ShiftedSum(s: nat, f: nat, h: nat, k: nat, w: nat, c: nat)
    requires h * k == w * c
    ensures (s * h + f) * k == s * c * w + f * k
  {
    Regroup(s, f, 0, k, h);
    assert k * h == c * w;
    MulAssoc(s, c, w);
  }

  // ------------------------------------------------------------ long division

  /** The residue that the division loop preserves. */
  ghost function Residue(u: nat, k: nat, y: nat): nat
    requires y > 0
  {
    u * Pow2(k) % y
  }

  lemma ResidueLess(u: nat, k: nat, y: nat)
    requires 0 < y <= u
    ensures Residue(u - y, k, y) == Residue(u, k, y)
  {
    hide Pow2;
    var v := (u - y) * Pow2(k);
    Distribute(u, y, Pow2(k));
    MulMono(0, u - y, Pow2(k));
    DivModSplit(v, y);
    Distribute(v / y, Pow2(k), y);
    assert u * Pow2(k) == (v / y + Pow2(k)) * y + v % y;
    DivModUnique(u * Pow2(k), y, v / y + Pow2(k), v % y);
  }

  lemma ResidueDouble(u: nat, k: nat, y: nat)
    requires y > 0 && k > 0
    ensures Residue(2 * u, k - 1, y) == Residue(u, k, y)
  {
    hide Pow2;
    Pow2Step1(k - 1);
    MulAssoc(u, 2, Pow2(k - 1));
  }

  lemma ResidueBase(u: nat, y: nat)
    requires 0 < y
    ensures u < y ==> Residue(u, 0, y) == u
    ensures Residue(y, 0, y) == 0
  {
    Pow2Zero();
    if u < y { DivModUnique(u, y, 0, u); }
    DivModUnique(y, y, 1, 0);
  }

  lemma ResidueZero(k: nat, y: nat)
    requires 0 < y
    ensures Residue(y, k, y) == 0
  {
    hide Pow2;
    DivModUnique(y * Pow2(k), y, Pow2(k), 0);
  }

  /** The sign bit of the wrapped difference tells the comparison. */
  lemma WrappedCompare(l: Layout, u: nat, y: nat)
    requires l.exp >= 2 && u < 4 * Pow2(l.frac) && y < 4 * Pow2(l.frac)
    ensures Shr(Sub(l, u, y), Width(l) - 1) == 0 <==> y <= u
    ensures y <= u ==> Sub(l, u, y) == u - y
  {
    hide Pow2;
    var half := Pow2(Width(l) - 1);
    Pow2Step1(Width(l) - 1);
    Pow2Step1(l.frac);
    Pow2Step1(l.frac + 1);
    Pow2Mono(l.frac + 2, Width(l) - 1);
    if y <= u {
      DivModUnique(u - y, Pow2(Width(l)), 0, u - y);
      DivModUnique(u - y, half, 0, u - y);
    } else {
      var d := u - y + Pow2(Width(l));
      DivModUnique(u - y, Pow2(Width(l)), -1, d);
      DivModUnique(d, half, 1, d - half);
    }
  }

  lemma Doubling(l: Layout, u: nat)
    requires l.exp >= 2 && u < 2 * Pow2(l.frac)
    ensures Shl(l, u, 1) == 2 * u
  {
    hide Pow2;
    Pow2One();
    Pow2Step1(l.frac);
    Pow2Step1(l.frac + 1);
    Pow2Mono(l.frac + 2, Width(l));
    DivModUnique(u * 2, Pow2(Width(l)), 0, u * 2);
  }

  /** One bit of the quotient: subtract y when it fits. Zero means that the remainder vanished. */
  method Subtract(l: Layout, u: nat, y: nat) returns (r: nat)
    requires l.exp >= 2 && 0 < u < 2 * y && y < 2 * Pow2(l.frac)
    ensures r == if y <= u then u - y else u
  {
    hide Pow2, Shr, Sub;
    WrappedCompare(l, u, y);
    var i := Sub(l, u, y);
    r := u;
    if Shr(i, Width(l) - 1) == 0 { r := i; }
  }

  /** Remainder of ux * 2^(ex-ey) by uy through shift and subtract. */
  method Divide(l: Layout, ux: nat, ex: int, uy: nat, ey: int) returns (r: nat)
    requires l.exp >= 2 && ey <= ex
    requires Pow2(l.frac) <= uy < 2 * Pow2(l.frac) && 0 < ux < 2 * uy
    ensures r == Residue(ux, ex - ey, uy) && r < uy
  {
    hide Pow2, Shl, Residue;
    var u, e := ux, ex;
    while e > ey
      invariant ey <= e && 0 < u < 2 * uy
      invariant Residue(u, e - ey, uy) == Residue(ux, ex - ey, uy)
      decreases e - ey
    {
      var i := Subtract(l, u, uy);
      if uy <= u { ResidueLess(u, e - ey, uy); }
      if i == 0 {
        ResidueZero(e - ey, uy);
        return 0;
      }
      Doubling(l, i);
      ResidueDouble(i, e - ey, uy);
      u := Shl(l, i, 1);
      e := e - 1;
    }
    r := Subtract(l, u, uy);
    if uy <= u { ResidueLess(u, 0, uy); }
    ResidueBase(r, uy);
  }

  // ------------------------------------------------------------------ result

  /** A larger magnitude has no smaller exponent once both are normalised. */
  lemma ExponentOrder(l: Layout, x: nat, ux: nat, ex: int, y: nat, uy: nat, ey: int)
    requires Scaled(l, x, ux, ex) && Scaled(l, y, uy, ey) && y < x
    ensures ey <= ex
  {
    hide Pow2;
    var p := Pow2(l.frac);
    if ex < ey {
      var (a, b) := (ex - 1 + l.frac, ey - 1 + l.frac);
      Pow2Step1(a);
      Pow2Mono(a + 1, b);
      MulStrict(y, x, p);
      Binades(ux, uy, p, Pow2(a), Pow2(b));
      assert false;
    }
  }

  lemma Binades(ux: nat, uy: nat, p: nat, a: nat, b: nat)
    requires ux < 2 * p && p <= uy && 0 < a && 2 * a <= b
    ensures ux * a < uy * b
  {
    MulStrict(ux, 2 * p, a);
    MulAssoc(p, 2, a);
    MulMono(2 * a, b, p);
    MulMono(p, uy, b);
  }

  /** The residue of significands is the remainder of magnitudes, in the divisor's scale. */
  lemma RemainderUnits(l: Layout, x: nat, ux: nat, ex: int, y: nat, uy: nat, ey: int)
    requires Scaled(l, x, ux, ex) && Scaled(l, y, uy, ey) && ey <= ex && 0 < y
    ensures x % y * Pow2(l.frac) == Residue(ux, ex - ey, uy) * Pow2(ey - 1 + l.frac)
  {
    hide Pow2;
    var (p, k, s) := (Pow2(l.frac), Pow2(ex - ey), Pow2(ey - 1 + l.frac));
    DivModScale(x, y, p);
    Pow2Add(ex - ey, ey - 1 + l.frac);
    MulAssoc(ux, k, s);
    MulMono(0, ux, k);
    DivModScale(ux * k, uy, s);
  }

  /** Rebuilds the word of magnitude mr from its significand u and exponent. */
  method Assemble(l: Layout, r: nat, ey: int, sx: nat, ghost mr: nat) returns (b: nat)
    requires l.exp >= 2 && l.frac >= 1 && sx <= 1 && 0 < r < 2 * Pow2(l.frac)
    requires -(l.frac as int) < ey < Pow2(l.exp) - 1
    requires mr * Pow2(l.frac) == r * Pow2(ey - 1 + l.frac)
    ensures Magnitude(l, b) == mr && Finite(l, b) && (Negative(l, b) <==> sx == 1) && b < Pow2(Width(l))
  {
    hide Pow2, Or, Shl, Shr, Magnitude, Finite, Negative;
    var u, e := r, ey;
    while Shr(u, l.frac) == 0
      invariant 0 < u < 2 * Pow2(l.frac) && -(l.frac as int) < e <= ey
      invariant mr * Pow2(l.frac) == u * Pow2(e - 1 + l.frac)
      decreases 2 * Pow2(l.frac) - u
    {
      RaiseStep(l, u, e, mr);
      u := Shl(l, u, 1);
      e := e - 1;
    }
    FullWord(l, u);
    if e > 0 {
      NormalWord(l, u, e, sx, mr);
      u := u - Pow2(l.frac);
      u := Or(Shl(l, e, l.frac), u);
    } else {
      SubnormalWord(l, u, e, sx, mr);
      u := Shr(u, -e + 1);
    }
    b := Or(Shl(l, sx, Width(l) - 1), u);
  }

  lemma FullWord(l: Layout, u: nat)
    ensures Shr(u, l.frac) == 0 <==> u < Pow2(l.frac)
  {
    hide Pow2;
    var (q, r) := Split(u, l.frac);
    DivModUnique(u, Pow2(l.frac), q, r);
    if q > 0 { MulMono(1, q, Pow2(l.frac)); }
  }

  lemma RaiseStep(l: Layout, u: nat, e: int, mr: nat)
    requires l.exp >= 2 && 0 < u && Shr(u, l.frac) == 0 && -(l.frac as int) < e
    requires mr * Pow2(l.frac) == u * Pow2(e - 1 + l.frac)
    ensures Shl(l, u, 1) == 2 * u < 2 * Pow2(l.frac) && -(l.frac as int) < e - 1
    ensures mr * Pow2(l.frac) == 2 * u * Pow2(e - 2 + l.frac)
  {
    hide Pow2, Shl, Shr;
    FullWord(l, u);
    Doubling(l, u);
    var p := Pow2(l.frac);
    if e - 1 + l.frac == 0 {
      assert 0 * p == 0;
      Pow2Zero();
      if mr > 0 { MulMono(1, mr, p); }
      assert false;
    }
    Pow2Step1(e - 2 + l.frac);
    MulAssoc(u, 2, Pow2(e - 2 + l.frac));
  }

  /** Setting the sign bit of an assembled pattern. */
  lemma WithSign(l: Layout, sx: nat, e: nat, m: nat)
    requires sx <= 1 && e < Pow2(l.exp) - 1 && m < Pow2(l.frac)
    ensures var b := Or(Shl(l, sx, Width(l) - 1), e * Pow2(l.frac) + m);
            && Fraction(l, b) == m && Exponent(l, b) == e && (Negative(l, b) <==> sx == 1)
            && b < Pow2(Width(l)) && Finite(l, b)
  {
    hide Pow2, Or, Exponent, Fraction, Negative;
    var (p, w) := (Pow2(l.frac), Pow2(l.exp));
    var half := Pow2(Width(l) - 1);
    Pow2Step1(Width(l) - 1);
    Pow2Add(l.frac, l.exp);
    DigitBound(e, m, p, w);
    assert sx * half == 0 || sx * half == half;
    DivModUnique(sx * half, Pow2(Width(l)), 0, sx * half);
    DivModUnique(sx * half, half, sx, 0);
    OrDisjoint(sx * half, e * p + m, Width(l) - 1);
    FieldsOf(l, sx, e, m);
    Regroup(sx, e, m, p, w);
  }

  lemma NormalWord(l: Layout, u: nat, e: int, sx: nat, mr: nat)
    requires sx <= 1 && Pow2(l.frac) <= u < 2 * Pow2(l.frac) && 0 < e < Pow2(l.exp) - 1
    requires mr * Pow2(l.frac) == u * Pow2(e - 1 + l.frac)
    ensures var b := Or(Shl(l, sx, Width(l) - 1), Or(Shl(l, e, l.frac), u - Pow2(l.frac)));
            Magnitude(l, b) == mr && Finite(l, b) && (Negative(l, b) <==> sx == 1) && b < Pow2(Width(l))
  {
    hide Pow2, Or, Exponent, Fraction, Negative, Finite;
    var p := Pow2(l.frac);
    var m := u - p;
    Pow2Add(l.frac, l.exp);
    Pow2Step1(l.frac + l.exp);
    MulStrict(e, Pow2(l.exp), p);
    MulMono(0, e, p);
    DivModUnique(e * p, Pow2(Width(l)), 0, e * p);
    DivModUnique(e * p, p, e, 0);
    OrDisjoint(e * p, m, l.frac);
    WithSign(l, sx, e, m);
    Pow2Add(e - 1, l.frac);
    MulAssoc(u, Pow2(e - 1), p);
    CancelFactor(mr, u * Pow2(e - 1), p);
  }

  lemma CancelFactor(a: int, b: int, p: nat)
    requires p > 0 && a * p == b * p
    ensures a == b
  {
    if a < b { MulStrict(a, b, p); }
    if b < a { MulStrict(b, a, p); }
  }

  /** The right shift into the subnormal range loses nothing. */
  lemma SubnormalWord(l: Layout, u: nat, e: int, sx: nat, mr: nat)
    requires sx <= 1 && Pow2(l.frac) <= u < 2 * Pow2(l.frac) && -(l.frac as int) < e <= 0 && l.exp >= 2
    requires mr * Pow2(l.frac) == u * Pow2(e - 1 + l.frac)
    ensures var b := Or(Shl(l, sx, Width(l) - 1), Shr(u, -e + 1));
            Magnitude(l, b) == mr && Finite(l, b) && (Negative(l, b) <==> sx == 1) && b < Pow2(Width(l))
  {
    hide Pow2, Or, Exponent, Fraction, Negative, Finite;
    var k: nat := 1 - e;
    var p := Pow2(l.frac);
    Pow2Add(k, e - 1 + l.frac);
    MulAssoc(mr, Pow2(k), Pow2(e - 1 + l.frac));
    CancelFactor(mr * Pow2(k), u, Pow2(e - 1 + l.frac));
    DivModUnique(u, Pow2(k), mr, 0);
    Pow2Mono(1, k);
    Pow2One();
    MulMono(2, Pow2(k), mr);
    Pow2Mono(2, l.exp);
    Pow2Step1(1);
    assert 0 * p + mr == mr;
    WithSign(l, sx, 0, mr);
  }

  /** An fmod result: a word, or the invalid operation (x*y)/(x*y). */
  datatype Answer = Word(bits: nat) | Invalid

  /** The word of 0*x. */
  function SignedZero(l: Layout, sx: nat): nat { Shl(l, sx, Width(l) - 1) }

  lemma ZeroWord(l: Layout, sx: nat)
    requires sx <= 1 && l.exp >= 2
    ensures var b := SignedZero(l, sx);
            Magnitude(l, b) == 0 && Finite(l, b) && (Negative(l, b) <==> sx == 1) && b < Pow2(Width(l))
  {
    hide Pow2, Exponent, Fraction, Negative, Finite, Or;
    Pow2Mono(2, l.exp);
    Pow2Step1(1);
    Pow2One();
    assert 0 * Pow2(l.frac) + 0 == 0;
    WithSign(l, sx, 0, 0);
    OrZero(Shl(l, sx, Width(l) - 1));
  }

  lemma OrZero(a: nat)
    ensures Or(a, 0) == a
  {
  }

  lemma SignBit(l: Layout, x: nat)
    requires IsWord(l, x)
    ensures Shr(x, Width(l) - 1) == Bool(Negative(l, x))
  {
    hide Pow2, AbsBits;
    Parts(l, x);
    ShrOf(x, Width(l) - 1, Bool(Negative(l, x)), AbsBits(l, x));
  }

  lemma ZeroMagnitude(l: Layout, y: nat)
    requires IsWord(l, y)
    ensures Magnitude(l, y) == 0 <==> AbsBits(l, y) == 0
    ensures AbsBits(l, y) == 0 ==> Finite(l, y)
  {
    hide Pow2, AbsBits, Exponent, Fraction, Negative;
    Parts(l, y);
    Pow2Mono(1, l.exp);
    Pow2One();
    var e := Exponent(l, y);
    assert 0 * Pow2(l.frac) == 0;
    if e > 0 {
      MulPositive(e, Pow2(l.frac));
      MulPositive(Pow2(l.frac) + Fraction(l, y), Pow2(e - 1));
    }
  }

  lemma FiniteOrder(l: Layout, a: nat, b: nat)
    requires IsWord(l, a) && IsWord(l, b) && AbsBits(l, a) <= AbsBits(l, b) && Finite(l, b)
    ensures Finite(l, a) && Exponent(l, a) < Pow2(l.exp) - 1
  {
    hide Pow2, AbsBits, Exponent, Fraction, Negative;
    Parts(l, a);
    Parts(l, b);
    FieldOrder(Pow2(l.frac), Exponent(l, b), Fraction(l, b), Exponent(l, a), Fraction(l, a));
  }

  lemma SelfRemainder(a: nat, b: nat)
    requires 0 < b
    ensures a < b ==> a % b == a
    ensures a == b ==> a % b == 0
  {
    if a < b { DivModUnique(a, b, 0, a); }
    DivModUnique(b, b, 1, 0);
  }

  lemma ScaledBounds(l: Layout, x: nat, u: nat, e: int)
    requires Scaled(l, x, u, e)
    ensures Pow2(l.frac) <= u < 2 * Pow2(l.frac) && -(l.frac as int) < e
  {
  }

  lemma NoRemainder(v: nat, p: nat, s: nat)
    requires p > 0 && v * p == 0 * s
    ensures v == 0
  {
    if v > 0 { MulPositive(v, p); }
  }

  /** What fmod promises: the exact remainder of the magnitudes with the sign of x. */
  predicate IsRemainder(l: Layout, x: nat, y: nat, r: Answer) {
    var (a, b) := (Decode(l, x), Decode(l, y));
    if !a.Fin? || b.NaN? || (b.Fin? && b.mag == 0) then r == Invalid
    else if b.Inf? then r == Word(x)
    else r.Word? && r.bits < Pow2(Width(l)) && Decode(l, r.bits) == Fin(a.neg, a.mag % b.mag)
  }

  /** x - trunc(x/y)*y with the sign of x: exact for all finite x and nonzero y. */
  method Remainder(l: Layout, x: nat, y: nat) returns (r: Answer)
    requires l.exp >= 2 && l.frac >= 1 && x < Pow2(Width(l)) && y < Pow2(Width(l))
    ensures IsRemainder(l, x, y, r)
  {
    hide Pow2, Shl, Shr, Magnitude, Exponent, Fraction, Negative, AbsBits, Scaled, Residue, SignedZero;
    var ex, ey := Exponent(l, x), Exponent(l, y);
    var sx := Shr(x, Width(l) - 1);
    SignBit(l, x);
    DropSign(l, x);
    DropSign(l, y);
    ZeroMagnitude(l, y);
    if Shl(l, y, 1) == 0 || IsNaN(l, y) || ex == Pow2(l.exp) - 1 {
      return Invalid;
    }
    MagnitudeOrder(l, x, y);
    MagnitudeOrder(l, y, x);
    if Shl(l, x, 1) <= Shl(l, y, 1) {
      if Shl(l, x, 1) == Shl(l, y, 1) {
        SelfRemainder(Magnitude(l, x), Magnitude(l, y));
        ZeroWord(l, sx);
        FiniteOrder(l, y, x);
        return Word(SignedZero(l, sx));
      }
      SelfRemainder(Magnitude(l, x), Magnitude(l, y));
      return Word(x);
    }
    FiniteOrder(l, y, x);
    var ux, uy, fx, fy;
    ux, fx := Normalize(l, x, ex);
    uy, fy := Normalize(l, y, ey);
    ghost var (mx, my) := (Magnitude(l, x), Magnitude(l, y));
    ExponentOrder(l, mx, ux, fx, my, uy, fy);
    RemainderUnits(l, mx, ux, fx, my, uy, fy);
    ScaledBounds(l, mx, ux, fx);
    ScaledBounds(l, my, uy, fy);
    var m := Divide(l, ux, fx, uy, fy);
    if m == 0 {
      NoRemainder(mx % my, Pow2(l.frac), Pow2(fy - 1 + l.frac));
      ZeroWord(l, sx);
      return Word(SignedZero(l, sx));
    }
    var b := Assemble(l, m, fy, sx, mx % my);
    r := Word(b);
  }

  method Fmod(x: nat, y: nat) returns (r: Answer)
    requires x < Pow2(64) && y < Pow2(64)
    ensures IsRemainder(DOUBLE_BITS, x, y, r)
  {
    hide IsRemainder, Pow2;
    r := Remainder(DOUBLE_BITS, x, y);
  }

  method Fmodf(x: nat, y: nat) returns (r: Answer)
    requires x < Pow2(32) && y < Pow2(32)
    ensures IsRemainder(FLOAT_BITS, x, y, r)
  {
    hide IsRemainder, Pow2;
    r := Remainder(FLOAT_BITS, x, y);
  }
}
