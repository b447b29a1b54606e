/** Binary floating-point formats: values are integers counted in units of the format's
    least subnormal, and every operation is the exact one followed by a single rounding. */
module Ieee {
  import opened Bits
  import opened Rounding

  /** prec significant bits, least positive value 2^-low, finite values below 2^top. */
  datatype Format = Format(prec: nat, low: nat, top: nat)

  const DOUBLE := Format(53, 1074, 1024)
  const FLOAT := Format(24, 149, 128)

  /** A datum of a format; mag counts units of the format's least subnormal. */
  datatype Fp = Fin(neg: bool, mag: nat) | Inf(neg: bool) | NaN

  // ------------------------------------------------------------------ rounding

  /** Bits dropped when v, counted in units of 2^-s of the least subnormal, is rounded. */
  function Dropped(f: Format, v: nat, s: nat): (k: nat)
    ensures k >= s
  {
    if BitLen(v) > s + f.prec then BitLen(v) - f.prec else s
  }

  function RoundMag(f: Format, v: nat, s: nat): nat {
    Nearest(v, Dropped(f, v, s)) * Pow2(Dropped(f, v, s) - s)
  }

  /** Round-to-nearest-even of v * 2^-s least subnormals, with overflow to infinity. */
  function Round(f: Format, neg: bool, v: nat, s: nat): Fp {
    var m := RoundMag(f, v, s);
    if m < Pow2(f.top + f.low) then Fin(neg, m) else Inf(neg)
  }

  /** Round-to-nearest-even of w * 2^e. */
  function RoundAt(f: Format, neg: bool, w: nat, e: int): Fp {
    if e + f.low >= 0 then Round(f, neg, w * Pow2(e + f.low), 0)
    else Round(f, neg, w, -(e + f.low))
  }

  /** m is a magnitude with at most prec significant bits. */
  predicate Fits(f: Format, m: nat) {
    BitLen(m) > f.prec ==> m % Pow2(BitLen(m) - f.prec) == 0
  }

  predicate IsValue(f: Format, a: Fp) {
    a.Fin? ==> Fits(f, a.mag) && a.mag < Pow2(f.top + f.low)
  }

  lemma {:induction false} BitLenScale(v: nat, j: nat)
    requires v > 0
    ensures v * Pow2(j) > 0
    ensures BitLen(v * Pow2(j)) == BitLen(v) + j
  {
    hide *;
    BitLenRange(v);
    var n := BitLen(v);
    Pow2Add(n - 1, j);
    Pow2Add(n, j);
    MulMono(Pow2(n - 1), v, Pow2(j));
    MulStrict(v, Pow2(n), Pow2(j));
    MulPositive(v, Pow2(j));
    BitLenUnique(v * Pow2(j), n + j);
  }

  /** Rounding depends on the value only, not on the unit it is counted in. */
  lemma RoundScale(f: Format, neg: bool, v: nat, s: nat, j: nat)
    ensures Round(f, neg, v * Pow2(j), s + j) == Round(f, neg, v, s)
  {
    hide Nearest, Pow2, BitLen;
    if v == 0 {
      ZeroRounds(f, neg, s);
      ZeroRounds(f, neg, s + j);
    } else {
      BitLenScale(v, j);
      var k := Dropped(f, v, s);
      assert Dropped(f, v * Pow2(j), s + j) == k + j;
      NearestScale(v, j, k);
    }
  }

  lemma ZeroRounds(f: Format, neg: bool, s: nat)
    ensures Round(f, neg, 0, s) == Fin(neg, 0)
  {
    NearestExact(0, s);
    assert BitLen(0) == 0;
    assert 0 * Pow2(s) == 0;
  }

  /** A value that fits is returned unchanged. */
  lemma RoundFits(f: Format, neg: bool, m: nat)
    requires Fits(f, m)
    ensures Round(f, neg, m, 0) == if m < Pow2(f.top + f.low) then Fin(neg, m) else Inf(neg)
  {
    var k := Dropped(f, m, 0);
    var (q, r) := Split(m, k);
    assert r == 0 by { DivModUnique(m, Pow2(k), q, r); }
    NearestExact(q, k);
  }

  lemma StickyBitLen(v: nat, j: nat)
    requires Pow2(j) <= v
    ensures Sticky(v, j) > 0
    ensures BitLen(Sticky(v, j)) == BitLen(v) - j
  {
    hide *;
    var n := BitLen(v);
    BitLenRange(v);
    if n <= j { Pow2Mono(n, j); assert false; }
    var (q, r) := Split(v, j);
    StickyOf(v, j, q, r);
    QuotientRange(v, q, r, n - j, j);
    MakeOddRange(q, n - j);
    BitLenUnique(q, n - j);
    if r != 0 { BitLenUnique(MakeOdd(q), n - j); }
  }

  /** Rounding a value kept to odd with at least two spare bits rounds the exact value. */
  lemma RoundSticky(f: Format, neg: bool, v: nat, s: nat, j: nat)
    requires Pow2(j) <= v
    requires Dropped(f, Sticky(v, j), s) >= 2
    ensures Round(f, neg, Sticky(v, j), s) == Round(f, neg, v, s + j)
  {
    hide Nearest, Pow2, BitLen, Sticky;
    StickyBitLen(v, j);
    var k := Dropped(f, Sticky(v, j), s);
    assert Dropped(f, v, s + j) == k + j;
    NearestSticky(v, j, k);
  }

  /** The same when the rounded value is scaled back up to whole units. */
  lemma RoundStickyUp(f: Format, neg: bool, v: nat, s: nat, j: nat)
    requires Pow2(j) <= v && s <= j
    requires BitLen(Sticky(v, j)) >= f.prec + 2
    ensures Round(f, neg, Sticky(v, j) * Pow2(j - s), 0) == Round(f, neg, v, s)
  {
    hide Nearest, Pow2, BitLen, Sticky;
    StickyBitLen(v, j);
    var w := Sticky(v, j);
    BitLenScale(w, j - s);
    var k := BitLen(w) - f.prec;
    assert Dropped(f, w * Pow2(j - s), 0) == k + (j - s);
    assert Dropped(f, v, s) == k + j;
    NearestScale(w, j - s, k);
    NearestSticky(v, j, k);
  }

  // ------------------------------------------- what Round means: nearest, ties to even

  function Dist(a: int, b: int): nat { if a <= b then b - a else a - b }

  /** A multiple of 2^k that lies outside the open grid cell of v is no closer than Nearest. */
  lemma NearestClosest(v: nat, k: nat, q: nat, r: nat, g: nat)
    requires r < Pow2(k) && v == q * Pow2(k) + r
    requires g <= q * Pow2(k) || (q + 1) * Pow2(k) <= g
    ensures Dist(Nearest(v, k) * Pow2(k), v) <= Dist(g, v)
    ensures Dist(Nearest(v, k) * Pow2(k), v) == Dist(g, v) ==>
              g == Nearest(v, k) * Pow2(k) || Nearest(v, k) % 2 == 0
  {
    hide Nearest, Pow2;
    NearestOf(v, k, q, r);
    Distribute(q, 1, Pow2(k));
  }

  /** No magnitude of the format lies strictly inside the grid cell of v. */
  lemma GridCell(f: Format, v: nat, s: nat, d: nat, q: nat, r: nat)
    requires Fits(f, d) && f.prec > 0
    requires r < Pow2(Dropped(f, v, s)) && v == q * Pow2(Dropped(f, v, s)) + r
    ensures d * Pow2(s) <= q * Pow2(Dropped(f, v, s)) || (q + 1) * Pow2(Dropped(f, v, s)) <= d * Pow2(s)
  {
    hide Pow2, BitLen;
    var k := Dropped(f, v, s);
    var g := d * Pow2(s);
    if q * Pow2(k) < g < (q + 1) * Pow2(k) {
      var c: nat;
      if k == s {
        c := d;
      } else {
        var n := BitLen(v);
        CellRange(v, q, r, f.prec, k);
        assert d != 0 by { assert 0 * Pow2(s) == 0; }
        BitLenUnique(g, n);
        BitLenScale(d, s);
        c := GridMultiple(d, s, k - s);
      }
      Between(q, c, Pow2(k));
      assert false;
    }
  }

  lemma GridMultiple(d: nat, s: nat, j: nat) returns (c: nat)
    requires d % Pow2(j) == 0
    ensures d * Pow2(s) == c * Pow2(s + j)
  {
    hide *;
    var (h, t) := Split(d, j);
    DivModUnique(d, Pow2(j), h, t);
    c := h;
    Pow2Add(s, j);
    Regroup(h, 0, 0, Pow2(s), Pow2(j));
  }

  lemma Between(q: int, c: int, p: nat)
    ensures !(q * p < c * p < (q + 1) * p)
  {
    if c <= q { MulMono(c, q, p); } else { MulMono(q + 1, c, p); }
  }

  /** When bits are dropped for precision, the whole grid cell of v has v's bit length. */
  lemma CellRange(v: nat, q: nat, r: nat, p: nat, k: nat)
    requires p > 0 && BitLen(v) == k + p && r < Pow2(k) && v == q * Pow2(k) + r
    ensures Pow2(p - 1) <= q < Pow2(p)
    ensures Pow2(k + p - 1) <= q * Pow2(k) && (q + 1) * Pow2(k) <= Pow2(k + p)
  {
    hide *;
    assert v > 0 by { BitLenZero(); }
    BitLenRange(v);
    assert k + p == p + k && k + p - 1 == p - 1 + k;
    QuotientRange(v, q, r, p, k);
    Pow2Add(p - 1, k);
    Pow2Add(p, k);
    MulMono(Pow2(p - 1), q, Pow2(k));
    MulMono(q + 1, Pow2(p), Pow2(k));
  }

  /** Round picks the closest magnitude of the format, and an even one on a tie. */
  lemma RoundIsNearest(f: Format, v: nat, s: nat, d: nat)
    requires Fits(f, d) && f.prec > 0
    ensures Dist(RoundMag(f, v, s) * Pow2(s), v) <= Dist(d * Pow2(s), v)
    ensures Dist(RoundMag(f, v, s) * Pow2(s), v) == Dist(d * Pow2(s), v) && d != RoundMag(f, v, s) ==>
              Nearest(v, Dropped(f, v, s)) % 2 == 0
  {
    hide Pow2, Nearest, BitLen;
    var k := Dropped(f, v, s);
    var (q, r) := Split(v, k);
    GridCell(f, v, s, d, q, r);
    NearestClosest(v, k, q, r, d * Pow2(s));
    var m := Nearest(v, k);
    assert RoundMag(f, v, s) * Pow2(s) == m * Pow2(k) by {
      Pow2Add(k - s, s);
      MulAssoc(m, Pow2(k - s), Pow2(s));
    }
    var x := RoundMag(f, v, s);
    if x < d { MulStrict(x, d, Pow2(s)); }
    if d < x { MulStrict(d, x, Pow2(s)); }
  }

  lemma NearestRange(v: nat, k: nat, q: nat, r: nat, p: nat)
    requires r < Pow2(k) && v == q * Pow2(k) + r && q < Pow2(p)
    ensures Nearest(v, k) <= Pow2(p)
  {
    hide *;
    NearestOf(v, k, q, r);
  }

  /** A product of at most 2^p and a power of two fits. */
  lemma FitsScaled(f: Format, m: nat, j: nat)
    requires f.prec > 0 && m <= Pow2(f.prec)
    ensures Fits(f, m * Pow2(j))
  {
    hide Pow2, BitLen;
    if m == 0 {
      assert m * Pow2(j) == 0;
      BitLenZero();
    } else {
      BitLenScale(m, j);
      BitLenRange(m);
      var (n, p) := (BitLen(m), f.prec);
      if n > p {
        if p + 1 < n { Pow2Mono(p + 1, n - 1); Pow2Mono(p, p + 1); assert false; }
        assert m == Pow2(p);
        Pow2Add(p, j);
        Pow2Add(p - 1, j + 1);
        DivModUnique(m * Pow2(j), Pow2(j + 1), Pow2(p - 1), 0);
      } else if n + j > p {
        var t: nat := n + j - p;
        Pow2Add(j - t, t);
        MulAssoc(m, Pow2(j - t), Pow2(t));
        DivModUnique(m * Pow2(j), Pow2(t), m * Pow2(j - t), 0);
      }
    }
  }

  lemma BitLenZero()
    ensures BitLen(0) == 0
  {
  }

  /** The result of rounding is a datum of the format. */
  lemma RoundIsValue(f: Format, neg: bool, v: nat, s: nat)
    requires f.prec > 0
    ensures IsValue(f, Round(f, neg, v, s))
    ensures Fits(f, RoundMag(f, v, s))
  {
    hide Pow2, BitLen, Nearest, Fits;
    var k := Dropped(f, v, s);
    var (q, r) := Split(v, k);
    assert q < Pow2(f.prec) by { DroppedRange(f, v, s, q, r); }
    NearestRange(v, k, q, r, f.prec);
    FitsScaled(f, Nearest(v, k), k - s);
  }

  lemma DroppedRange(f: Format, v: nat, s: nat, q: nat, r: nat)
    requires r < Pow2(Dropped(f, v, s)) && v == q * Pow2(Dropped(f, v, s)) + r
    ensures q < Pow2(f.prec)
  {
    hide Pow2, BitLen;
    var k := Dropped(f, v, s);
    if Pow2(f.prec) <= q {
      MulMono(Pow2(f.prec), q, Pow2(k));
      Pow2Add(f.prec, k);
      if v == 0 { assert false; }
      BitLenRange(v);
      Pow2Mono(BitLen(v), f.prec + k);
      assert false;
    }
  }

  /** A value below half a unit rounds to zero. */
  lemma TinyRounds(f: Format, neg: bool, v: nat, s: nat)
    requires f.prec > 0 && 2 * v < Pow2(s)
    ensures Round(f, neg, v, s) == Fin(neg, 0)
  {
    hide Pow2, BitLen, Nearest;
    if v == 0 {
      ZeroRounds(f, neg, s);
    } else {
      BitLenRange(v);
      if BitLen(v) > s { Pow2Mono(s, BitLen(v) - 1); assert false; }
      NearestOf(v, s, 0, v);
      assert 0 * Pow2(s - s) == 0;
    }
  }

  lemma RoundMagBound(f: Format, v: nat, s: nat, t: nat)
    requires f.prec > 0 && v < Pow2(s + t)
    ensures RoundMag(f, v, s) <= Pow2(t)
  {
    hide Pow2, BitLen, Nearest;
    var k := Dropped(f, v, s);
    var (q, r) := Split(v, k);
    if k == s {
      Pow2Add(s, t);
      if Pow2(t) <= q { MulMono(Pow2(t), q, Pow2(s)); assert false; }
      NearestRange(v, k, q, r, t);
      Pow2Zero();
    } else {
      DroppedRange(f, v, s, q, r);
      NearestRange(v, k, q, r, f.prec);
      assert v > 0 by { BitLenZero(); }
      BitLenRange(v);
      if s + t < BitLen(v) { Pow2Mono(s + t, BitLen(v) - 1); assert false; }
      Pow2Add(f.prec, k - s);
      MulMono(Nearest(v, k), Pow2(f.prec), Pow2(k - s));
      Pow2Mono(f.prec + (k - s), t);
    }
  }

  // ------------------------------------------------------------------ operations

  function Xor(a: bool, b: bool): bool { a != b }

  function Mul(f: Format, a: Fp, b: Fp): Fp {
    match (a, b)
    case (Fin(s, m), Fin(t, n)) => Round(f, Xor(s, t), m * n, f.low)
    case (Inf(s), Inf(t)) => Inf(Xor(s, t))
    case (Inf(s), Fin(t, n)) => if n == 0 then NaN else Inf(Xor(s, t))
    case (Fin(s, m), Inf(t)) => if m == 0 then NaN else Inf(Xor(s, t))
    case (NaN, _) => NaN
    case (_, NaN) => NaN
  }

  /** The signed number of least subnormals of a finite datum. */
  function Signed(a: Fp): int
    requires a.Fin?
  {
    if a.neg then -(a.mag as int) else a.mag
  }

  function Abs(i: int): nat { if i < 0 then -i else i }

  function Add(f: Format, a: Fp, b: Fp): Fp {
    match (a, b)
    case (Fin(s, _), Fin(t, _)) =>
      var sum := Signed(a) + Signed(b);
      Round(f, if sum == 0 then s && t else sum < 0, Abs(sum), 0)
    case (Inf(s), Inf(t)) => if s == t then a else NaN
    case (Inf(_), Fin(_, _)) => a
    case (Fin(_, _), Inf(_)) => b
    case (NaN, _) => NaN
    case (_, NaN) => NaN
  }

  function Negate(a: Fp): Fp {
    match a
    case Fin(s, m) => Fin(!s, m)
    case Inf(s) => Inf(!s)
    case NaN => NaN
  }

  function Sub(f: Format, a: Fp, b: Fp): Fp { Add(f, a, Negate(b)) }

  /** Multiplication commutes, a sign moves out of it, and an infinity absorbs every nonzero number. */
  lemma MulLaws(f: Format, a: Fp, b: Fp)
    ensures Mul(f, a, b) == Mul(f, b, a) && Mul(f, Negate(a), b) == Negate(Mul(f, a, b))
    ensures a.NaN? ==> Mul(f, a, b) == NaN
    ensures a == Inf(false) && (b == Inf(false) || (b.Fin? && !b.neg && b.mag > 0)) ==> Mul(f, a, b) == Inf(false)
    ensures a.Inf? && b.Fin? && b.mag == 0 ==> Mul(f, a, b) == NaN
  {
    if a.Fin? && b.Fin? { assert a.mag * b.mag == b.mag * a.mag; }
  }

  /** Addition commutes; an infinity absorbs every number, and the opposite infinity makes it invalid. */
  lemma AddLaws(f: Format, a: Fp, b: Fp)
    ensures Add(f, a, b) == Add(f, b, a)
    ensures a.NaN? ==> Add(f, a, b) == NaN
    ensures a.Inf? && !b.NaN? ==> Add(f, a, b) == if b == Negate(a) then NaN else a
  {
  }

  /** Conversion of an integer to the format. */
  function FromInt(f: Format, i: int): Fp { RoundAt(f, i < 0, Abs(i), 0) }

  /** Zero converts to the positive zero, and a negative integer to the negative of its magnitude. */
  lemma FromIntSigns(f: Format, n: nat)
    ensures FromInt(f, 0) == Fin(false, 0)
    ensures n > 0 ==> FromInt(f, -(n as int)) == Negate(FromInt(f, n))
  {
    hide Pow2, BitLen, Nearest;
    assert 0 * Pow2(f.low) == 0;
    ZeroRounds(f, false, 0);
  }

  /** Conversion between formats. */
  function Convert(from: Format, to: Format, a: Fp): Fp {
    if a.Fin? then RoundAt(to, a.neg, a.mag, -(from.low as int)) else a
  }

  /** The constant 2^k. */
  function Power(f: Format, k: int): Fp
    requires k + f.low >= 0
  {
    Fin(false, Pow2(k + f.low))
  }

  /** Multiplying by 2^k or -2^k is one rounding of the scaled value. */
  lemma MulSignedPower(f: Format, a: Fp, neg: bool, k: int)
    requires a.Fin? && k + f.low >= 0
    ensures Mul(f, a, Fin(neg, Pow2(k + f.low))) == RoundAt(f, Xor(a.neg, neg), a.mag, k - f.low)
  {
    hide Pow2, Round;
    var s := Xor(a.neg, neg);
    if k >= 0 {
      Pow2Add(k, f.low);
      MulAssoc(a.mag, Pow2(k), Pow2(f.low));
      RoundScale(f, s, a.mag * Pow2(k), 0, f.low);
    } else {
      RoundScale(f, s, a.mag, -k, k + f.low);
    }
  }

  lemma MulPower(f: Format, a: Fp, k: int)
    requires a.Fin? && k + f.low >= 0
    ensures Mul(f, a, Power(f, k)) == RoundAt(f, a.neg, a.mag, k - f.low)
  {
    hide Pow2, Round, Mul, RoundAt;
    MulSignedPower(f, a, false, k);
  }

  lemma FitsUp(f: Format, m: nat, j: nat)
    requires Fits(f, m)
    ensures Fits(f, m * Pow2(j))
  {
    hide Pow2, BitLen;
    if m == 0 {
      assert m * Pow2(j) == 0;
    } else {
      BitLenScale(m, j);
      var n := BitLen(m);
      if n > f.prec {
        Pow2Add(n - f.prec, j);
        DivModScale(m, Pow2(n - f.prec), Pow2(j));
        assert 0 * Pow2(j) == 0;
      } else if n + j > f.prec {
        var t: nat := n + j - f.prec;
        Pow2Add(j - t, t);
        MulAssoc(m, Pow2(j - t), Pow2(t));
        DivModUnique(m * Pow2(j), Pow2(t), m * Pow2(j - t), 0);
      }
    }
  }

  // ---------------------------------------------------------------- bit patterns

  /** Widths of the fraction and exponent fields of a bit pattern. */
  datatype Layout = Layout(frac: nat, exp: nat)

  const DOUBLE_BITS := Layout(52, 11)
  const FLOAT_BITS := Layout(23, 8)

  function Fraction(l: Layout, b: nat): nat { b % Pow2(l.frac) }
  function Exponent(l: Layout, b: nat): nat { Shr(b, l.frac) % Pow2(l.exp) }
  predicate Negative(l: Layout, b: nat) { Shr(b, l.frac + l.exp) % 2 == 1 }
  predicate Finite(l: Layout, b: nat) { Exponent(l, b) != Pow2(l.exp) - 1 }

  /** The magnitude of a finite bit pattern in least subnormals. */
  function Magnitude(l: Layout, b: nat): nat {
    var e := Exponent(l, b);
    if e == 0 then Fraction(l, b) else (Pow2(l.frac) + Fraction(l, b)) * Pow2(e - 1)
  }

  function Decode(l: Layout, b: nat): Fp {
    if Finite(l, b) then Fin(Negative(l, b), Magnitude(l, b))
    else if Fraction(l, b) == 0 then Inf(Negative(l, b))
    else NaN
  }

  /** The fields of an assembled pattern. */
  lemma FieldsOf(l: Layout, s: nat, e: nat, m: nat)
    requires s <= 1 && e < Pow2(l.exp) && m < Pow2(l.frac)
    ensures var b := (s * Pow2(l.exp) + e) * Pow2(l.frac) + m;
            Fraction(l, b) == m && Exponent(l, b) == e && (Negative(l, b) <==> s == 1)
  {
    hide Pow2;
    var (p, w) := (Pow2(l.frac), Pow2(l.exp));
    var h := s * w + e;
    var b := h * p + m;
    DivModUnique(b, p, h, m);
    DivModUnique(h, w, s, e);
    Pow2Add(l.frac, l.exp);
    DivModTwice(b, p, w);
  }

  /** The bit pattern of a finite datum. */
  function Encode(l: Layout, a: Fp): nat
    requires a.Fin?
  {
    var e := if a.mag < Pow2(l.frac) then 0 else Above(BitLen(a.mag), l.frac);
    var m := if e == 0 then a.mag else Shr(a.mag, e - 1) % Pow2(l.frac);
    Packed(Bool(a.neg), e, m, Pow2(l.exp), Pow2(l.frac))
  }

  /** Three fields in one word; w and p are the sizes of the lower two. */
  function Packed(s: nat, e: nat, m: nat, w: nat, p: nat): nat { (s * w + e) * p + m }

  function Above(a: nat, b: nat): nat { if a < b then 0 else a - b }

  /** Every finite datum of the format survives the trip through its bit pattern. */
  lemma DecodeEncode(l: Layout, a: Fp)
    requires a.Fin? && Fits(Format(l.frac + 1, 0, 0), a.mag)
    requires BitLen(a.mag) < l.frac + Pow2(l.exp) - 1 && l.exp > 0
    ensures Decode(l, Encode(l, a)) == a
  {
    hide Pow2, BitLen, Fraction, Exponent, Negative;
    var p := Pow2(l.frac);
    Pow2Mono(1, l.exp);
    Pow2One();
    if a.mag < p {
      FieldsOf(l, Bool(a.neg), 0, a.mag);
    } else {
      var e, q := Leading(l, a.mag);
      assert Shr(a.mag, e - 1) % p == q - p by {
        DivModUnique(a.mag, Pow2(e - 1), q, 0);
        DivModUnique(q, p, 1, q - p);
      }
      FieldsOf(l, Bool(a.neg), e, q - p);
    }
  }

  /** A magnitude above the subnormals is a full significand times a power of two. */
  lemma Leading(l: Layout, m: nat) returns (e: nat, q: nat)
    requires Fits(Format(l.frac + 1, 0, 0), m) && Pow2(l.frac) <= m
    ensures e > 0 && e == BitLen(m) - l.frac
    ensures m == q * Pow2(e - 1) && Pow2(l.frac) <= q < 2 * Pow2(l.frac)
  {
    hide Pow2, BitLen;
    var n := BitLen(m);
    BitLenRange(m);
    if n <= l.frac { Pow2Mono(n, l.frac); assert false; }
    e := n - l.frac;
    var (h, r) := Split(m, e - 1);
    q := h;
    QuotientRange(m, q, r, l.frac + 1, e - 1);
    Pow2Step1(l.frac);
    DivModUnique(m, Pow2(e - 1), q, r);
    if e == 1 { Pow2Zero(); }
  }

  // -------------------------------------------------- formats and their patterns

  /** The layout holds the format: one hidden bit, and exponents that are symmetric about the bias. */
  predicate Interchange(l: Layout, f: Format) {
    && l.exp >= 2 && f.prec == l.frac + 1 && f.top == Pow2(l.exp - 1) && f.low + 2 == f.top + l.frac
  }

  /** Every pattern of the layout is a datum of the format. */
  lemma PatternIsValue(l: Layout, f: Format, b: nat)
    requires Interchange(l, f)
    ensures IsValue(f, Decode(l, b)) && (Decode(l, b).Fin? <==> Finite(l, b))
  {
    hide Pow2, BitLen, Fits, Exponent, Fraction, Negative;
    if Finite(l, b) {
      FieldBounds(l, b);
      var (e, m, p) := (Exponent(l, b), Fraction(l, b), Pow2(l.frac));
      Pow2Step1(l.exp - 1);
      Pow2Step1(l.frac);
      if e == 0 {
        Pow2Zero();
        FitsScaled(f, m, 0);
        Pow2Mono(l.frac, f.top + f.low);
      } else {
        FitsScaled(f, p + m, e - 1);
        MulStrict(p + m, Pow2(f.prec), Pow2(e - 1));
        Pow2Add(f.prec, e - 1);
        Pow2Mono(f.prec + (e - 1), f.top + f.low);
      }
    }
  }

  lemma FieldBounds(l: Layout, b: nat)
    ensures Fraction(l, b) < Pow2(l.frac) && Exponent(l, b) < Pow2(l.exp)
    ensures Finite(l, b) ==> Exponent(l, b) + 1 < Pow2(l.exp)
  {
    hide Pow2;
  }

  /** Every finite datum of the format has a pattern. */
  lemma ValueHasPattern(l: Layout, f: Format, a: Fp)
    requires Interchange(l, f) && a.Fin? && IsValue(f, a)
    ensures Decode(l, Encode(l, a)) == a
  {
    hide Pow2, BitLen, Decode, Encode;
    Pow2Step1(l.exp - 1);
    if a.mag == 0 {
      BitLenZero();
    } else {
      BitLenRange(a.mag);
      if f.top + f.low < BitLen(a.mag) {
        Pow2Mono(f.top + f.low, BitLen(a.mag) - 1);
        assert false;
      }
    }
    DecodeEncode(l, a);
  }

  /** Exponent field e with a zero fraction is the number 2^(e - bias). */
  lemma PowerPattern(l: Layout, f: Format, e: nat)
    requires Interchange(l, f) && 1 <= e < 2 * f.top - 1
    ensures Decode(l, e * Pow2(l.frac)) == Power(f, e - (f.top - 1))
  {
    hide Pow2;
    Pow2Step1(l.exp - 1);
    FieldsOf(l, 0, e, 0);
    Pow2Add(l.frac, e - 1);
    assert 0 * Pow2(l.exp) == 0;
    assert (Pow2(l.frac) + 0) * Pow2(e - 1) == Pow2(e - (f.top - 1) + f.low);
  }

  /** An exponent field of ones is an infinity with a zero fraction, and otherwise not a number. */
  lemma SpecialPattern(l: Layout, s: nat, m: nat)
    requires s <= 1 && l.exp > 0 && m < Pow2(l.frac)
    ensures var b := (s * Pow2(l.exp) + (Pow2(l.exp) - 1)) * Pow2(l.frac) + m;
            b >= 0 && Decode(l, b) == if m == 0 then Inf(s == 1) else NaN
  {
    hide Pow2;
    FieldsOf(l, s, Pow2(l.exp) - 1, m);
  }

  /** The single-precision layout: 23 fraction bits and bias 0x7f, and its data are those of the format. */
  lemma FloatLayout(e: nat, b: nat)
    requires 1 <= e <= 0xfe
    ensures Interchange(FLOAT_BITS, FLOAT) && IsValue(FLOAT, Decode(FLOAT_BITS, b))
    ensures Decode(FLOAT_BITS, e * 0x80_0000) == Power(FLOAT, e - 0x7f)
  {
    hide Pow2, Decode, IsValue, Power;
    SmallPowers();
    PatternIsValue(FLOAT_BITS, FLOAT, b);
    PowerPattern(FLOAT_BITS, FLOAT, e);
  }

  /** The same for double precision, with 52 fraction bits and bias 0x3ff. */
  lemma DoubleLayout(e: nat, b: nat)
    requires 1 <= e <= 0x7fe
    ensures Interchange(DOUBLE_BITS, DOUBLE) && IsValue(DOUBLE, Decode(DOUBLE_BITS, b))
    ensures Decode(DOUBLE_BITS, e * 0x10_0000_0000_0000) == Power(DOUBLE, e - 0x3ff)
  {
    hide Pow2, Decode, IsValue, Power;
    SmallPowers();
    PatternIsValue(DOUBLE_BITS, DOUBLE, b);
    PowerPattern(DOUBLE_BITS, DOUBLE, e);
  }

  lemma SmallPowers()
    ensures Pow2(7) == 128 && Pow2(10) == 1024 && Pow2(23) == 0x80_0000 && Pow2(52) == 0x10_0000_0000_0000
  {
    hide Pow2;
    Pow2Zero();
    Pow2Step4(0);
    Pow2Step1(4);
    Pow2Step1(5);
    Pow2Step1(6);
    Pow2Step1(7);
    Pow2Step1(8);
    Pow2Step1(9);
    Pow2Step16(7);
    Pow2Of64();
    Pow2Step16(32);
    Pow2Step4(48);
  }
}
