/** Unsigned machine words as natural numbers with explicit wrap-around, and the
    rounding operators on integers that the floating-point code is specified with. */
module Bits {

  /** The number of distinct 64-bit words. */
  const B64: nat := 0x1_0000_0000_0000_0000
  const P63: nat := 0x8000_0000_0000_0000

  function Pow2(n: nat): (r: nat)
    ensures r > 0
  {
    if n == 0 then 1 else 2 * Pow2(n - 1)
  }

  lemma {:induction false} Pow2Add(a: nat, b: nat)
    ensures Pow2(a + b) == Pow2(a) * Pow2(b)
  {
    if a == 0 {
    } else {
      Pow2Add(a - 1, b);
      MulAssoc(2, Pow2(a - 1), Pow2(b));
    }
  }

  lemma {:induction false} Pow2Mono(a: nat, b: nat)
    requires a <= b
    ensures Pow2(a) <= Pow2(b)
    ensures a < b ==> 2 * Pow2(a) <= Pow2(b)
    decreases b
  {
    if a < b { Pow2Mono(a, b - 1); }
  }

  lemma Pow2Zero()
    ensures Pow2(0) == 1
  {
  }

  lemma Pow2One()
    ensures Pow2(1) == 2
  {
  }

  lemma Pow2Step1(n: nat)
    ensures Pow2(n + 1) == 2 * Pow2(n)
  {
  }

  lemma Pow2Of64()
    ensures Pow2(32) == 0x1_0000_0000
    ensures Pow2(64) == B64
  {
    assert Pow2(0) == 1;
    Pow2Step16(0);
    Pow2Step16(16);
    Pow2Step16(32);
    Pow2Step16(48);
  }

  lemma Pow2Step16(n: nat)
    ensures Pow2(n + 16) == 0x1_0000 * Pow2(n)
  {
    assert Pow2(n + 4) == 16 * Pow2(n) by { Pow2Step4(n); }
    Pow2Step4(n + 4);
    Pow2Step4(n + 8);
    Pow2Step4(n + 12);
  }

  lemma Pow2Step4(n: nat)
    ensures Pow2(n + 4) == 16 * Pow2(n)
  {
    assert Pow2(n + 2) == 4 * Pow2(n);
    assert Pow2(n + 3) == 2 * Pow2(n + 2);
  }

  // ---------------------------------------------------------------- arithmetic

  lemma MulAssoc(a: int, b: int, c: int)
    ensures a * b * c == a * (b * c)
  {
  }

  lemma MulMono(a: int, b: int, c: int)
    requires a <= b && 0 <= c
    ensures a * c <= b * c
  {
  }

  lemma MulStrict(a: int, b: int, c: int)
    requires a < b && 0 < c
    ensures a * c < b * c
    ensures a * c + c <= b * c
  {
    MulMono(a + 1, b, c);
  }

  lemma MulPositive(a: nat, b: nat)
    requires 0 < a && 0 < b
    ensures 0 < a * b && a <= a * b && b <= a * b
  {
    MulMono(1, a, b);
    MulMono(1, b, a);
  }

  /** Quotient and remainder are the only pair with the defining equation. */
  lemma DivModUnique(v: int, d: nat, q: int, r: int)
    requires 0 < d && 0 <= r < d && v == q * d + r
    ensures v / d == q && v % d == r
  {
    var q', r' := v / d, v % d;
    assert v == q' * d + r';
    if q < q' {
      MulStrict(q, q', d);
      assert false;
    }
    if q' < q {
      MulStrict(q', q, d);
      assert false;
    }
  }

  lemma DivModSplit(v: int, d: nat)
    requires 0 < d
    ensures v == v / d * d + v % d
    ensures 0 <= v % d < d
    ensures 0 <= v ==> 0 <= v / d
  {
    var q := v / d;
    assert v == q * d + v % d;
    if 0 <= v && q < 0 {
      MulMono(q, -1, d);
      assert false;
    }
  }

  /** Quotient of naturals. */
  function Div(v: nat, d: nat): nat
    requires 0 < d
  {
    DivModSplit(v, d);
    v / d
  }

  lemma Regroup(h: int, t: int, r: int, a: int, b: int)
    ensures (h * b + t) * a + r == h * (a * b) + (t * a + r)
  {
    assert (h * b + t) * a == h * b * a + t * a;
    MulAssoc(h, b, a);
  }

  lemma DigitBound(t: int, r: int, a: int, b: int)
    requires 0 <= t < b && 0 <= r < a
    ensures 0 <= t * a + r < a * b
  {
    MulStrict(t, b, a);
    MulMono(0, t, a);
  }

  /** Dividing by a product is dividing twice. */
  lemma DivModTwice(v: nat, a: nat, b: nat)
    requires 0 < a && 0 < b
    ensures 0 < a * b
    ensures v / (a * b) == v / a / b
    ensures v % (a * b) == v / a % b * a + v % a
  {
    MulPositive(a, b);
    var (q, r) := (v / a, v % a);
    assert v == q * a + r && 0 <= r < a && 0 <= q by { DivModSplit(v, a); }
    var (h, t) := (q / b, q % b);
    assert q == h * b + t && 0 <= t < b by { DivModSplit(q, b); }
    Regroup(h, t, r, a, b);
    DigitBound(t, r, a, b);
    var (d, s) := (a * b, t * a + r);
    DivModUnique(v, d, h, s);
  }

  /** Scaling dividend and divisor by the same factor scales only the remainder. */
  lemma DivModScale(v: nat, d: nat, c: nat)
    requires 0 < d && 0 < c
    ensures 0 < d * c
    ensures v * c / (d * c) == v / d
    ensures v * c % (d * c) == v % d * c
  {
    MulPositive(d, c);
    DivModSplit(v, d);
    var (q, r) := (v / d, v % d);
    assert v * c == q * (d * c) + r * c by {
      assert v * c == (q * d + r) * c == q * d * c + r * c;
      MulAssoc(q, d, c);
    }
    MulStrict(r, d, c);
    DivModUnique(v * c, d * c, q, r * c);
  }

  // ------------------------------------------------------------------ words

  function Add64(a: nat, b: nat): nat { (a + b) % B64 }
  function Sub64(a: nat, b: nat): nat { (a - b) % B64 }
  function Mul64(a: nat, b: nat): nat { (a * b) % B64 }
  function Shl64(a: nat, k: nat): nat { (a * Pow2(k)) % B64 }
  function Shr(a: nat, k: nat): nat { Div(a, Pow2(k)) }
  function Bool(b: bool): nat { if b then 1 else 0 }

  lemma ShrOf(v: nat, k: nat, q: nat, r: nat)
    requires r < Pow2(k) && v == q * Pow2(k) + r
    ensures Shr(v, k) == q
  {
    hide Pow2;
    DivModUnique(v, Pow2(k), q, r);
  }

  /** Bitwise or. */
  function Or(a: nat, b: nat): nat
    decreases a + b
  {
    if a == 0 then b
    else if b == 0 then a
    else 2 * Or(a / 2, b / 2) + (if a % 2 == 1 || b % 2 == 1 then 1 else 0)
  }

  /** Bit k of a word. */
  predicate Bit(a: nat, k: nat) { if k == 0 then a % 2 == 1 else Bit(a / 2, k - 1) }

  /** A bit of the or is set when it is set in either word. */
  lemma {:induction false} OrBits(a: nat, b: nat, k: nat)
    ensures Bit(Or(a, b), k) <==> Bit(a, k) || Bit(b, k)
  {
    if a == 0 {
      ZeroBits(k);
    } else if b == 0 {
      ZeroBits(k);
    } else if k > 0 {
      OrBits(a / 2, b / 2, k - 1);
    }
  }

  lemma {:induction false} ZeroBits(k: nat)
    ensures !Bit(0, k)
  {
    if k > 0 { ZeroBits(k - 1); }
  }

  /** Words that share no bit position are added by or. */
  lemma {:induction false} OrDisjoint(a: nat, b: nat, k: nat)
    requires a % Pow2(k) == 0 && b < Pow2(k)
    ensures Or(a, b) == a + b
    decreases a + b
  {
    if a == 0 || b == 0 {
    } else {
      assert k > 0;
      DivModTwice(a, 2, Pow2(k - 1));
      OrDisjoint(a / 2, b / 2, k - 1);
    }
  }

  function MakeOdd(a: nat): nat { a + 1 - a % 2 }

  lemma OrBit(a: nat, set1: bool)
    ensures Or(a, Bool(set1)) == if set1 then MakeOdd(a) else a
  {
  }

  // ------------------------------------------------- rounding of integers

  /** v / 2^k rounded to odd: truncated, with the lowest bit set when anything was lost. */
  function Sticky(v: nat, k: nat): nat {
    if v % Pow2(k) == 0 then Div(v, Pow2(k)) else MakeOdd(Div(v, Pow2(k)))
  }

  /** v / 2^k rounded to the nearest integer, ties to even. */
  function Nearest(v: nat, k: nat): nat {
    var (q, r) := (Div(v, Pow2(k)), v % Pow2(k));
    if 2 * r < Pow2(k) || (2 * r == Pow2(k) && q % 2 == 0) then q else q + 1
  }

  /** Position just above the highest set bit. */
  function BitLen(v: nat): nat { if v == 0 then 0 else 1 + BitLen(v / 2) }

  lemma {:induction false} BitLenRange(v: nat)
    requires v > 0
    ensures BitLen(v) > 0
    ensures Pow2(BitLen(v) - 1) <= v < Pow2(BitLen(v))
  {
    if v > 1 { BitLenRange(v / 2); }
  }

  lemma BitLenUnique(v: nat, n: nat)
    requires n > 0 && Pow2(n - 1) <= v < Pow2(n)
    ensures BitLen(v) == n
  {
    BitLenRange(v);
    var l := BitLen(v);
    if n < l { Pow2Mono(n, l - 1); }
    if l < n { Pow2Mono(l, n - 1); }
  }
}
