/** Laws of round-to-odd (Bits.Sticky) and round-to-nearest-even (Bits.Nearest). */
module Rounding {
  import opened Bits

  lemma StickyOf(v: nat, k: nat, q: nat, r: nat)
    requires r < Pow2(k) && v == q * Pow2(k) + r
    ensures Sticky(v, k) == if r == 0 then q else MakeOdd(q)
  {
    DivModUnique(v, Pow2(k), q, r);
  }

  lemma NearestOf(v: nat, k: nat, q: nat, r: nat)
    requires r < Pow2(k) && v == q * Pow2(k) + r
    ensures Nearest(v, k) == if 2 * r < Pow2(k) || (2 * r == Pow2(k) && q % 2 == 0) then q else q + 1
  {
    DivModUnique(v, Pow2(k), q, r);
  }

  lemma Distribute(a: int, b: int, p: int)
    ensures (a + b) * p == a * p + b * p
    ensures (a - b) * p == a * p - b * p
  {
  }

  /** Quotient and remainder of v by 2^k, as naturals. */
  ghost function Split(v: nat, k: nat): (p: (nat, nat))
    ensures p.1 < Pow2(k) && v == p.0 * Pow2(k) + p.1
  {
    DivModSplit(v, Pow2(k));
    (Div(v, Pow2(k)), v % Pow2(k))
  }

  lemma MakeOddAdd(m: nat, q: nat)
    requires m % 2 == 0
    ensures MakeOdd(m + q) == m + MakeOdd(q)
  {
  }

  /** Adding an even integer commutes with rounding to odd. */
  lemma StickyAdd(m: nat, v: nat, k: nat)
    requires m % 2 == 0
    ensures Sticky(m * Pow2(k) + v, k) == m + Sticky(v, k)
  {
    hide *;
    var (q, r) := Split(v, k);
    StickyOf(v, k, q, r);
    Distribute(m, q, Pow2(k));
    MakeOddAdd(m, q);
    var sum, quotient := m * Pow2(k) + v, m + q;
    StickyOf(sum, k, quotient, r);
  }

  /** So does subtracting from one: round-to-odd is symmetric. */
  lemma StickySub(m: nat, v: nat, k: nat)
    requires m % 2 == 0 && v <= m * Pow2(k)
    ensures Sticky(v, k) <= m
    ensures Sticky(m * Pow2(k) - v, k) == m - Sticky(v, k)
  {
    hide Sticky, Pow2, MakeOdd;
    var (q, r) := Split(v, k);
    StickyOf(v, k, q, r);
    var q' := Complement(m, v, q, r, Pow2(k));
    StickyOf(m * Pow2(k) - v, k, q', if r == 0 then 0 else Pow2(k) - r);
    if r != 0 { MakeOddSub(m, q); }
  }

  lemma MakeOddSub(m: nat, q: nat)
    requires m % 2 == 0 && q < m
    ensures MakeOdd(q) <= m && MakeOdd(m - q - 1) == m - MakeOdd(q)
  {
  }

  lemma Complement(m: nat, v: nat, q: nat, r: nat, p: nat) returns (q': nat)
    requires r < p && v == q * p + r && v <= m * p
    ensures q' == if r == 0 then m - q else m - q - 1
    ensures m * p - v == q' * p + if r == 0 then 0 else p - r
  {
    if m < q { MulStrict(m, q, p); assert false; }
    assert r > 0 ==> m != q;
    q' := if r == 0 then m - q else m - q - 1;
    Distribute(m, q, p);
    Distribute(m - q, 1, p);
  }

  lemma StickyPositive(v: nat, k: nat)
    requires v > 0
    ensures Sticky(v, k) > 0
  {
    var (q, r) := Split(v, k);
    StickyOf(v, k, q, r);
  }

  lemma StickyBelow(v: nat, k: nat)
    requires 0 < v < Pow2(k)
    ensures Sticky(v, k) == 1
  {
    StickyOf(v, k, 0, v);
  }

  lemma StickyLarge(v: nat, k: nat)
    requires Sticky(v, k) > 1
    ensures Pow2(k) <= v
  {
    hide Sticky, Pow2;
    if v < Pow2(k) { StickyOf(v, k, 0, v); }
  }

  /** An exact multiple is not changed. */
  lemma StickyExact(q: nat, k: nat)
    ensures Sticky(q * Pow2(k), k) == q
  {
    StickyOf(q * Pow2(k), k, q, 0);
  }

  lemma StickyScale(v: nat, j: nat, k: nat)
    ensures Sticky(v * Pow2(j), j + k) == Sticky(v, k)
  {
    var (q, r) := Split(v, k);
    StickyOf(v, k, q, r);
    ScaleSplit(v, q, r, j, k);
    StickyOf(v * Pow2(j), j + k, q, r * Pow2(j));
  }

  lemma ScaleSplit(v: nat, q: nat, r: nat, j: nat, k: nat)
    requires r < Pow2(k) && v == q * Pow2(k) + r
    ensures r * Pow2(j) < Pow2(j + k)
    ensures v * Pow2(j) == q * Pow2(j + k) + r * Pow2(j)
    ensures r * Pow2(j) == 0 <==> r == 0
    ensures 2 * (r * Pow2(j)) < Pow2(j + k) <==> 2 * r < Pow2(k)
    ensures 2 * (r * Pow2(j)) == Pow2(j + k) <==> 2 * r == Pow2(k)
  {
    Pow2Add(j, k);
    Regroup(q, r, 0, Pow2(j), Pow2(k));
    ScaleCompare(r, Pow2(k), Pow2(j));
  }

  lemma ScaleCompare(r: nat, a: nat, b: nat)
    requires r < a && 0 < b
    ensures r * b < b * a
    ensures r * b == 0 <==> r == 0
    ensures 2 * (r * b) < b * a <==> 2 * r < a
    ensures 2 * (r * b) == b * a <==> 2 * r == a
  {
    assert a * b == b * a;
    MulStrict(r, a, b);
    assert 2 * r * b == 2 * (r * b) by { MulAssoc(2, r, b); }
    if 2 * r < a { MulStrict(2 * r, a, b); }
    if a < 2 * r { MulStrict(a, 2 * r, b); }
    if r > 0 { MulPositive(r, b); }
  }

  /** Setting the lowest bit changes neither the higher part nor the comparison with an even half. */
  lemma MakeOddParts(q: nat, h: nat, t: nat, k: nat)
    requires q == h * k + t && t < k && k % 2 == 0
    ensures MakeOdd(t) < k
    ensures MakeOdd(q) == h * k + MakeOdd(t)
  {
    assert k == 2 * (k / 2);
    assert h * k == 2 * (h * (k / 2));
  }

  /** The split of v by 2^(j+k) in terms of the split of its rounding by 2^k. */
  lemma StickySplit(v: nat, j: nat, k: nat)
      returns (h: nat, t: nat, r: nat, w: nat)
    requires k > 0
    ensures t < Pow2(k) && r < Pow2(j)
    ensures v == h * Pow2(j + k) + (t * Pow2(j) + r)
    ensures t * Pow2(j) + r < Pow2(j + k)
    ensures w == (if r == 0 then t else MakeOdd(t)) && w < Pow2(k)
    ensures Sticky(v, j) == h * Pow2(k) + w
  {
    var (q, r0) := Split(v, j);
    StickyOf(v, j, q, r0);
    var (h0, t0) := Split(q, k);
    Pow2Add(j, k);
    Regroup(h0, t0, r0, Pow2(j), Pow2(k));
    DigitBound(t0, r0, Pow2(j), Pow2(k));
    MakeOddParts(q, h0, t0, Pow2(k));
    h, t, r := h0, t0, r0;
    w := if r == 0 then t else MakeOdd(t);
  }

  /** Rounding to odd in two steps is rounding to odd once. */
  lemma StickyTwice(v: nat, j: nat, k: nat)
    ensures Sticky(Sticky(v, j), k) == Sticky(v, j + k)
  {
    if k == 0 {
      StickyOf(Sticky(v, j), 0, Sticky(v, j), 0);
    } else {
      var h, t, r, w := StickySplit(v, j, k);
      StickyOf(v, j + k, h, t * Pow2(j) + r);
      StickyOf(Sticky(v, j), k, h, w);
      if t > 0 { MulPositive(t, Pow2(j)); }
    }
  }

  /** A value rounded to odd with two spare bits rounds to nearest like the exact value. */
  lemma NearestSticky(v: nat, j: nat, k: nat)
    requires k >= 2
    ensures Nearest(Sticky(v, j), k) == Nearest(v, j + k)
  {
    var h, t, r, w := StickySplit(v, j, k);
    NearestOf(v, j + k, h, t * Pow2(j) + r);
    NearestOf(Sticky(v, j), k, h, w);
    Pow2Add(j, k);
    assert Pow2(k) == 2 * Pow2(k - 1) == 4 * Pow2(k - 2);
    HalfCompare(t, r, Pow2(j), 2 * Pow2(k - 2));
  }

  lemma HalfCompare(t: nat, r: nat, a: nat, half: nat)
    requires r < a
    ensures 2 * (t * a + r) < a * (2 * half) <==> t < half
    ensures 2 * (t * a + r) == a * (2 * half) <==> t == half && r == 0
  {
    assert a * (2 * half) == 2 * (half * a) by { MulAssoc(2, half, a); }
    if t < half { MulStrict(t, half, a); }
    if half < t { MulStrict(half, t, a); }
  }

  lemma NearestScale(v: nat, j: nat, k: nat)
    ensures Nearest(v * Pow2(j), j + k) == Nearest(v, k)
  {
    var (q, r) := Split(v, k);
    NearestOf(v, k, q, r);
    ScaleSplit(v, q, r, j, k);
    NearestOf(v * Pow2(j), j + k, q, r * Pow2(j));
  }

  lemma NearestExact(q: nat, k: nat)
    ensures Nearest(q * Pow2(k), k) == q
  {
    NearestOf(q * Pow2(k), k, q, 0);
  }

  lemma QuotientRange(v: nat, q: nat, r: nat, n: nat, j: nat)
    requires n > 0 && r < Pow2(j) && v == q * Pow2(j) + r
    requires Pow2(n + j - 1) <= v < Pow2(n + j)
    ensures Pow2(n - 1) <= q < Pow2(n)
  {
    hide *;
    Pow2Add(n - 1, j);
    Pow2Add(n, j);
    if q < Pow2(n - 1) { MulStrict(q, Pow2(n - 1), Pow2(j)); }
    if Pow2(n) <= q { MulMono(Pow2(n), q, Pow2(j)); }
  }

  lemma MakeOddRange(q: nat, n: nat)
    requires n > 0 && Pow2(n - 1) <= q < Pow2(n)
    ensures Pow2(n - 1) <= MakeOdd(q) < Pow2(n)
  {
    assert Pow2(n) == 2 * Pow2(n - 1);
  }
}
