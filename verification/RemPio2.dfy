/** The digit arithmetic of __rem_pio2_large: chunks of x * 2/pi are distilled into base-2^24
    digits, split into an integer n and a fraction, and the fraction is replaced by its
    distance to the next integer when it is at least one half. */
module RemPio2 {
  import opened Bits

  const B: nat := 0x100_0000

  /** B^n. */
  function Scale(n: nat): (r: nat)
    ensures r > 0
  {
    if n == 0 then 1 else B * Scale(n - 1)
  }

  /** The number with base-B digits s, least significant first. */
  function Value(s: seq<int>): int {
    if s == [] then 0 else Value(s[..|s| - 1]) + s[|s| - 1] * Scale(|s| - 1)
  }

  predicate IsDigit(d: int) { 0 <= d < B }

  predicate Digits(s: seq<int>) { forall i :: 0 <= i < |s| ==> IsDigit(s[i]) }

  lemma ValueSnoc(s: seq<int>, d: int)
    ensures Value(s + [d]) == Value(s) + d * Scale(|s|)
  {
    assert (s + [d])[..|s|] == s;
  }

  lemma {:induction false} ValueRange(s: seq<int>)
    requires Digits(s)
    ensures 0 <= Value(s) < Scale(|s|)
  {
    if s != [] {
      var n := |s| - 1;
      ValueRange(s[..n]);
      assert IsDigit(s[n]);
      MulMono(s[n], B - 1, Scale(n));
      MulMono(0, s[n], Scale(n));
    }
  }

  /** The sum of q[jz-k] * B^k for k up to i. */
  function Chunks(q: seq<int>, jz: nat, i: nat): int
    requires i <= jz < |q|
  {
    if i == 0 then q[jz] else Chunks(q, jz, i - 1) + q[jz - i] * Scale(i)
  }

  /** The chunks are the digits of one number, q[jz] the lowest and q[0] the highest. */
  lemma {:induction false} ChunksAreDigits(q: seq<int>, jz: nat, i: nat)
    requires i <= jz < |q|
    ensures Chunks(q, jz, i) == Value(seq(i + 1, k requires 0 <= k <= i => q[jz - k]))
  {
    hide Scale;
    var s := seq(i + 1, k requires 0 <= k <= i => q[jz - k]);
    if i == 0 {
      assert s == [] + [q[jz]];
      ValueSnoc([], q[jz]);
      EmptyValue([]);
    } else {
      ChunksAreDigits(q, jz, i - 1);
      var t := seq(i, k requires 0 <= k <= i - 1 => q[jz - k]);
      assert s == t + [q[jz - i]];
      ValueSnoc(t, q[jz - i]);
    }
  }

  /** Two chunks: the first one counts 2^24. */
  lemma TopChunk(a: int, b: int)
    ensures Chunks([a, b], 1, 1) == a * 0x100_0000 + b
  {
    assert Scale(1) == B * Scale(0);
  }

  /** Chunks are sums of a few products of 24-bit integers, so all arithmetic on them is exact. */
  predicate ChunkRange(q: seq<int>) {
    forall i :: 0 <= i < |q| ==> 0 <= q[i] < 0x10_0000_0000_0000
  }

  lemma CarryStep(v: int, z: int, c: int, i: nat)
    ensures v + z % B * Scale(i) + (c + z / B) * Scale(i + 1) == v + z * Scale(i) + c * Scale(i + 1)
  {
    hide Scale;
    var s := Scale(i);
    assert Scale(i + 1) == B * s by { ScaleStep(i); }
    assert z * s == (z / B * B + z % B) * s;
    assert (c + z / B) * (B * s) == c * (B * s) + z / B * (B * s);
    assert z / B * (B * s) == z / B * B * s by { MulAssoc(z / B, B, s); }
  }

  lemma ScaleStep(i: nat)
    ensures Scale(i + 1) == B * Scale(i)
  {
  }

  /** Distils q into digits, reversing; z is what is left above them. */
  method Distill(q: array<int>, iq: array<int>, jz: nat) returns (z: int)
    requires jz < q.Length && jz <= iq.Length && q != iq && ChunkRange(q[..])
    modifies iq
    ensures 0 <= z < 0x20_0000_0000_0000 && Digits(iq[..jz])
    ensures Chunks(q[..], jz, jz) == z * Scale(jz) + Value(iq[..jz])
    ensures var c := q[..];
            Value(seq(jz + 1, i requires 0 <= i <= jz => c[jz - i])) == z * Scale(jz) + Value(iq[..jz])
    ensures iq[jz..] == old(iq[jz..])
  {
    hide Scale, Value;
    ghost var c := q[..];
    var i, j := 0, jz;
    z := q[jz];
    EmptyValue(iq[..0]);
    while j > 0
      invariant i + j == jz && 0 <= z < 0x20_0000_0000_0000 && Digits(iq[..i]) && q[..] == c
      invariant Chunks(c, jz, i) == z * Scale(i) + Value(iq[..i])
      invariant iq[jz..] == old(iq[jz..])
    {
      ghost var before := iq[..i];
      var fw := z / B;
      iq[i] := z - B * fw;
      assert iq[..i + 1] == before + [z % B];
      ValueSnoc(before, z % B);
      CarryStep(Value(before), z, c[j - 1], i);
      z := q[j - 1] + fw;
      i, j := i + 1, j - 1;
    }
    ChunksAreDigits(c, jz, jz);
  }

  lemma EmptyValue(s: seq<int>)
    requires s == []
    ensures Value(s) == 0 && Scale(0) == 1
  {
  }

  // ------------------------------------------------------------ complement

  /** Weight of the digits: 1 counted in units of the lowest digit, cut by the q0 top bits. */
  function Limit(jz: nat, q0: int): nat
    requires 1 <= jz && q0 <= 2
  {
    if q0 <= 0 then Scale(jz) else Scale(jz - 1) * Pow2(24 - q0)
  }

  lemma ComplementStep(v: int, w: int, j: int, i: nat, carry: int)
    requires if carry == 0 then v == 0 && w == 0 else w == Scale(i) - v
    ensures carry == 0 ==> w + (B - j) * Scale(i) == Scale(i + 1) - (v + j * Scale(i))
    ensures carry != 0 ==> w + (B - 1 - j) * Scale(i) == Scale(i + 1) - (v + j * Scale(i))
  {
    hide Scale;
    ScaleStep(i);
    var s := Scale(i);
    assert (B - j) * s == B * s - j * s;
    assert (B - 1 - j) * s == B * s - s - j * s;
  }

  /** The loop that computes 1-q over all digits: B^jz minus the number, unless it is zero. */
  method ComplementDigits(iq: array<int>, jz: nat) returns (carry: int)
    requires jz <= iq.Length && Digits(iq[..jz])
    modifies iq
    ensures Digits(iq[..jz]) && carry in {0, 1}
    ensures carry == 0 <==> Value(old(iq[..jz])) == 0
    ensures carry == 0 ==> iq[..] == old(iq[..])
    ensures carry == 1 ==> Value(iq[..jz]) == Scale(jz) - Value(old(iq[..jz]))
    ensures iq[jz..] == old(iq[jz..])
  {
    hide Scale, Value;
    ghost var was := iq[..];
    carry := 0;
    EmptyValue(iq[..0]);
    for i := 0 to jz
      invariant carry in {0, 1} && Digits(iq[..i]) && iq[i..] == was[i..]
      invariant 0 <= Value(was[..i]) && (carry == 0 <==> Value(was[..i]) == 0)
      invariant carry == 0 ==> iq[..] == was
      invariant carry == 1 ==> Value(iq[..i]) == Scale(i) - Value(was[..i])
    {
      ghost var (v, before) := (Value(was[..i]), iq[..i]);
      var j := iq[i];
      assert j == iq[i..][0] == was[i] && IsDigit(was[i]) by { assert was[..jz][i] == was[i]; }
      assert was[..i + 1] == was[..i] + [j];
      ValueSnoc(was[..i], j);
      DigitWeight(j, i);
      ComplementStep(v, if carry == 0 then 0 else Value(before), j, i, carry);
      ghost var d := if carry == 0 then (if j == 0 then 0 else B - j) else B - 1 - j;
      if carry == 0 {
        if j != 0 {
          carry := 1;
          iq[i] := 0x100_0000 - j;
          ZeroPrefix(before, was[..i]);
        }
      } else {
        iq[i] := 0xff_ffff - j;
      }
      assert iq[..i + 1] == before + [d];
      ValueSnoc(before, d);
      assert iq[i + 1..] == was[i + 1..];
    }
    assert iq[..jz] == iq[..jz];
  }

  lemma ZeroPrefix(a: seq<int>, b: seq<int>)
    requires a == b
    ensures Value(a) == Value(b)
  {
  }

  lemma DigitWeight(j: int, i: nat)
    requires 0 <= j
    ensures 0 <= j * Scale(i) && (j * Scale(i) == 0 <==> j == 0)
  {
    hide Scale;
    if j > 0 { MulPositive(j, Scale(i)); }
  }

  lemma TopPower(q0: int)
    requires 0 < q0 <= 2
    ensures Pow2(24 - q0) == if q0 == 1 then 0x80_0000 else 0x40_0000
  {
    hide Pow2;
    Pow2Zero();
    Pow2Step16(0);
    Pow2Step4(16);
    Pow2Step1(20);
    Pow2Step1(21);
    Pow2Step1(22);
  }

  /** Replacing the top digit. */
  lemma ValueTop(s: seq<int>, d: int)
    requires s != []
    ensures Value(s[|s| - 1 := d]) == Value(s) + (d - s[|s| - 1]) * Scale(|s| - 1)
  {
    hide Scale;
    var n := |s| - 1;
    assert s[n := d][..n] == s[..n];
    assert (d - s[n]) * Scale(n) == d * Scale(n) - s[n] * Scale(n);
  }

  /** A complement of a number below the limit has all top bits set, and masking removes just them. */
  lemma MaskTop(s: seq<int>, v: int, p: nat)
    requires s != [] && Digits(s) && p in {0x80_0000, 0x40_0000}
    requires 0 < v <= Scale(|s| - 1) * p && Value(s) == Scale(|s|) - v
    ensures Value(s[|s| - 1 := s[|s| - 1] % p]) == Scale(|s| - 1) * p - v
  {
    hide Scale, Value;
    var n := |s| - 1;
    var (low, top, w) := (Value(s[..n]), s[n], Scale(n));
    ValueRange(s[..n]);
    assert IsDigit(top);
    ScaleStep(n);
    assert s[..n] + [top] == s;
    ValueSnoc(s[..n], top);
    TopIsLarge(low, top, w, v, p);
    ValueTop(s, top % p);
    assert (top % p - top) * w == (p - B) * w == p * w - B * w;
  }

  /** The top digit of a complement has all the bits above p set. */
  lemma TopIsLarge(low: int, top: int, w: nat, v: int, p: nat)
    requires IsDigit(top) && low < w && v <= w * p && low + top * w == B * w - v && p in {0x80_0000, 0x40_0000}
    ensures top % p == top - (B - p)
  {
    if top < B - p {
      assert (top + 1) * w == top * w + w && (B - p) * w == B * w - p * w;
      MulMono(top + 1, B - p, w);
      assert false;
    }
    DivModUnique(top, p, B / p - 1, top - (B - p));
  }

  /** The whole replacement of a nonzero fraction q by 1 - q. */
  method OneMinus(iq: array<int>, jz: nat, q0: int) returns (carry: int)
    requires 1 <= jz <= iq.Length && q0 <= 2 && Digits(iq[..jz])
    requires q0 > 0 ==> 0 < Value(iq[..jz]) < Limit(jz, q0)
    modifies iq
    ensures Digits(iq[..jz]) && carry in {0, 1}
    ensures carry == 0 <==> Value(old(iq[..jz])) == 0
    ensures carry == 0 ==> iq[..] == old(iq[..])
    ensures carry == 1 ==> Value(iq[..jz]) == Limit(jz, q0) - Value(old(iq[..jz]))
    ensures iq[jz..] == old(iq[jz..])
  {
    hide Scale, Value;
    ghost var v := Value(iq[..jz]);
    carry := ComplementDigits(iq, jz);
    if q0 > 0 {
      TopPower(q0);
      ghost var s := iq[..jz];
      var m := if q0 == 1 then 0x80_0000 else 0x40_0000;
      MaskTop(s, v, m);
      assert IsDigit(s[jz - 1]);
      iq[jz - 1] := iq[jz - 1] % m;
      assert iq[..jz] == s[jz - 1 := s[jz - 1] % m];
    }
  }

  // ------------------------------------------------------ integer and fraction

  /** The number 1, in units of the lowest digit. */
  function One(jz: nat, q0: int): nat
    requires 1 <= jz && q0 <= 2
  {
    if q0 < 0 then Scale(jz) * Pow2(-q0) else Limit(jz, q0)
  }

  /** In these units a value v stands for v * 2^q0 / B^jz, so this many of them are one. */
  lemma OneMeans(jz: nat, q0: int)
    requires 1 <= jz && q0 <= 2
    ensures q0 >= 0 ==> One(jz, q0) * Pow2(q0) == Pow2(24 * jz)
    ensures q0 < 0 ==> One(jz, q0) == Pow2(24 * jz) * Pow2(-q0)
  {
    hide Scale, Pow2;
    ScaleIsPower(jz);
    if q0 > 0 {
      ScaleIsPower(jz - 1);
      Pow2Add(24 * (jz - 1), 24 - q0);
      Pow2Add(24 * (jz - 1) + (24 - q0), q0);
    } else if q0 == 0 {
      Pow2Zero();
    }
  }

  lemma {:induction false} ScaleIsPower(n: nat)
    ensures Scale(n) == Pow2(24 * n)
  {
    hide Pow2;
    if n == 0 {
      Pow2Zero();
    } else {
      ScaleIsPower(n - 1);
      Pow2Add(24 * (n - 1), 24);
      Pow2Step16(0);
      Pow2Step4(16);
      Pow2Step4(20);
      Pow2Zero();
    }
  }

  /** The fraction below one: f counts units of 2^q0 when q0 is negative. */
  function Fraction(f: int, s: seq<int>): int { f * Scale(|s|) + Value(s) }

  lemma TopBits(s: seq<int>, q0: int, p: nat)
    requires s != [] && Digits(s) && 0 < q0 <= 2 && p == Pow2(24 - q0)
    ensures var i := s[|s| - 1] / p; var t := s[|s| - 1 := s[|s| - 1] - i * p];
            && Digits(t) && 0 <= Value(t) < Limit(|s|, q0)
            && Value(s) == i * Limit(|s|, q0) + Value(t)
            && (2 * Value(t) >= Limit(|s|, q0) <==> t[|s| - 1] / (p / 2) > 0)
  {
    hide Scale, Pow2, Value;
    TopPower(q0);
    var n := |s| - 1;
    var (top, w) := (s[n], Scale(n));
    assert IsDigit(top);
    var i := top / p;
    var d := top - i * p;
    assert 0 <= d < p;
    var t := s[n := d];
    ValueTop(s, d);
    assert (d - top) * w == -(i * (w * p)) by { Scaling(i, p, w); }
    ValueRange(t[..n]);
    assert t[..n] + [d] == t;
    ValueSnoc(t[..n], d);
    MulMono(d + 1, p, w);
    assert (d + 1) * w == d * w + w;
    MulMono(0, d, w);
    HalfTop(Value(t[..n]), d, p / 2, w);
  }

  lemma Scaling(i: int, p: int, w: int)
    ensures (-(i * p)) * w == -(i * (w * p))
  {
    MulAssoc(i, p, w);
  }

  lemma HalfTop(low: int, d: int, h: nat, w: nat)
    requires 0 <= low < w && 0 < h && 0 <= d < 2 * h
    ensures 2 * (low + d * w) >= w * (2 * h) <==> d / h > 0
  {
    assert w * (2 * h) == 2 * (h * w);
    if d < h {
      MulMono(d + 1, h, w);
      assert (d + 1) * w == d * w + w;
      DivModUnique(d, h, 0, d);
    } else {
      MulMono(h, d, w);
      DivModUnique(d, h, 1, d - h);
    }
  }

  /** Integer part modulo 8 when a whole number of units makes up one: u units, z of them. */
  lemma WholeUnits(z: nat, u: nat, s: nat)
    requires 0 < u && 0 < s
    ensures var (k, t) := (z / (8 * u), z % (8 * u));
            && 0 <= t / u < 8 && 0 <= t % u < u && 0 <= k
            && z * s == (8 * k + t / u) * (s * u) + t % u * s
  {
    var (k, t) := (z / (8 * u), z % (8 * u));
    DivModSplit(z, 8 * u);
    DivModSplit(t, u);
    var (n, f) := (t / u, t % u);
    if 8 <= n { MulMono(8, n, u); assert false; }
    assert z == (8 * k + n) * u + f by { assert (8 * k + n) * u == k * (8 * u) + n * u; }
    assert z * s == (8 * k + n) * u * s + f * s;
    MulAssoc(8 * k + n, u, s);
    assert u * s == s * u;
  }

  lemma HalfUnits(f: int, v: int, u: nat, s: nat)
    requires 0 <= f < u && 0 <= v < s && u % 2 == 0
    ensures 0 <= f * s + v < s * u
    ensures 2 * (f * s + v) >= s * u <==> 2 * f >= u
  {
    var h := u / 2;
    assert s * u == 2 * (h * s);
    MulMono(f + 1, u, s);
    assert (f + 1) * s == f * s + s;
    MulMono(0, f, s);
    if f < h { MulMono(f + 1, h, s); } else { MulMono(h, f, s); }
  }

  /** z * B^jz + v is 8k + n ones and the fraction f:s, and ih tells whether that is at least one half. */
  ghost predicate IsSplit(q0: int, z: nat, v: int, n: int, ih: int, k: int, f: int, s: seq<int>)
    requires 1 <= |s| && q0 <= 2
  {
    && z * Scale(|s|) + v == (8 * k + n) * One(|s|, q0) + Fraction(f, s)
    && 0 <= Fraction(f, s) < One(|s|, q0)
    && (ih > 0 <==> 2 * Fraction(f, s) >= One(|s|, q0))
  }

  lemma SplitNegative(q0: int, z: nat, s: seq<int>, n: int, k: int, f: int, u: nat, w: nat)
    requires 1 <= |s| && Digits(s) && q0 < 0 && u == Pow2(-q0) && w == Scale(|s|)
    requires z * w == (8 * k + n) * (w * u) + f * w && 0 <= f < u
    ensures IsSplit(q0, z, Value(s), n, if 2 * f >= u then 2 else 0, k, f, s)
  {
    hide Scale, Value, Pow2;
    ValueRange(s);
    Pow2Step1(-q0 - 1);
    HalfUnits(f, Value(s), u, w);
  }

  lemma SplitZero(z: nat, s: seq<int>)
    requires 1 <= |s| && Digits(s)
    ensures IsSplit(0, z, Value(s), z * Pow2(0) % 8, s[|s| - 1] / 0x80_0000, z * Pow2(0) / 8, 0, s)
  {
    hide Scale, Value, Pow2;
    Pow2Zero();
    var n := |s| - 1;
    assert IsDigit(s[n]);
    assert s[..n] + [s[n]] == s;
    ValueSnoc(s[..n], s[n]);
    ValueRange(s[..n]);
    ValueRange(s);
    ScaleStep(n);
    HalfTop(Value(s[..n]), s[n], 0x80_0000, Scale(n));
    assert 8 * (z / 8) + z % 8 == z;
    assert 0 * Scale(|s|) == 0;
  }

  lemma SplitPositive(q0: int, z: nat, s: seq<int>, p: nat)
    requires 1 <= |s| && Digits(s) && 0 < q0 <= 2 && p == Pow2(24 - q0)
    ensures var i := s[|s| - 1] / p; var t := s[|s| - 1 := s[|s| - 1] - i * p];
            Digits(t) && IsSplit(q0, z, Value(s), z * Pow2(q0) % 8 + i, t[|s| - 1] / (p / 2), z * Pow2(q0) / 8, 0, t)
  {
    hide Scale, Value, Pow2, Limit;
    TopPower(q0);
    TopBits(s, q0, p);
    WholeOnes(z, q0, |s|, z * Pow2(q0) % 8, z * Pow2(q0) / 8, s[|s| - 1] / p);
    assert 0 * Scale(|s|) == 0;
  }

  /** Splits z0 * B^jz + digits into 8k + n ones and a fraction, for chunk exponent q0. */
  method SplitOnes(iq: array<int>, jz: nat, q0: int, z0: nat) returns (n: int, ih: int, f: int, ghost k: int)
    requires 1 <= jz <= iq.Length && q0 <= 2 && Digits(iq[..jz])
    modifies iq
    ensures Digits(iq[..jz]) && 0 <= f && (q0 >= 0 ==> f == 0) && (q0 < 0 ==> f < Pow2(-q0))
    ensures IsSplit(q0, z0, Value(old(iq[..jz])), n, ih, k, f, iq[..jz])
    ensures 0 <= n < 8 && 0 <= k && 0 <= ih <= 2
    ensures ih == 2 ==> q0 < 0
    ensures ih > 0 && q0 < 0 ==> ih == 2
    ensures iq[jz..] == old(iq[jz..])
  {
    hide Scale, Value, Pow2, IsSplit;
    ghost var s := iq[..jz];
    ih := 0;
    if q0 < 0 {
      var u := Pow2(-q0);
      var t := z0 % (8 * u);
      n, f, k := t / u, t % u, z0 / (8 * u);
      WholeUnits(z0, u, Scale(jz));
      SplitNegative(q0, z0, s, n, k, f, u, Scale(jz));
      if 2 * f >= u { ih := 2; }
    } else {
      n, f, k := z0 * Pow2(q0) % 8, 0, z0 * Pow2(q0) / 8;
      assert IsDigit(s[jz - 1]);
      if q0 > 0 {
        var p := Pow2(24 - q0);
        TopPower(q0);
        SplitPositive(q0, z0, s, p);
        var i := iq[jz - 1] / p;
        OnesBelow8(z0, q0, s[jz - 1]);
        n := n + i;
        iq[jz - 1] := iq[jz - 1] - i * p;
        assert iq[..jz] == s[jz - 1 := s[jz - 1] - i * p];
        ih := iq[jz - 1] / (p / 2);
      } else {
        SplitZero(z0, s);
        Pow2Zero();
        TopShare(s[jz - 1], 0x40_0000);
        ih := iq[jz - 1] / 0x80_0000;
      }
    }
  }

  /** The ones taken from the top digit fill up a multiple of 2^q0 below 8. */
  lemma OnesBelow8(z: nat, q0: int, d: int)
    requires 0 < q0 <= 2 && IsDigit(d)
    ensures 0 <= z * Pow2(q0) % 8 + d / Pow2(24 - q0) < 8 && 0 <= z * Pow2(q0) / 8
    ensures (d - d / Pow2(24 - q0) * Pow2(24 - q0)) / (Pow2(24 - q0) / 2) <= 1
  {
    hide Pow2;
    TopPower(q0);
    Pow2One();
    Pow2Step1(1);
    if q0 == 1 { PairsOfOnes(z, d); } else { FoursOfOnes(z, d); }
  }

  lemma PairsOfOnes(z: nat, d: int)
    requires IsDigit(d)
    ensures 0 <= z * 2 % 8 <= 6 && 0 <= d / 0x80_0000 <= 1 && (d - d / 0x80_0000 * 0x80_0000) / 0x40_0000 <= 1
  {
    DivModUnique(z * 2, 8, z / 4, 2 * (z % 4));
    TopShare(d, 0x40_0000);
  }

  lemma FoursOfOnes(z: nat, d: int)
    requires IsDigit(d)
    ensures 0 <= z * 4 % 8 <= 4 && 0 <= d / 0x40_0000 <= 3 && (d - d / 0x40_0000 * 0x40_0000) / 0x20_0000 <= 1
  {
    DivModUnique(z * 4, 8, z / 2, 4 * (z % 2));
    TopShare(d, 0x20_0000);
  }

  lemma TopShare(d: int, h: nat)
    requires 0 <= d && 0 < h
    ensures 0 <= d / (2 * h) && (d - d / (2 * h) * (2 * h)) / h <= 1
    ensures h == 0x40_0000 && d < B ==> d / (2 * h) <= 1
    ensures h == 0x20_0000 && d < B ==> d / (2 * h) <= 3
  {
    DivModSplit(d, 2 * h);
    var r := d % (2 * h);
    assert r == d - d / (2 * h) * (2 * h);
    DivModSplit(r, h);
    if 2 <= r / h { MulMono(2, r / h, h); }
  }

  lemma WholeOnes(z0: nat, q0: int, jz: nat, t: int, k: int, i: int)
    requires 1 <= jz && 0 < q0 <= 2 && t == z0 * Pow2(q0) % 8 && k == z0 * Pow2(q0) / 8
    ensures z0 * Scale(jz) + i * Limit(jz, q0) == (8 * k + t + i) * Limit(jz, q0)
  {
    hide Scale, Pow2;
    TopPower(q0);
    Pow2One();
    Pow2Step1(1);
    ScaleStep(jz - 1);
    var l := Limit(jz, q0);
    assert Scale(jz) == Pow2(q0) * l;
    GroupOnes(z0, Pow2(q0), l, i);
  }

  lemma GroupOnes(z: nat, p: nat, l: int, i: int)
    requires p == 2 || p == 4
    ensures z * (p * l) + i * l == (8 * (z * p / 8) + z * p % 8 + i) * l
  {
    var w := z * p;
    assert 8 * (w / 8) + w % 8 == w;
    MulAssoc(z, p, l);
    assert (w + i) * l == w * l + i * l;
  }

  /** The reduction: 8k + n is an integer nearest to the value, and what remains is the distance to
      it, at most one half, counted down from it when ih > 0. */
  method Reduce(iq: array<int>, jz: nat, q0: int, z0: nat) returns (n: int, ih: int, f: int, ghost k: int)
    requires 1 <= jz <= iq.Length && q0 <= 2 && Digits(iq[..jz])
    modifies iq
    ensures Digits(iq[..jz]) && 0 <= f && (q0 >= 0 ==> f == 0)
    ensures z0 * Scale(jz) + Value(old(iq[..jz])) ==
            (8 * k + n) * One(jz, q0) + (if ih > 0 then -Fraction(f, iq[..jz]) else Fraction(f, iq[..jz]))
    ensures 0 <= 2 * Fraction(f, iq[..jz]) <= One(jz, q0) && (ih == 0 ==> 2 * Fraction(f, iq[..jz]) < One(jz, q0))
    ensures 0 <= n <= 8 && 0 <= k && 0 <= ih <= 2
    ensures iq[jz..] == old(iq[jz..])
  {
    hide Scale, Value, Pow2, One, Limit;
    n, ih, f, k := SplitOnes(iq, jz, q0, z0);
    if ih > 0 {
      n := n + 1;
      ghost var s := iq[..jz];
      ghost var f0 := f;
      ValueRange(s);
      OneBounds(jz, q0, f, s);
      var carry := OneMinus(iq, jz, q0);
      if ih == 2 {
        f := Pow2(-q0) - f;
        if carry != 0 { f := f - 1; }
      }
      Flipped(jz, q0, f0, s, f, iq[..jz], carry);
      NextOne(8 * k + n - 1, One(jz, q0));
    }
  }

  /** Distillation and reduction together: the sum of the chunks is 8k + n ones and the distance that remains. */
  method ReduceChunks(q: array<int>, iq: array<int>, jz: nat, q0: int)
      returns (n: int, ih: int, f: int, ghost k: int)
    requires 1 <= jz < q.Length && jz <= iq.Length && q != iq && ChunkRange(q[..]) && q0 <= 2
    modifies iq
    ensures Digits(iq[..jz]) && 0 <= f && (q0 >= 0 ==> f == 0)
    ensures var c := q[..];
            Value(seq(jz + 1, i requires 0 <= i <= jz => c[jz - i])) ==
            (8 * k + n) * One(jz, q0) + (if ih > 0 then -Fraction(f, iq[..jz]) else Fraction(f, iq[..jz]))
    ensures 0 <= 2 * Fraction(f, iq[..jz]) <= One(jz, q0) && (ih == 0 ==> 2 * Fraction(f, iq[..jz]) < One(jz, q0))
    ensures 0 <= n <= 8 && 0 <= k && 0 <= ih <= 2
    ensures iq[jz..] == old(iq[jz..])
  {
    hide Scale, Value, Chunks, One, Limit, Fraction;
    var z := Distill(q, iq, jz);
    ghost var c := q[..];
    n, ih, f, k := Reduce(iq, jz, q0, z);
    assert q[..] == c;
  }

  lemma NextOne(a: int, one: int)
    ensures (a + 1) * one == a * one + one
  {
  }

  lemma OneBounds(jz: nat, q0: int, f: int, s: seq<int>)
    requires 1 <= jz == |s| && q0 <= 2 && (q0 >= 0 ==> f == 0)
    requires 2 * Fraction(f, s) >= One(jz, q0) && Fraction(f, s) < One(jz, q0)
    ensures q0 > 0 ==> 0 < Value(s) < Limit(jz, q0)
    ensures q0 == 0 ==> 0 < Value(s)
  {
    hide Scale, Value, Pow2;
    assert 0 * Scale(jz) == 0;
    if q0 > 0 { MulPositive(Scale(jz - 1), Pow2(24 - q0)); }
  }

  lemma Flipped(jz: nat, q0: int, f: int, s: seq<int>, g: int, t: seq<int>, carry: int)
    requires 1 <= jz == |s| == |t| && q0 <= 2 && carry in {0, 1}
    requires carry == 0 ==> Value(s) == 0 && t == s
    requires carry == 1 ==> Value(t) == Limit(jz, q0) - Value(s)
    requires if q0 < 0 then g == Pow2(-q0) - f - carry else f == 0 && g == 0 && carry == 1
    ensures Fraction(g, t) == One(jz, q0) - Fraction(f, s)
  {
    hide Value, Scale, Pow2;
    var w := Scale(jz);
    assert 0 * w == 0;
    if q0 < 0 {
      var u := Pow2(-q0);
      assert (u - f - carry) * w == u * w - f * w - carry * w;
      assert u * w == w * u;
    }
  }
}
