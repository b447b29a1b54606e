/** Byte sequences overwritten at a position, and buffers that cache a window of a file. */
module Overlay {

  type Byte = b: int | 0 <= b < 256

  function Min(a: nat, b: nat): nat { if a < b then a else b }
  function Max(a: nat, b: nat): nat { if a < b then b else a }

  /** f with the bytes b written at position p; a gap before p is filled with zeros. */
  function Write(f: seq<Byte>, p: nat, b: seq<Byte>): seq<Byte> {
    if b == [] then f
    else seq(Max(|f|, p + |b|), i requires 0 <= i => ByteAt(f, p, b, i))
  }

  function ByteAt(f: seq<Byte>, p: nat, b: seq<Byte>, i: nat): Byte {
    if p <= i < p + |b| then b[i - p] else if i < |f| then f[i] else 0
  }

  /** Length and bytes of a written file. */
  lemma WriteByte(f: seq<Byte>, p: nat, b: seq<Byte>, i: nat)
    requires i < |Write(f, p, b)|
    ensures Write(f, p, b)[i] == ByteAt(f, p, b, i)
  {
  }

  /** Writing past the end fills the gap with zeros. */
  lemma WriteGap(f: seq<Byte>, p: nat, b: seq<Byte>, i: nat)
    requires b != [] && |f| <= i < p
    ensures i < |Write(f, p, b)| && Write(f, p, b)[i] == 0
  {
  }

  lemma WriteLength(f: seq<Byte>, p: nat, b: seq<Byte>)
    ensures |Write(f, p, b)| == if b == [] then |f| else Max(|f|, p + |b|)
  {
  }

  lemma WriteNothing(f: seq<Byte>, p: nat, b: seq<Byte>)
    requires b == []
    ensures Write(f, p, b) == f
  {
  }

  /** Writing a prefix and then the rest is writing everything. */
  lemma WriteSplit(f: seq<Byte>, p: nat, b: seq<Byte>, k: nat)
    requires k <= |b|
    ensures Write(Write(f, p, b[..k]), p + k, b[k..]) == Write(f, p, b)
  {
    hide Write;
    var g := Write(f, p, b[..k]);
    var (l, r) := (Write(g, p + k, b[k..]), Write(f, p, b));
    WriteLength(f, p, b[..k]);
    WriteLength(g, p + k, b[k..]);
    WriteLength(f, p, b);
    forall i | 0 <= i < |l| ensures l[i] == r[i] {
      WriteByte(g, p + k, b[k..], i);
      if i < |g| { WriteByte(f, p, b[..k], i); }
      WriteByte(f, p, b, i);
    }
  }

  /** Byte i of the buffer is the byte of the file at position base + i. */
  ghost predicate Agrees(buf: seq<Byte>, f: seq<Byte>, base: nat, i: nat) {
    i < |buf| && base + i < |f| && buf[i] == f[base + i]
  }

  /** The bytes of buf[..limit] outside [lo, hi) are the file's. */
  ghost predicate Clean(buf: seq<Byte>, f: seq<Byte>, base: nat, limit: nat, lo: nat, hi: nat) {
    forall i: nat :: i < limit && !(lo <= i < hi) ==> Agrees(buf, f, base, i)
  }

  /** The file as the program sees it: the dirty window written over it. */
  function Logical(buf: seq<Byte>, f: seq<Byte>, base: nat, lo: nat, hi: nat): seq<Byte>
    requires lo <= hi <= |buf|
  {
    Write(f, base + lo, buf[lo..hi])
  }

  /** Writing out the first k dirty bytes. */
  lemma WriteOut(buf: seq<Byte>, f: seq<Byte>, base: nat, limit: nat, lo: nat, hi: nat, k: nat)
    requires lo <= hi <= |buf| && limit <= |buf| && Clean(buf, f, base, limit, lo, hi) && k <= hi - lo
    ensures var g := Write(f, base + lo, buf[lo..lo + k]);
            && Clean(buf, g, base, limit, lo + k, hi)
            && Logical(buf, g, base, lo + k, hi) == Logical(buf, f, base, lo, hi)
  {
    hide Write;
    var b := buf[lo..hi];
    assert b[..k] == buf[lo..lo + k] && b[k..] == buf[lo + k..hi];
    WriteSplit(f, base + lo, b, k);
    var g := Write(f, base + lo, b[..k]);
    WriteLength(f, base + lo, b[..k]);
    forall i: nat | i < limit && !(lo + k <= i < hi) ensures Agrees(buf, g, base, i) {
      assert lo <= i < lo + k || Agrees(buf, f, base, i);
      WriteByte(f, base + lo, b[..k], base + i);
    }
  }

  /** Every valid byte of the buffer is the byte of the logical file at its place. */
  lemma Window(buf: seq<Byte>, f: seq<Byte>, base: nat, limit: nat, lo: nat, hi: nat, i: nat)
    requires lo <= hi <= |buf| && limit <= |buf| && Clean(buf, f, base, limit, lo, hi) && i < limit
    ensures Agrees(buf, Logical(buf, f, base, lo, hi), base, i)
  {
    hide Write;
    WriteLength(f, base + lo, buf[lo..hi]);
    assert lo <= i < hi || Agrees(buf, f, base, i);
    WriteByte(f, base + lo, buf[lo..hi], base + i);
  }

  /** New bytes put into the buffer at offset. */
  function Put(buf: seq<Byte>, offset: nat, b: seq<Byte>): seq<Byte>
    requires offset + |b| <= |buf|
  {
    buf[..offset] + b + buf[offset + |b|..]
  }

  function HullBegin(lo: nat, hi: nat, offset: nat): nat { if lo != hi then Min(lo, offset) else offset }
  function HullEnd(lo: nat, hi: nat, end: nat): nat { if lo != hi then Max(hi, end) else end }

  /** Buffering bytes: the dirty window becomes the hull of the old window and the new bytes, and the
      clean bytes swept into it are the file's own. */
  lemma Hull(buf: seq<Byte>, f: seq<Byte>, base: nat, limit: nat, lo: nat, hi: nat, offset: nat, b: seq<Byte>)
    requires lo <= hi <= |buf| && limit <= |buf| && (lo < hi ==> hi <= limit) && Clean(buf, f, base, limit, lo, hi)
    requires offset <= limit && b != [] && offset + |b| <= |buf|
    ensures var buf' := Put(buf, offset, b); var limit' := Max(offset + |b|, limit);
            var (lo', hi') := (HullBegin(lo, hi, offset), HullEnd(lo, hi, offset + |b|));
            && lo' < hi' <= limit' <= |buf'| == |buf|
            && Clean(buf', f, base, limit', lo', hi')
            && Logical(buf', f, base, lo', hi') == Write(Logical(buf, f, base, lo, hi), base + offset, b)
  {
    hide Write, Logical;
    var buf' := Put(buf, offset, b);
    var limit' := Max(offset + |b|, limit);
    var (lo', hi') := (HullBegin(lo, hi, offset), HullEnd(lo, hi, offset + |b|));
    forall i: nat | i < limit' && !(lo' <= i < hi') ensures Agrees(buf', f, base, i) {
      assert Agrees(buf, f, base, i);
    }
    var old' := Logical(buf, f, base, lo, hi);
    var (l, r) := (Logical(buf', f, base, lo', hi'), Write(old', base + offset, b));
    HullLength(buf, f, base, limit, lo, hi, offset, b);
    forall i: nat | i < |l| ensures l[i] == r[i] {
      HullByte(buf, f, base, limit, lo, hi, offset, b, i);
    }
  }

  lemma HullLength(buf: seq<Byte>, f: seq<Byte>, base: nat, limit: nat, lo: nat, hi: nat, offset: nat, b: seq<Byte>)
    requires lo <= hi <= |buf| && limit <= |buf| && (lo < hi ==> hi <= limit) && Clean(buf, f, base, limit, lo, hi)
    requires offset <= limit && b != [] && offset + |b| <= |buf|
    ensures var (lo', hi') := (HullBegin(lo, hi, offset), HullEnd(lo, hi, offset + |b|));
            |Logical(Put(buf, offset, b), f, base, lo', hi')| ==
            |Write(Logical(buf, f, base, lo, hi), base + offset, b)|
  {
    hide Write;
    var (lo', hi') := (HullBegin(lo, hi, offset), HullEnd(lo, hi, offset + |b|));
    WriteLength(f, base + lo', Put(buf, offset, b)[lo'..hi']);
    WriteLength(f, base + lo, buf[lo..hi]);
    WriteLength(Logical(buf, f, base, lo, hi), base + offset, b);
  }

  lemma HullByte(buf: seq<Byte>, f: seq<Byte>, base: nat, limit: nat, lo: nat, hi: nat, offset: nat, b: seq<Byte>,
                 i: nat)
    requires lo <= hi <= |buf| && limit <= |buf| && (lo < hi ==> hi <= limit) && Clean(buf, f, base, limit, lo, hi)
    requires offset <= limit && b != [] && offset + |b| <= |buf|
    requires i < |Write(Logical(buf, f, base, lo, hi), base + offset, b)|
    requires i < |Logical(Put(buf, offset, b), f, base, HullBegin(lo, hi, offset), HullEnd(lo, hi, offset + |b|))|
    ensures Logical(Put(buf, offset, b), f, base, HullBegin(lo, hi, offset), HullEnd(lo, hi, offset + |b|))[i]
            == Write(Logical(buf, f, base, lo, hi), base + offset, b)[i]
  {
    hide Write;
    var (lo', hi') := (HullBegin(lo, hi, offset), HullEnd(lo, hi, offset + |b|));
    var buf' := Put(buf, offset, b);
    var old' := Write(f, base + lo, buf[lo..hi]);
    WriteByte(f, base + lo', buf'[lo'..hi'], i);
    WriteByte(old', base + offset, b, i);
    WriteLength(f, base + lo, buf[lo..hi]);
    if base + offset <= i < base + offset + |b| {
      assert buf'[lo'..hi'][i - (base + lo')] == buf'[i - base] == b[i - (base + offset)];
    } else if base + lo' <= i < base + hi' {
      assert buf'[lo'..hi'][i - (base + lo')] == buf'[i - base] == buf[i - base];
      OldByte(buf, f, base, limit, lo, hi, i - base);
    } else {
      assert !(base + lo <= i < base + hi);
      if i < |old'| { WriteByte(f, base + lo, buf[lo..hi], i); }
    }
  }

  /** A valid byte of the buffer, read from the logical file. */
  lemma OldByte(buf: seq<Byte>, f: seq<Byte>, base: nat, limit: nat, lo: nat, hi: nat, k: nat)
    requires lo <= hi <= |buf| && limit <= |buf| && Clean(buf, f, base, limit, lo, hi) && k < limit
    ensures base + k < |Write(f, base + lo, buf[lo..hi])| && Write(f, base + lo, buf[lo..hi])[base + k] == buf[k]
  {
    hide Write;
    Window(buf, f, base, limit, lo, hi, k);
  }
}
