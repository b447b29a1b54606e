/** The loops of the C library that drive a stream: fwrite, fread, fgets and the scanf handlers. */
module Stdio {
  import opened Bits
  import opened Overlay
  import opened Descriptor
  import opened FileIO

  /** The descriptor refused a call in the meantime, or not. */
  twostate predicate Faulted(f: AbstractFile, failed: bool)
    reads f.fd
  {
    old(f.fd.faults) <= f.fd.faults && (failed <==> old(f.fd.faults) < f.fd.faults)
  }

  // ------------------------------------------------------------------ fwrite

  /** Writing is allowed: no read-ahead is left unread. */
  ghost predicate Writable(f: AbstractFile)
    reads f, f.mem, f.fd
  {
    f.Valid() && f.Strict() && f.offset == f.validLimit
  }

  /** The stream after src was appended at its position, or to a pipe. */
  twostate predicate Appended(f: AbstractFile, src: seq<Byte>)
    requires old(Writable(f)) && Writable(f)
    reads f, f.mem, f.fd
  {
    && (f.fd.seekable ==> f.Contents() == Overlay.Write(old(f.Contents()), old(f.Position()), src)
                          && f.Position() == old(f.Position()) + |src|)
    && (!f.fd.seekable ==> f.Output() == old(f.Output()) + src && f.Input() == old(f.Input()))
  }

  /** Writing twice in a row is writing the concatenation. */
  lemma WriteTwice(f: seq<Byte>, p: nat, a: seq<Byte>, b: seq<Byte>)
    ensures Overlay.Write(Overlay.Write(f, p, a), p + |a|, b) == Overlay.Write(f, p, a + b)
  {
    hide Overlay.Write;
    var s := a + b;
    assert s[..|a|] == a && s[|a|..] == b;
    WriteSplit(f, p, s, |a|);
  }

  /** One call of write in the loop of fwrite; an error marks the stream. */
  method WriteChunk(f: AbstractFile, src: seq<Byte>) returns (e: int, n: nat, ghost accepted: nat)
    requires Writable(f) && src != []
    modifies f, f.mem, f.fd
    ensures Writable(f) && accepted <= |src| && (e == 0 ==> n == accepted > 0)
    ensures Appended(f, src[..accepted])
    ensures f.errorBit == (old(f.errorBit) || e != 0)
    ensures Blamed(old(f.fd.faults), f.fd.faults, e, false)
  {
    hide Overlay.Write, Logical, Clean, AbstractFile.Contents, AbstractFile.Output, AbstractFile.Input;
    hide AbstractFile.Dirty, AbstractFile.Unread;
    f.StrictWritePosition();
    e, n, accepted := f.Write(src);
    if e != 0 { f.MarkError(); }
  }

  /** Writes until all bytes are taken or an error occurs; accepted counts all bytes taken. */
  method WriteAll(f: AbstractFile, src: seq<Byte>) returns (progress: nat, ghost accepted: nat)
    requires Writable(f)
    modifies f, f.mem, f.fd
    ensures Writable(f) && progress <= accepted <= |src|
    ensures Appended(f, src[..accepted])
    ensures f.errorBit == (old(f.errorBit) || progress < |src|)
    ensures progress == |src| ==> accepted == |src|
    ensures Faulted(f, progress < |src|)
  {
    hide Overlay.Write, Logical, Clean, AbstractFile.Contents, AbstractFile.Output, AbstractFile.Input;
    hide AbstractFile.Position;
    hide AbstractFile.Shape, AbstractFile.Strict;
    progress, accepted := 0, 0;
    WriteNothing(f.Contents(), f.Position(), src[..0]);
    while progress < |src|
      invariant Writable(f) && progress == accepted <= |src|
      invariant Appended(f, src[..accepted]) && f.fd.faults == old(f.fd.faults) && f.errorBit == old(f.errorBit)
    {
      var e, chunk, taken := WriteChunk(f, src[progress..]);
      AppendedTwice(old(f.Contents()), old(f.Position()), src, accepted, taken);
      accepted := accepted + taken;
      if e != 0 { return; }
      progress := progress + chunk;
    }
  }

  lemma AppendedTwice(f: seq<Byte>, p: nat, src: seq<Byte>, n: nat, k: nat)
    requires n + k <= |src|
    ensures src[..n] + src[n..][..k] == src[..n + k]
    ensures Overlay.Write(Overlay.Write(f, p, src[..n]), p + n, src[n..][..k]) == Overlay.Write(f, p, src[..n + k])
  {
    hide Overlay.Write;
    assert src[..n] + src[n..][..k] == src[..n + k];
    WriteTwice(f, p, src[..n], src[n..][..k]);
  }

  /** fwrite: how the bytes are chunked is invisible. A full count means that all bytes follow the stream's
      position; a short one comes with the error mark and with a prefix of the bytes taken. */
  method Fwrite(f: AbstractFile, buffer: seq<Byte>, size: nat, count: nat) returns (n: nat, ghost accepted: nat)
    requires Writable(f) && |buffer| == size * count
    modifies f, f.mem, f.fd
    ensures Writable(f) && accepted <= |buffer| && Appended(f, buffer[..accepted])
    ensures n <= count && n * size <= accepted && (size == 0 ==> n == 0)
    ensures size > 0 && n == count ==> accepted == |buffer|
    ensures f.errorBit == (old(f.errorBit) || (size > 0 && n < count))
    ensures Faulted(f, size > 0 && n < count)
  {
    hide Overlay.Write, Logical, Clean, AbstractFile.Contents, AbstractFile.Output, AbstractFile.Input;
    hide AbstractFile.Position;
    hide AbstractFile.Shape, AbstractFile.Strict;
    WriteNothing(f.Contents(), f.Position(), buffer[..0]);
    Products(0, count, size);
    if size == 0 || count == 0 { return 0, 0; }
    if size == 1 {
      n, accepted := WriteAll(f, buffer);
      return;
    }
    n, accepted := 0, 0;
    while n < count
      invariant Writable(f) && n <= count && accepted == n * size <= |buffer|
      invariant Appended(f, buffer[..accepted]) && f.fd.faults == old(f.fd.faults) && f.errorBit == old(f.errorBit)
    {
      Products(n, count, size);
      var progress, taken := WriteAll(f, buffer[n * size..n * size + size]);
      ObjectAppended(old(f.Contents()), old(f.Position()), buffer, accepted, size, taken);
      accepted := accepted + taken;
      if progress < size { return; }
      n := n + 1;
    }
    Products(n, count, size);
  }

  lemma ObjectAppended(f: seq<Byte>, p: nat, src: seq<Byte>, n: nat, size: nat, k: nat)
    requires n + size <= |src| && k <= size
    ensures src[..n] + src[n..n + size][..k] == src[..n + k]
    ensures Overlay.Write(Overlay.Write(f, p, src[..n]), p + n, src[n..n + size][..k]) ==
            Overlay.Write(f, p, src[..n + k])
  {
    hide Overlay.Write;
    assert src[n..n + size][..k] == src[n..][..k];
    AppendedTwice(f, p, src, n, k);
  }

  // ------------------------------------------------------------------- fread

  ghost predicate Readable(f: AbstractFile)
    reads f, f.mem, f.fd
  {
    f.Valid() && f.Strict()
  }

  /** One call of read: the bytes copied, and the count reported. Pushed-back bytes with nothing behind them
      are copied but not counted. */
  method ReadChunk(f: AbstractFile, max: nat) returns (e: int, data: seq<Byte>, actual: nat)
    requires Readable(f) && max > 0
    modifies f, f.mem, f.fd
    ensures Readable(f) && |data| <= max && data + f.Stream() == old(f.Stream())
    ensures (e == 0 ==> f.mode != UnknownMode) && (old(f.mode != UnknownMode) ==> f.mode == old(f.mode))
    ensures e == 0 ==> actual == if f.mode != NoBuffer && old(f.OnlyPushed(max)) then 0 else |data|
    ensures e == 0 && actual == 0 ==> f.Stream() == []
    ensures e == 0 && |data| < max ==> f.ungetLength == 0
    ensures e == 0 && data != [] ==> f.ungetLength < UNGET
    ensures e != 0 ==> |data| < max
    ensures Blamed(old(f.fd.faults), f.fd.faults, e, false)
    ensures f.ungetLength <= old(f.ungetLength) && f.front[..] == old(f.front[..])
  {
    hide Overlay.Write, Logical, Clean, AbstractFile.Contents, AbstractFile.Output, AbstractFile.Unread;
    hide AbstractFile.Following;
    ghost var u, more;
    e, data, actual, u, more := f.Read(max);
  }

  /** Reads until n bytes are there, the stream ends or an error occurs. */
  method ReadAll(f: AbstractFile, n: nat) returns (e: int, got: seq<Byte>, progress: nat)
    requires Readable(f)
    modifies f, f.mem, f.fd
    ensures Readable(f) && |got| <= n && got + f.Stream() == old(f.Stream())
    ensures old(f.mode != UnknownMode) ==> f.mode == old(f.mode)
    ensures e == 0 ==> progress == if f.mode != NoBuffer && old(f.OnlyPushed(n)) then 0 else |got|
    ensures e == 0 && |got| < n ==> f.Stream() == []
    ensures e != 0 ==> |got| < n
    ensures Blamed(old(f.fd.faults), f.fd.faults, e, false)
  {
    hide Overlay.Write, Logical, Clean, AbstractFile.Contents, AbstractFile.Output, AbstractFile.Input;
    hide AbstractFile.Unread, AbstractFile.Strict, AbstractFile.Stream, AbstractFile.Following, AbstractFile.Pushed;
    e, got, progress := 0, [], 0;
    while progress < n
      invariant Readable(f) && progress == |got| <= n && got + f.Stream() == old(f.Stream()) && e == 0
      invariant (old(f.mode != UnknownMode) ==> f.mode == old(f.mode)) && f.fd.faults == old(f.fd.faults)
      invariant got == [] ==> f.OnlyPushed(n) == old(f.OnlyPushed(n))
      invariant got != [] ==> f.mode == NoBuffer || (f.mode != UnknownMode && !old(f.OnlyPushed(n)))
      invariant got != [] && progress < n ==> f.ungetLength == 0
      decreases n - progress
    {
      var data, chunk;
      e, data, chunk := ReadChunk(f, n - progress);
      assert got + data + f.Stream() == got + (data + f.Stream());
      got := got + data;
      if e != 0 || chunk == 0 { return; }
      progress := progress + chunk;
    }
  }

  /** With nothing behind the push-back, the push-back is all there is. */
  lemma PushedIsAll(f: AbstractFile, n: nat)
    requires Readable(f) && f.OnlyPushed(n)
    ensures f.Stream() == f.Pushed() && |f.Stream()| < n
  {
    hide Overlay.Write, Logical, Clean, AbstractFile.Contents, AbstractFile.Unread;
    f.StrictPosition();
  }

  /** The loop of fread over objects of more than one byte. */
  method ReadObjects(f: AbstractFile, size: nat, count: nat) returns (n: nat, got: seq<Byte>, ghost failed: bool)
    requires Readable(f) && size > 1
    modifies f, f.mem, f.fd
    ensures Readable(f) && |got| <= size * count && got + f.Stream() == old(f.Stream())
    ensures old(f.mode != UnknownMode) ==> f.mode == old(f.mode)
    ensures failed ==> n == 0 && |got| < size * count
    ensures Faulted(f, failed)
    ensures !failed ==> n <= count && n * size <= |got|
    ensures !failed && n < count ==> |got| < (n + 1) * size && f.Stream() == []
  {
    hide Overlay.Write, Logical, Clean, AbstractFile.Contents, AbstractFile.Output, AbstractFile.Input;
    hide AbstractFile.Unread, AbstractFile.Strict, AbstractFile.Stream, AbstractFile.Following, AbstractFile.Pushed;
    hide AbstractFile.Shape, AbstractFile.OnlyPushed;
    n, got, failed := 0, [], false;
    Products(0, count, size);
    while n < count
      invariant Readable(f) && n <= count && |got| == n * size && got + f.Stream() == old(f.Stream())
      invariant (old(f.mode != UnknownMode) ==> f.mode == old(f.mode)) && f.fd.faults == old(f.fd.faults)
    {
      Products(n, count, size);
      if f.OnlyPushed(size) { PushedIsAll(f, size); }
      var e, data, progress := ReadAll(f, size);
      assert got + data + f.Stream() == got + (data + f.Stream());
      got := got + data;
      if e != 0 { return 0, got, true; }
      if progress < size { return; }
      n := n + 1;
    }
    Products(n, count, size);
  }

  /** fread: the bytes that follow, in order, and the number of whole objects among them; after an error it
      reports none. Only single bytes pushed back before the end of a buffered stream go uncounted. */
  method Fread(f: AbstractFile, size: nat, count: nat) returns (n: nat, got: seq<Byte>, ghost failed: bool)
    requires Readable(f)
    modifies f, f.mem, f.fd
    ensures Readable(f) && |got| <= size * count && got + f.Stream() == old(f.Stream())
    ensures old(f.mode != UnknownMode) ==> f.mode == old(f.mode)
    ensures failed ==> n == 0 && |got| < size * count
    ensures Faulted(f, failed)
    ensures !failed && |got| < size * count ==> f.Stream() == []
    ensures size == 0 || count == 0 ==> n == 0
    ensures !failed && size == 1 && f.mode != NoBuffer && old(f.OnlyPushed(count)) ==> n == 0 && got == old(f.Pushed())
    ensures !failed && size > 0 && (size > 1 || f.mode == NoBuffer || !old(f.OnlyPushed(count))) ==>
              n <= count && n * size <= |got| && (n < count ==> |got| < (n + 1) * size)
  {
    hide Overlay.Write, Logical, Clean, AbstractFile.Contents, AbstractFile.Output, AbstractFile.Input;
    hide AbstractFile.Unread, AbstractFile.Strict, AbstractFile.Stream, AbstractFile.Following, AbstractFile.Pushed;
    hide AbstractFile.Shape;
    n, got, failed := 0, [], false;
    Products(0, count, size);
    if size == 0 || count == 0 { return; }
    if size == 1 {
      if f.OnlyPushed(count) { PushedIsAll(f, count); }
      var e, data, progress := ReadAll(f, count);
      return if e != 0 then 0 else progress, data, e != 0;
    }
    n, got, failed := ReadObjects(f, size, count);
    if !failed { Products(n, count, size); }
  }

  lemma Products(n: nat, count: nat, size: nat)
    requires n <= count
    ensures 0 <= n * size <= size * count && (n + 1) * size == n * size + size
    ensures n < count ==> n * size + size <= size * count
    ensures n == count ==> n * size == size * count
    ensures size == 1 ==> n * size == n && size * count == count
  {
    MulMono(0, n, size);
    MulMono(n, count, size);
    if n < count { MulMono(n + 1, count, size); }
  }

  // ------------------------------------------------------------------- fgets

  /** fgetc: the next byte, or EOF exactly at the end of the stream and after an error, which takes nothing. */
  method Fgetc(f: AbstractFile) returns (c: int, ghost failed: bool)
    requires Readable(f)
    modifies f, f.mem, f.fd
    ensures Readable(f) && (c != EOF ==> 0 <= c < 256)
    ensures c == EOF <==> failed || old(f.Stream()) == []
    ensures Faulted(f, failed)
    ensures (if c == EOF then [] else [c]) + f.Stream() == old(f.Stream())
  {
    hide Overlay.Write, Logical, Clean, AbstractFile.Contents, AbstractFile.Output, AbstractFile.Input;
    hide AbstractFile.Unread, AbstractFile.Strict, AbstractFile.Following, AbstractFile.Stream, AbstractFile.Shape;
    var n, data;
    n, data, failed := Fread(f, 1, 1);
    if n != 1 {
      assert data == [];
      return EOF, failed;
    }
    c := data[0];
    assert data == [c];
  }

  /** fgets: the line read, or nothing at the end of the stream. It is the prefix of the stream that ends with
      the first newline, at max - 1 bytes or at the end, and the rest is left in the stream, also after an error. */
  method Fgets(f: AbstractFile, max: nat) returns (none: bool, line: seq<Byte>, ghost failed: bool)
    requires Readable(f) && max > 0
    modifies f, f.mem, f.fd
    ensures Readable(f) && |line| < max
    ensures line + f.Stream() == old(f.Stream())
    ensures forall i :: 0 <= i < |line| - 1 ==> line[i] != NEWLINE
    ensures !failed ==> |line| == max - 1 || (line != [] && line[|line| - 1] == NEWLINE) || f.Stream() == []
    ensures none <==> line == [] && max > 1
    ensures Faulted(f, failed)
  {
    hide Overlay.Write, Logical, Clean, AbstractFile.Contents, AbstractFile.Output, AbstractFile.Input;
    hide AbstractFile.Unread, AbstractFile.Strict, AbstractFile.Following, AbstractFile.Stream, AbstractFile.Shape;
    line, failed, none := [], false, false;
    while |line| != max - 1
      invariant Readable(f) && |line| < max && !failed && line + f.Stream() == old(f.Stream())
      invariant NEWLINE !in line && f.fd.faults == old(f.fd.faults)
      decreases max - |line|
    {
      var c;
      c, failed := Fgetc(f);
      if c == EOF { return line == [], line, failed; }
      line := line + [c];
      if c == NEWLINE { return; }
    }
  }

  // ---------------------------------------------------------- scanf handlers

  /** look_ahead of vfscanf: the next byte without consuming it, or 0. Putting the byte back is never refused,
      and the stream is unchanged, also after an error. */
  method LookAhead(f: AbstractFile) returns (c: int, ghost failed: bool)
    requires Readable(f)
    modifies f, f.mem, f.front, f.fd
    ensures Readable(f) && f.Stream() == old(f.Stream())
    ensures !failed ==> c == if f.Stream() == [] then 0 else f.Stream()[0]
    ensures Faulted(f, failed)
  {
    hide Overlay.Write, Logical, Clean, AbstractFile.Contents, AbstractFile.Output, AbstractFile.Input;
    hide AbstractFile.Unread, AbstractFile.Strict, AbstractFile.Following, AbstractFile.Dirty;
    var e, data, actual := ReadChunk(f, 1);
    failed := e != 0;
    c := 0;
    if e == 0 && actual != 0 {
      c := data[0];
      ghost var rest := f.Stream();
      var r := f.Unget(c);
      assert data == [c];
      assert f.Stream() == [c] + rest;
    }
  }

  /** consume of vfscanf: takes the next byte and counts it, or returns 0 and leaves the stream as it is. */
  method Consume(f: AbstractFile, consumed0: nat) returns (c: int, consumed: nat, ghost failed: bool)
    requires Readable(f)
    modifies f, f.mem, f.fd
    ensures Readable(f)
    ensures failed || old(f.Stream()) == [] ==> c == 0 && consumed == consumed0 && f.Stream() == old(f.Stream())
    ensures !failed && old(f.Stream()) != [] ==>
              c == old(f.Stream())[0] && f.Stream() == old(f.Stream())[1..] && consumed == consumed0 + 1
    ensures Faulted(f, failed)
  {
    hide Overlay.Write, Logical, Clean, AbstractFile.Contents, AbstractFile.Output, AbstractFile.Input;
    hide AbstractFile.Unread, AbstractFile.Strict, AbstractFile.Following, AbstractFile.Stream, AbstractFile.Shape;
    var e, data, actual := ReadChunk(f, 1);
    failed := e != 0;
    c, consumed := 0, consumed0;
    if e == 0 && actual != 0 {
      c := data[0];
      assert data == [c];
      consumed := consumed + 1;
    }
  }

  datatype ScanOp = Look | Take

  /** The handler of vsscanf: a pointer into a string that ends with NUL. */
  datatype StringHandler = StringHandler(at: nat, consumed: nat)

  function CharAt(s: seq<Byte>, i: nat): int { if i < |s| then s[i] else 0 }

  function StringStep(h: StringHandler, op: ScanOp): StringHandler {
    if op.Look? then h else StringHandler(h.at + 1, h.consumed + 1)
  }

  /** The characters that a run of handler calls returns on a string. */
  function StringRun(s: seq<Byte>, h: StringHandler, ops: seq<ScanOp>): seq<int>
    decreases |ops|
  {
    if ops == [] then [] else [CharAt(s, h.at)] + StringRun(s, StringStep(h, ops[0]), ops[1..])
  }

  function Takes(ops: seq<ScanOp>): nat {
    if ops == [] then 0 else (if ops[0].Take? then 1 else 0) + Takes(ops[1..])
  }

  lemma TailStep(s: seq<Byte>)
    ensures AbstractFile.Tail(s, 0) == s && (s != [] ==> AbstractFile.Tail(s, 1) == s[1..])
    ensures CharAt(s, 0) == if s == [] then 0 else s[0]
  {
  }

  lemma TailOfTail(s: seq<Byte>, a: nat, b: nat)
    ensures var t := AbstractFile.Tail(s, a);
            AbstractFile.Tail(t, b) == AbstractFile.Tail(s, a + b) && CharAt(t, 0) == CharAt(s, a)
    ensures a <= |s| ==> |AbstractFile.Tail(s, a)| == |s| - a
    ensures AbstractFile.Tail(s, 0) == s
  {
  }

  /** One call of the stream handler. */
  method ScanStep(f: AbstractFile, op: ScanOp, consumed0: nat) returns (c: int, consumed: nat, ghost failed: bool)
    requires Readable(f)
    modifies f, f.mem, f.front, f.fd
    ensures Readable(f) && consumed0 <= consumed && consumed - consumed0 <= |old(f.Stream())|
    ensures f.Stream() == AbstractFile.Tail(old(f.Stream()), consumed - consumed0)
    ensures !failed ==> c == CharAt(old(f.Stream()), 0)
    ensures !failed ==> consumed == consumed0 + if op.Take? && old(f.Stream()) != [] then 1 else 0
    ensures Faulted(f, failed)
  {
    hide Overlay.Write, Logical, Clean, AbstractFile.Contents, AbstractFile.Output, AbstractFile.Input;
    hide AbstractFile.Unread, AbstractFile.Strict, AbstractFile.Following, AbstractFile.Stream, AbstractFile.Shape;
    hide CharAt, AbstractFile.Tail;
    consumed := consumed0;
    TailStep(f.Stream());
    if op == Look {
      c, failed := LookAhead(f);
    } else {
      c, consumed, failed := Consume(f, consumed);
    }
  }

  /** Scanning a stream and scanning a string of the same bytes see the same characters in every run that
      does not consume past the end; the counts agree in exactly those runs, because the stream does not
      count what it could not read. */
  method ScanStream(f: AbstractFile, ops: seq<ScanOp>) returns (seen: seq<int>, consumed: nat, ghost failed: bool)
    requires Readable(f)
    modifies f, f.mem, f.front, f.fd
    ensures Readable(f)
    ensures !failed && Takes(ops) <= |old(f.Stream())| ==> seen == StringRun(old(f.Stream()), StringHandler(0, 0), ops)
    ensures consumed <= |old(f.Stream())| && f.Stream() == AbstractFile.Tail(old(f.Stream()), consumed)
    ensures !failed ==> consumed == Min(Takes(ops), |old(f.Stream())|)
    ensures Faulted(f, failed)
  {
    hide Overlay.Write, Logical, Clean, AbstractFile.Contents, AbstractFile.Output, AbstractFile.Input;
    hide AbstractFile.Unread, AbstractFile.Strict, AbstractFile.Following, AbstractFile.Stream, AbstractFile.Shape;
    hide StringRun, Takes, CharAt, AbstractFile.Tail;
    ghost var s := f.Stream();
    seen, consumed, failed := [], 0, false;
    ghost var taken := 0;
    assert ops[0..] == ops;
    TailOfTail(s, 0, 0);
    for i := 0 to |ops|
      invariant Readable(f) && taken + Takes(ops[i..]) == Takes(ops)
      invariant consumed <= |s| && f.Stream() == AbstractFile.Tail(s, consumed)
      invariant !failed ==> consumed == Min(taken, |s|)
      invariant Faulted(f, failed)
      invariant !failed && taken <= |s| ==>
                  seen + StringRun(s, StringHandler(taken, taken), ops[i..]) == StringRun(s, StringHandler(0, 0), ops)
    {
      RunStep(s, StringHandler(taken, taken), ops[i..]);
      assert ops[i..][0] == ops[i] && ops[i..][1..] == ops[i + 1..];
      ghost var (at, bad) := (consumed, false);
      var c;
      c, consumed, bad := ScanStep(f, ops[i], consumed);
      TailOfTail(s, at, consumed - at);
      taken := taken + if ops[i] == Take then 1 else 0;
      failed := failed || bad;
      seen := seen + [c];
    }
    RunEnd(s, StringHandler(taken, taken), ops[|ops|..]);
  }

  lemma RunStep(s: seq<Byte>, h: StringHandler, ops: seq<ScanOp>)
    requires ops != []
    ensures StringRun(s, h, ops) == [CharAt(s, h.at)] + StringRun(s, StringStep(h, ops[0]), ops[1..])
    ensures Takes(ops) == (if ops[0].Take? then 1 else 0) + Takes(ops[1..])
  {
  }

  lemma RunEnd(s: seq<Byte>, h: StringHandler, ops: seq<ScanOp>)
    requires ops == []
    ensures StringRun(s, h, ops) == [] && Takes(ops) == 0
  {
  }
}
