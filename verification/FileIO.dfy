/** abstract_file: the buffered stream. */
module FileIO {
  import opened Overlay
  import opened Descriptor

  /** Bytes reserved in front of the buffer for ungetc. */
  const UNGET: nat := 8
  const NEWLINE: Byte := 10
  const EOF: int := -1

  datatype StreamType = UnknownType | FileLike | PipeLike
  datatype BufferMode = UnknownMode | NoBuffer | LineBuffer | FullBuffer

  class AbstractFile {
    const fd: FileDescriptor
    const bufferSize: nat
    /** Whether plain char is signed. */
    const signedChar: bool
    /** Whether the stream was opened without a buffer. */
    const unbuffered: bool
    /** The buffer, and the bytes in front of it that hold push-back. */
    const mem: array<Byte>
    const front: array<Byte>
    var offset: nat
    var ioOffset: nat
    var validLimit: nat
    var dirtyBegin: nat
    var dirtyEnd: nat
    /** Distance from the push-back pointer up to the buffer. */
    var ungetLength: nat
    var kind: StreamType
    var mode: BufferMode
    var eofBit: bool
    var errorBit: bool

    // ------------------------------------------------------------ abstraction

    ghost function Buffer(): seq<Byte>
      reads mem
    {
      mem[..]
    }

    ghost predicate IsDirty()
      reads this
    {
      dirtyBegin != dirtyEnd
    }

    /** File position of the start of the buffer. */
    ghost function Base(): nat
      reads this, fd
    {
      if ioOffset <= fd.pos then fd.pos - ioOffset else 0
    }

    /** The fields are in range. */
    ghost predicate Shape()
      reads this
    {
      && 0 < bufferSize && mem.Length == bufferSize && front.Length == UNGET && ungetLength <= UNGET && mem != front
      && offset <= validLimit <= bufferSize && ioOffset <= validLimit
      && dirtyBegin <= dirtyEnd <= bufferSize && (IsDirty() ==> dirtyEnd <= validLimit)
      && (kind == FileLike ==> fd.seekable) && (kind == PipeLike ==> !fd.seekable)
      && (mode == NoBuffer || mode == UnknownMode ==> validLimit == 0)
    }

    /** The state is well formed; on a seekable stream the clean part of the buffer mirrors the file. */
    ghost predicate Valid()
      reads this, mem, fd
    {
      && Shape()
      && (fd.seekable ==> ioOffset <= fd.pos && Clean(Buffer(), fd.contents, Base(), validLimit, dirtyBegin, dirtyEnd))
    }

    /** What holds after every run that writes only when no read-ahead is left unread. */
    ghost predicate Strict()
      reads this
    {
      if IsDirty() then dirtyBegin == ioOffset && dirtyEnd == validLimit == offset
      else ioOffset == validLimit
    }

    /** Strict, with nothing unread. */
    ghost predicate AtEnd()
      reads this
    {
      Strict() && offset == validLimit
    }

    ghost function Dirty(): seq<Byte>
      requires Valid()
      reads this, mem, fd
    {
      Buffer()[dirtyBegin..dirtyEnd]
    }

    /** The bytes of a seekable file with all buffered writes applied. */
    ghost function Contents(): seq<Byte>
      requires Valid()
      reads this, mem, fd
    {
      Logical(Buffer(), fd.contents, Base(), dirtyBegin, dirtyEnd)
    }

    /** The file position at which the next transfer takes place; push-back is not counted. */
    ghost function Position(): nat
      reads this, fd
    {
      Base() + offset
    }

    ghost function Pushed(): (p: seq<Byte>)
      requires Shape()
      reads this, front
      ensures |p| == ungetLength
    {
      front[UNGET - ungetLength..]
    }

    /** Bytes read ahead and not yet consumed. */
    ghost function Unread(): seq<Byte>
      requires Valid()
      reads this, mem, fd
    {
      Buffer()[offset..validLimit]
    }

    static function Tail(f: seq<Byte>, p: nat): seq<Byte> { if p <= |f| then f[p..] else [] }

    /** What is still to be read, push-back excluded. */
    ghost function Input(): seq<Byte>
      requires Valid()
      reads this, mem, fd
    {
      if fd.seekable then Tail(Contents(), Position()) else Unread() + fd.incoming
    }

    /** Everything that is still to be read. */
    ghost function Stream(): seq<Byte>
      requires Valid()
      reads this, mem, front, fd
    {
      Pushed() + Input()
    }

    /** Everything written to a pipe-like stream. */
    ghost function Output(): seq<Byte>
      requires Valid()
      reads this, mem, fd
    {
      fd.delivered + Dirty()
    }

    /** Where the descriptor stands, in the buffer, once everything dirty is written back. */
    ghost function Settled(): nat
      reads this
    {
      if IsDirty() then dirtyEnd else ioOffset
    }

    /** The file position where the descriptor stands once everything dirty is written back. */
    ghost function Landing(): nat
      reads this, fd
    {
      Base() + Settled()
    }

    /** Nothing that a program can observe of file, pipe or position has changed. */
    twostate predicate SameView()
      requires old(Valid()) && Valid()
      reads this, mem, fd
    {
      && Contents() == old(Contents()) && Position() == old(Position()) && Dirty() == old(Dirty())
      && ReadPosition() == old(ReadPosition()) && WritePosition() == old(WritePosition())
      && Following() == old(Following()) && Landing() == old(Landing())
      && Input() == old(Input()) && Output() == old(Output()) && Strict() == old(Strict())
    }

    /** The view depends on these fields only. */
    twostate lemma Unchanged()
      requires old(Valid()) && Valid() && mem[..] == old(mem[..])
      requires offset == old(offset) && ioOffset == old(ioOffset) && validLimit == old(validLimit)
      requires dirtyBegin == old(dirtyBegin) && dirtyEnd == old(dirtyEnd)
      requires fd.pos == old(fd.pos) && fd.contents == old(fd.contents)
      requires fd.incoming == old(fd.incoming) && fd.delivered == old(fd.delivered)
      ensures SameView()
    {
      hide Overlay.Write, Logical, Clean;
    }

    /** The mode the stream takes when none was chosen. */
    function NaturalMode(): BufferMode {
      if unbuffered then NoBuffer else if fd.terminal then LineBuffer else FullBuffer
    }

    /** The mode is as before, or has been determined. */
    twostate predicate ModeKept()
      reads this
    {
      mode == old(mode) || (old(mode) == UnknownMode && mode == NaturalMode())
    }

    /** Errors have a cause, and the error mark stays and is not set without one. */
    twostate predicate Accounted(e: int, excused: bool)
      reads this, fd
    {
      && Blamed(old(fd.faults), fd.faults, e, excused)
      && (old(errorBit) ==> errorBit) && (e == 0 ==> errorBit == old(errorBit))
    }

    /** Dirty bytes of a pipe that do not start where the descriptor stands. */
    ghost predicate Misplaced()
      reads this
    {
      !fd.seekable && IsDirty() && ioOffset != dirtyBegin
    }

    /** Offset and landing are as before, and nothing became dirty. */
    twostate predicate Stayed()
      reads this, fd
    {
      && offset == old(offset) && validLimit == old(validLimit) && (IsDirty() ==> old(IsDirty()))
      && (fd.seekable ==> Landing() == old(Landing()))
    }

    // ------------------------------------------------------------- life cycle

    constructor (fd: FileDescriptor, signedChar: bool, unbuffered: bool)
      ensures this.signedChar == signedChar && this.unbuffered == unbuffered
      ensures Valid() && Strict() && this.fd == fd && fresh(mem) && fresh(front)
      ensures ungetLength == 0 && mode == UnknownMode && !IsDirty() && bufferSize == 4096 && !eofBit && !errorBit
      ensures fd.seekable ==> Contents() == fd.contents && Position() == fd.pos
      ensures !fd.seekable ==> Stream() == fd.incoming && Output() == fd.delivered
    {
      this.fd, this.signedChar, this.unbuffered := fd, signedChar, unbuffered;
      bufferSize := 4096;
      mem := new Byte[4096](i => 0);
      front := new Byte[UNGET](i => 0);
      offset, ioOffset, validLimit, dirtyBegin, dirtyEnd := 0, 0, 0, 0, 0;
      ungetLength := 0;
      kind, mode := UnknownType, UnknownMode;
      eofBit, errorBit := false, false;
    }

    /** Finds out whether the descriptor can seek. */
    method InitType() returns (e: int)
      requires Valid()
      modifies this`kind, fd`pos, fd`seeks, fd`faults
      ensures Valid() && fd.pos == old(fd.pos)
      ensures e == 0 ==> kind == if fd.seekable then FileLike else PipeLike
      ensures old(kind) != UnknownType ==> e == 0 && fd.seeks == old(fd.seeks)
      ensures e != ESPIPE && (!fd.seekable ==> e == 0) && Accounted(e, false)
    {
      if kind != UnknownType { return 0; }
      var current;
      e, current := fd.Seek(0, Cur);
      if e == 0 {
        kind := FileLike;
      } else if e == ESPIPE {
        kind := PipeLike;
        e := 0;
      }
    }

    /** Finds out how to buffer, unless it is known; the terminal test may fail. */
    method InitBufmode() returns (e: int)
      requires Valid()
      modifies this`mode, fd`faults
      ensures Valid() && SameView() && Pushed() == old(Pushed())
      ensures (e == 0 ==> mode != UnknownMode) && ModeKept() && (old(mode) != UnknownMode ==> e == 0)
      ensures Accounted(e, false) && e != ESPIPE
      ensures old(mode) == UnknownMode && e == 0 ==>
                (mode == NoBuffer <==> unbuffered) && (mode == LineBuffer <==> !unbuffered && fd.terminal)
    {
      hide Overlay.Write, Logical, Clean, SameView;
      e := 0;
      if mode == UnknownMode {
        if unbuffered {
          mode := NoBuffer;
        } else {
          var terminal;
          e, terminal := fd.IsTerminal();
          if e == 0 { mode := if terminal then LineBuffer else FullBuffer; }
        }
      }
      Unchanged();
    }

    /** Sets the error mark of the stream. */
    method MarkError()
      requires Valid()
      modifies this`errorBit
      ensures Valid() && SameView() && errorBit
    {
      hide Overlay.Write, Logical, Clean, SameView;
      errorBit := true;
      Unchanged();
    }

    // ---------------------------------------------------------- write-back

    /** One io_write of the dirty bytes at the descriptor's position. */
    method WriteSome() returns (e: int)
      requires Valid() && IsDirty() && ioOffset == dirtyBegin
      modifies this`ioOffset, this`dirtyBegin, this`errorBit, fd`pos, fd`contents, fd`delivered, fd`faults
      ensures Valid() && dirtyBegin == ioOffset && dirtyBegin >= old(dirtyBegin)
      ensures e != ESPIPE && (if e == 0 then dirtyBegin > old(dirtyBegin) else dirtyBegin == old(dirtyBegin))
      ensures errorBit == (old(errorBit) || e != 0) && Accounted(e, false)
      ensures fd.seekable ==> Base() == old(Base()) && Contents() == old(Contents())
      ensures fd.seekable ==> fd.delivered == old(fd.delivered)
      ensures !fd.seekable ==> Output() == old(Output()) && fd.pos == old(fd.pos)
    {
      hide Overlay.Write, Clean, Logical, SameView;
      ghost var (buf, lo, base, c, sent) := (Buffer(), dirtyBegin, Base(), fd.contents, fd.delivered);
      var src := mem[ioOffset..dirtyEnd];
      assert src == buf[lo..dirtyEnd];
      var n;
      e, n := fd.Write(src);
      if e != 0 {
        errorBit := true;
        return;
      }
      Slices(buf, lo, dirtyEnd, n, sent);
      if fd.seekable { WriteOut(buf, c, base, validLimit, lo, dirtyEnd, n); }
      ioOffset := ioOffset + n;
      dirtyBegin := dirtyBegin + n;
    }

    static lemma Slices(buf: seq<Byte>, lo: nat, hi: nat, n: nat, sent: seq<Byte>)
      requires lo + n <= hi <= |buf|
      ensures buf[lo..hi][..n] == buf[lo..lo + n]
      ensures sent + buf[lo..lo + n] + buf[lo + n..hi] == sent + buf[lo..hi]
    {
      assert buf[lo..hi] == buf[lo..lo + n] + buf[lo + n..hi];
    }

    /** The loop of _write_back: writes until nothing is dirty or an error occurs. */
    method WriteDirty() returns (e: int)
      requires Valid() && IsDirty() && ioOffset == dirtyBegin
      modifies this`ioOffset, this`dirtyBegin, this`errorBit, fd`pos, fd`contents, fd`delivered, fd`faults
      ensures Valid() && ioOffset == dirtyBegin && (e == 0 <==> !IsDirty()) && e != ESPIPE
      ensures errorBit == (old(errorBit) || e != 0) && Accounted(e, false)
      ensures fd.seekable ==> Base() == old(Base()) && Contents() == old(Contents())
      ensures fd.seekable ==> fd.delivered == old(fd.delivered)
      ensures !fd.seekable ==> Output() == old(Output()) && fd.pos == old(fd.pos)
    {
      hide Overlay.Write, Clean, Logical, Contents, Output;
      e := 0;
      while ioOffset < dirtyEnd
        invariant Valid() && ioOffset == dirtyBegin && e == 0
        invariant errorBit == old(errorBit) && fd.faults == old(fd.faults)
        invariant fd.seekable ==> Base() == old(Base()) && Contents() == old(Contents())
        invariant fd.seekable ==> fd.delivered == old(fd.delivered)
        invariant !fd.seekable ==> Output() == old(Output()) && fd.pos == old(fd.pos)
        decreases dirtyEnd - ioOffset
      {
        e := WriteSome();
        if e != 0 { return; }
      }
    }

    /** Moves the descriptor to the dirty bytes; a pipe cannot. */
    method MoveToDirty() returns (e: int)
      requires Valid() && IsDirty() && kind != UnknownType
      modifies this`ioOffset, fd`pos, fd`seeks, fd`faults
      ensures Valid() && (e == 0 ==> ioOffset == dirtyBegin) && (e != 0 ==> ioOffset == old(ioOffset))
      ensures fd.seekable ==> Base() == old(Base()) && Contents() == old(Contents())
      ensures !fd.seekable ==> fd.pos == old(fd.pos)
      ensures Dirty() == old(Dirty()) && (!fd.seekable ==> Output() == old(Output()) && Input() == old(Input()))
      ensures old(ioOffset) == dirtyBegin ==> e == 0 && fd.seeks == old(fd.seeks)
      ensures (e == ESPIPE <==> old(Misplaced())) && Accounted(e, old(Misplaced()))
    {
      hide Overlay.Write, Clean, Logical;
      e := 0;
      if ioOffset != dirtyBegin {
        if kind == FileLike {
          var current;
          e, current := fd.Seek((dirtyBegin as int) - ioOffset, Cur);
          if e == 0 { ioOffset := dirtyBegin; }
        } else {
          e := ESPIPE;
        }
      }
    }

    /** _write_back: afterwards the file holds what the program wrote. It fails with ESPIPE exactly on a pipe
        whose dirty bytes do not start where the descriptor stands; in a strict state they always do, and then
        no seek is needed either. */
    method WriteBack() returns (e: int)
      requires Valid()
      modifies this`kind, this`ioOffset, this`dirtyBegin, this`errorBit
      modifies fd`pos, fd`contents, fd`delivered, fd`seeks, fd`faults
      ensures Valid()
      ensures fd.seekable ==> Base() == old(Base()) && Contents() == old(Contents())
      ensures fd.seekable ==> fd.delivered == old(fd.delivered)
      ensures !fd.seekable ==> Output() == old(Output()) && Input() == old(Input()) && fd.pos == old(fd.pos)
      ensures e == 0 ==> !IsDirty() && ioOffset == old(Settled()) && kind != UnknownType
      ensures e != 0 ==> IsDirty() == old(IsDirty())
      ensures fd.seekable ==> Landing() == old(Landing())
      ensures e == 0 && fd.seekable ==> fd.contents == old(Contents())
      ensures old(Strict()) ==> Strict()
      ensures old(kind != UnknownType) && (!old(IsDirty()) || old(ioOffset) == old(dirtyBegin)) ==>
                fd.seeks == old(fd.seeks) && errorBit == (old(errorBit) || e != 0)
      ensures (e == ESPIPE <==> old(Misplaced())) && Accounted(e, old(Misplaced()))
      ensures old(Strict()) ==> e != ESPIPE
      ensures !old(IsDirty()) ==> errorBit == old(errorBit)
      ensures old(kind != UnknownType) ==> kind != UnknownType
    {
      hide Overlay.Write, Clean;
      e := InitType();
      if e != 0 { return; }
      if dirtyBegin == dirtyEnd {
        NothingDirty();
        return 0;
      }
      e := MoveToDirty();
      if e != 0 { return; }
      e := WriteDirty();
      if e == 0 { NothingDirty(); }
    }

    lemma NothingDirty()
      requires Valid() && !IsDirty()
      ensures Dirty() == [] && Contents() == fd.contents
    {
      assert Buffer()[dirtyBegin..dirtyEnd] == [];
    }

    /** _reset: empties the buffer without moving the descriptor. */
    method Reset() returns (e: int)
      requires Valid() && !IsDirty() && (!fd.seekable ==> offset == validLimit)
      modifies this`kind, this`offset, this`ioOffset, this`validLimit, fd`pos, fd`seeks, fd`faults
      ensures Valid() && fd.pos == old(fd.pos)
      ensures old(kind != UnknownType) ==> e == 0 && kind != UnknownType && fd.seeks == old(fd.seeks)
      ensures Accounted(e, false) && e != ESPIPE
      ensures e == 0 ==> offset == ioOffset == validLimit == 0
      ensures e != 0 ==> offset == old(offset) && ioOffset == old(ioOffset) && validLimit == old(validLimit)
      ensures fd.seekable ==> Contents() == old(Contents())
      ensures fd.seekable && e == 0 ==> (Position() == old(Position()) <==> old(offset) == old(ioOffset))
      ensures fd.seekable ==> Landing() == old(Landing())
      ensures !fd.seekable ==> Output() == old(Output()) && Input() == old(Input())
    {
      hide Overlay.Write, Clean;
      e := InitType();
      NothingDirty();
      if e != 0 { return; }
      offset, ioOffset, validLimit := 0, 0, 0;
      EmptyClean();
      NothingDirty();
      assert !fd.seekable ==> Unread() == [];
    }

    lemma EmptyClean()
      requires mem.Length == bufferSize && validLimit == 0
      ensures Clean(Buffer(), fd.contents, Base(), validLimit, dirtyBegin, dirtyEnd)
    {
    }

    /** purge: forgets the buffer and the push-back, wherever the descriptor has moved to. */
    method Purge()
      requires Shape()
      modifies this`offset, this`ioOffset, this`validLimit, this`dirtyEnd, this`ungetLength
      ensures Valid() && Strict() && !IsDirty() && ungetLength == 0
      ensures offset == ioOffset == validLimit == 0 && Landing() == Position()
      ensures fd.seekable ==> Contents() == fd.contents && Position() == fd.pos
      ensures !fd.seekable ==> Stream() == fd.incoming && Output() == fd.delivered
    {
      hide Overlay.Write, Clean;
      offset, ioOffset, validLimit := 0, 0, 0;
      dirtyEnd := dirtyBegin;
      ungetLength := 0;
      EmptyClean();
      NothingDirty();
      assert Pushed() == [];
      assert !fd.seekable ==> Unread() == [];
    }

    // ------------------------------------------------- push-back and position

    /** A byte as a plain char, converted to int. */
    function CharToInt(c: Byte): (r: int)
      ensures r % 256 == c && if signedChar then -128 <= r < 128 else 0 <= r < 256
    {
      if signedChar && c >= 128 then c - 256 else c
    }

    /** unget: the byte becomes the next one to be read, unless eight are already pending. The char it returns
        is converted to int, so where char is signed the byte 255 is taken and EOF is returned. */
    method Unget(c: Byte) returns (r: int)
      requires Valid()
      modifies this`ungetLength, front
      ensures Valid()
      ensures r == -1 <==> old(ungetLength) == 8 || (signedChar && c == 255)
      ensures old(ungetLength) == UNGET ==> Pushed() == old(Pushed()) && front[..] == old(front[..])
      ensures old(ungetLength) < UNGET ==> r == CharToInt(c) && Pushed() == [c] + old(Pushed())
      ensures SameView()
    {
      hide Overlay.Write, Logical, Clean, SameView;
      r := EOF;
      if ungetLength + 1 <= UNGET {
        ungetLength := ungetLength + 1;
        front[UNGET - ungetLength] := c;
        r := CharToInt(c);
      }
      Unchanged();
    }

    /** tell: the position of the stream, with push-back counted. Nothing changes. */
    method Tell() returns (e: int, current: int)
      requires Valid()
      modifies fd`pos, fd`seeks, fd`faults
      ensures Valid() && SameView() && fd.pos == old(fd.pos)
      ensures e == 0 && fd.seekable ==> current == Position() - ungetLength
      ensures Accounted(e, !fd.seekable) && (e == ESPIPE <==> !fd.seekable)
      ensures !fd.seekable ==> fd.faults == old(fd.faults)
    {
      hide Overlay.Write, Logical, Clean, SameView;
      e, current := fd.Seek(0, Cur);
      Unchanged();
      if e != 0 { return; }
      current := current + (offset - ioOffset) - ungetLength;
    }

    /** Moves the descriptor of a clean stream; relative to the current position it corrects for the
        bytes read ahead or written behind. */
    method Move(distance: int, whence: Whence) returns (e: int)
      requires Valid() && !IsDirty()
      modifies this`kind, fd`pos, fd`seeks, fd`faults
      ensures e != 0 ==> Valid() && SameView()
      ensures e == 0 ==> Shape() && fd.seekable
      ensures e == 0 ==> fd.pos == Target(fd.contents, old(Position()), distance, whence)
      ensures Accounted(e, !fd.seekable || Target(fd.contents, old(Position()), distance, whence) < 0)
      ensures e == ESPIPE <==> !fd.seekable
    {
      hide Overlay.Write, Logical, Clean, SameView;
      var current;
      if whence == Cur {
        e, current := fd.Seek(distance + ((offset as int) - ioOffset), Cur);
      } else {
        e, current := fd.Seek(distance, whence);
      }
      if e == ESPIPE { kind := PipeLike; }
      if e != 0 { Unchanged(); }
    }

    /** Moves a clean stream and forgets its buffer. */
    method Relocate(distance: int, whence: Whence) returns (e: int)
      requires Valid() && !IsDirty()
      modifies this`kind, this`offset, this`ioOffset, this`validLimit, this`dirtyEnd, this`ungetLength, this`eofBit
      modifies fd`pos, fd`seeks, fd`faults
      ensures Valid() && !IsDirty() && fd.contents == Contents()
      ensures e != 0 ==> SameView() && ungetLength == old(ungetLength) && offset == old(offset)
      ensures (e != 0 ==> validLimit == old(validLimit)) && eofBit == (old(eofBit) && e != 0)
      ensures e == 0 ==> fd.seekable && Strict() && ungetLength == 0 && offset == validLimit == 0
      ensures e == 0 ==> Position() == Landing() == Target(old(Contents()), old(Position()), distance, whence)
      ensures Accounted(e, !fd.seekable || Target(old(Contents()), old(Position()), distance, whence) < 0)
      ensures e == ESPIPE <==> !fd.seekable
    {
      hide Overlay.Write, Clean, Logical, Input, Output, Unread;
      NothingDirty();
      e := Move(distance, whence);
      if e == 0 {
        Purge();
        eofBit := false;
      }
      NothingDirty();
    }

    /** seek: writes back, moves, and forgets the buffer. Relative to the current position it ignores
        push-back, so it agrees with tell exactly when there is none. */
    method Seek(distance: int, whence: Whence) returns (e: int)
      requires Valid()
      modifies this`kind, this`offset, this`ioOffset, this`validLimit, this`dirtyBegin, this`dirtyEnd
      modifies this`ungetLength, this`errorBit, this`eofBit, fd`pos, fd`contents, fd`delivered, fd`seeks, fd`faults
      ensures Valid() && (old(Strict()) || e == 0 ==> Strict())
      ensures fd.seekable ==> Contents() == old(Contents())
      ensures fd.seekable && e != 0 ==> Position() == old(Position())
      ensures e == 0 ==> Position() == Landing() == Target(old(Contents()), old(Position()), distance, whence)
      ensures e == 0 && whence == Set ==> Position() == distance
      ensures e == 0 && whence == Cur ==> Position() == old(Position()) + distance
      ensures e == 0 && whence == End ==> Position() == |Contents()| + distance
      ensures e == 0 && whence == Cur ==>
                (Position() == old(Position() - ungetLength) + distance <==> old(ungetLength) == 0)
      ensures e == 0 ==> fd.seekable && ungetLength == 0 && !IsDirty() && fd.contents == Contents()
      ensures e == 0 ==> offset == validLimit == 0
      ensures !fd.seekable ==> Stream() == old(Stream()) && Input() == old(Input()) && Output() == old(Output())
      ensures e != 0 ==> ungetLength == old(ungetLength) && Stayed()
      ensures eofBit == (old(eofBit) && e != 0) && (!old(IsDirty()) ==> errorBit == old(errorBit))
      ensures Accounted(e, !fd.seekable || Target(old(Contents()), old(Position()), distance, whence) < 0)
      ensures !fd.seekable ==> e == ESPIPE || fd.faults > old(fd.faults)
    {
      hide Overlay.Write, Clean, Logical, Input, Output, Dirty, Unread, Settled, ReadPosition, WritePosition, Following;
      e := WriteBack();
      if e != 0 { return; }
      e := Relocate(distance, whence);
    }

    /** _save_pos: moves the descriptor to the stream's position, if it can seek. */
    method SavePos() returns (e: int, preserve: bool)
      requires Valid() && !IsDirty()
      modifies this`kind, this`mode, this`errorBit, fd`pos, fd`seeks, fd`faults
      ensures Shape() && (e != 0 || preserve ==> fd.pos == old(fd.pos))
      ensures e != 0 ==> !preserve
      ensures e == 0 ==> (preserve <==> !fd.seekable && offset != ioOffset)
      ensures e == 0 && fd.seekable ==> fd.pos == old(Position())
      ensures !fd.seekable ==> fd.pos == old(fd.pos)
      ensures ModeKept() && (e == 0 ==> mode != UnknownMode) && Accounted(e, false) && e != ESPIPE
      ensures old(kind != UnknownType) && old(mode != UnknownMode) ==> errorBit == (old(errorBit) || e != 0)
    {
      hide Overlay.Write, Clean, Logical, SameView, Contents, Input, Output, Dirty, Unread;
      preserve := false;
      e := InitType();
      if e != 0 { return; }
      e := InitBufmode();
      if e != 0 { return; }
      if mode != NoBuffer && offset != ioOffset {
        var current;
        e, current := fd.Seek((offset as int) - ioOffset, Cur);
        if e != 0 {
          if e == ESPIPE {
            kind := PipeLike;
            preserve := true;
            e := 0;
            return;
          }
          errorBit := true;
          return;
        }
        kind := FileLike;
      }
    }

    /** The part of flush behind the write-back: the descriptor moves to the stream's position and the buffer is
        forgotten, unless a pipe has unread input. */
    method Settle() returns (e: int)
      requires Valid() && !IsDirty()
      modifies this`kind, this`mode, this`offset, this`ioOffset, this`validLimit, this`dirtyEnd
      modifies this`ungetLength, this`errorBit, fd`pos, fd`seeks, fd`faults
      ensures Valid() && !IsDirty() && (old(Strict()) ==> Strict()) && ModeKept() && (e == 0 ==> mode != UnknownMode)
      ensures Accounted(e, false) && e != ESPIPE
      ensures old(kind != UnknownType) && old(mode != UnknownMode) ==> errorBit == (old(errorBit) || e != 0)
      ensures fd.seekable ==> Contents() == old(Contents()) && Position() == old(Position())
      ensures fd.seekable && e == 0 ==>
                fd.contents == Contents() && fd.pos == Position() == Landing() && validLimit == ungetLength == 0
      ensures !fd.seekable ==> Output() == old(Output()) && (old(Strict()) ==> Input() == old(Input()))
      ensures !fd.seekable && old(Strict()) ==> validLimit - offset == old(validLimit - offset)
      ensures !fd.seekable && e == 0 ==> Pushed() == if old(offset) == old(ioOffset) then [] else old(Pushed())
      ensures e != 0 ==> Pushed() == old(Pushed()) && Stayed()
    {
      hide Overlay.Write, Clean, Logical;
      NothingDirty();
      var preserve;
      e, preserve := SavePos();
      if e == 0 {
        assert !fd.seekable && !preserve && old(Strict()) ==> Unread() == [];
        if !preserve { Purge(); }
      }
      NothingDirty();
    }

    /** flush: the file receives everything written and the descriptor takes the stream's position; a
        pipe keeps its unread input. */
    method Flush() returns (e: int)
      requires Valid()
      modifies this`kind, this`mode, this`offset, this`ioOffset, this`validLimit, this`dirtyBegin, this`dirtyEnd
      modifies this`ungetLength, this`errorBit, fd`pos, fd`contents, fd`delivered, fd`seeks, fd`faults
      ensures Valid() && (old(Strict()) ==> Strict()) && ModeKept() && (e == 0 ==> mode != UnknownMode)
      ensures Accounted(e, old(Misplaced())) && (e == ESPIPE <==> old(Misplaced()))
      ensures old(Strict()) && old(kind != UnknownType) && old(mode != UnknownMode) ==>
                errorBit == (old(errorBit) || e != 0)
      ensures fd.seekable ==> Contents() == old(Contents()) && Position() == old(Position())
      ensures fd.seekable && e == 0 ==>
                fd.contents == Contents() && fd.pos == Position() && validLimit == ungetLength == 0
      ensures e == 0 ==> !IsDirty()
      ensures !fd.seekable ==> Output() == old(Output()) && (old(Strict()) ==> Input() == old(Input()))
      ensures !fd.seekable && old(Strict()) ==> validLimit - offset == old(validLimit - offset)
      ensures !fd.seekable && e == 0 ==>
                Pushed() == if old(offset) == old(Settled()) then [] else old(Pushed())
      ensures e != 0 ==> Pushed() == old(Pushed()) && Stayed()
      ensures fd.seekable && e == 0 ==> Landing() == Position()
    {
      hide Overlay.Write, Clean, Logical, Contents, Input, Output, Unread, Dirty;
      if dirtyEnd != dirtyBegin {
        e := WriteBack();
        if e != 0 { return; }
      }
      NothingDirty();
      e := Settle();
    }

    // ------------------------------------------------------------------- read

    /** Copies pushed-back bytes, the most recent first. */
    method TakePushed(max: nat) returns (data: seq<Byte>)
      requires Valid()
      modifies this`ungetLength
      ensures Valid() && SameView()
      ensures |data| == Min(max, old(ungetLength)) && ungetLength == old(ungetLength) - |data|
      ensures data + Pushed() == old(Pushed())
    {
      hide Overlay.Write, Clean, Logical;
      var n := Min(max, ungetLength);
      data := front[UNGET - ungetLength..UNGET - ungetLength + n];
      ungetLength := ungetLength - n;
      Unchanged();
    }

    /** The first part of a read: the buffer mode and the push-back. */
    method ReadPushed(max: nat) returns (e: int, data: seq<Byte>)
      requires Valid()
      modifies this`mode, this`ungetLength, fd`faults
      ensures Valid() && SameView() && data + Pushed() == old(Pushed())
      ensures |data| == if e == 0 then Min(max, old(ungetLength)) else 0
      ensures (e == 0 ==> mode != UnknownMode) && ModeKept() && (old(mode) != UnknownMode ==> e == 0)
      ensures Accounted(e, false) && e != ESPIPE
    {
      hide Overlay.Write, Logical, Clean, Contents, Dirty, Input, Output, Pushed;
      hide ReadPosition, WritePosition, Following;
      data := [];
      e := InitBufmode();
      if e != 0 { return; }
      if ungetLength != 0 { data := TakePushed(max); }
    }

    /** Puts bytes that were just read into the empty buffer. */
    method FillBuffer(d: seq<Byte>)
      requires Shape() && validLimit == 0 && !IsDirty() && |d| <= bufferSize && mode != NoBuffer && mode != UnknownMode
      requires fd.seekable ==> |d| <= fd.pos
      requires fd.seekable && d != [] ==> fd.pos <= |fd.contents| && fd.contents[fd.pos - |d|..fd.pos] == d
      modifies this`ioOffset, this`validLimit, mem
      ensures Valid() && Strict() && ioOffset == validLimit == |d| && Unread() == d
    {
      hide Overlay.Write, Logical, Clean, Put;
      PutFront(Buffer(), d);
      CopyIn(d);
      assert mem[..|d|] == Buffer()[..|d|] == d;
      ioOffset, validLimit := |d|, |d|;
      if fd.seekable { FileWindow(fd.contents, fd.pos - |d|, d); }
    }

    /** Fills the empty buffer from the descriptor. */
    method ReadAhead() returns (e: int)
      requires Valid() && validLimit == 0 && !IsDirty() && mode != NoBuffer && mode != UnknownMode
      modifies this`ioOffset, this`validLimit, this`errorBit, this`eofBit, mem, fd`pos, fd`incoming, fd`faults
      ensures Valid() && offset == old(offset) && !IsDirty() && Strict()
      ensures fd.seekable ==> Contents() == old(Contents()) && Position() == old(Position())
      ensures !fd.seekable ==> Input() == old(Input()) && Output() == old(Output())
      ensures e != 0 ==> validLimit == 0 && Landing() == old(Landing())
      ensures e == 0 && validLimit == 0 ==> Input() == []
      ensures errorBit == (old(errorBit) || e != 0) && Accounted(e, false) && e != ESPIPE
      ensures old(eofBit) || (e == 0 && validLimit == 0) <==> eofBit
    {
      hide Overlay.Write, Logical, Clean, Contents, Dirty, Unread;
      NothingDirty();
      NothingUnread();
      var d;
      e, d := fd.Read(bufferSize);
      if e == 0 {
        if d == [] { eofBit := true; }
        FillBuffer(d);
      } else {
        errorBit := true;
        EmptyClean();
        NothingUnread();
      }
      NothingDirty();
    }

    lemma NothingUnread()
      requires Valid() && offset == validLimit
      ensures Unread() == []
    {
    }

    static lemma PutFront(buf: seq<Byte>, d: seq<Byte>)
      requires |d| <= |buf|
      ensures |Put(buf, 0, d)| == |buf| && Put(buf, 0, d)[..|d|] == d
    {
    }

    lemma FileWindow(f: seq<Byte>, p: nat, d: seq<Byte>)
      requires d != [] ==> p + |d| <= |f| && f[p..p + |d|] == d
      requires |d| <= mem.Length && mem[..|d|] == d
      ensures Clean(Buffer(), f, p, |d|, dirtyBegin, dirtyBegin)
    {
      forall i: nat | i < |d| ensures Agrees(Buffer(), f, p, i) {
        assert mem[..|d|][i] == d[i] == f[p..p + |d|][i];
      }
    }

    /** Where the next read takes place: after an exhausted buffer, where the descriptor will stand. */
    ghost function ReadPosition(): nat
      reads this, fd
    {
      if offset == validLimit then Landing() else Position()
    }

    /** The bytes from there on. */
    ghost function Following(): seq<Byte>
      requires Valid()
      reads this, mem, fd
    {
      if fd.seekable then Tail(Contents(), ReadPosition()) else Input()
    }

    /** In a strict state an exhausted buffer ends where the descriptor will stand. */
    lemma StrictPosition()
      requires Strict()
      ensures offset == validLimit ==> Settled() == offset
      ensures ReadPosition() == Position()
      ensures Valid() ==> Following() == Input()
    {
      hide Overlay.Write, Logical, Clean, Unread, Contents, Shape;
    }

    /** A read of max bytes finds some push-back, and nothing behind it. */
    ghost predicate OnlyPushed(max: nat)
      requires Valid()
      reads this, mem, fd
    {
      0 < ungetLength < max && Following() == []
    }

    /** What a read of n bytes leaves that found the buffer exhausted: a strict state with a fresh buffer, or after
        an error a stream that will land in the same place, with the old buffer or an empty one. */
    twostate predicate Renewed(e: int, n: nat)
      reads this, fd
    {
      && (e == 0 ==> Strict() && !IsDirty() && offset == if mode == NoBuffer then 0 else n)
      && (e != 0 ==> offset == validLimit && (IsDirty() ==> old(IsDirty())))
      && (e != 0 && fd.seekable ==> Landing() == old(Landing()))
      && (e != 0 && fd.seekable ==>
            || (offset == old(offset) && Position() == old(Position()))
            || (offset == 0 && Position() == Landing()))
    }

    /** n bytes were taken from the buffer and nothing else happened. */
    twostate predicate FromBuffer(n: nat)
      reads this, fd
    {
      && offset == old(offset) + n && ioOffset == old(ioOffset) && validLimit == old(validLimit)
      && dirtyBegin == old(dirtyBegin) && dirtyEnd == old(dirtyEnd)
      && fd.pos == old(fd.pos) && fd.contents == old(fd.contents) && fd.seeks == old(fd.seeks)
      && fd.incoming == old(fd.incoming) && fd.delivered == old(fd.delivered)
    }

    /** Replaces an exhausted buffer by the bytes that follow. */
    method Refill() returns (e: int)
      requires Valid() && offset == validLimit && mode != NoBuffer && mode != UnknownMode
      modifies this`kind, this`offset, this`ioOffset, this`validLimit, this`dirtyBegin, this`errorBit, this`eofBit
      modifies mem, fd`pos, fd`incoming, fd`contents, fd`delivered, fd`seeks, fd`faults
      ensures Valid()
      ensures e == 0 ==> Strict() && !IsDirty() && offset == 0 && (validLimit == 0 ==> Input() == [])
      ensures old(Strict()) ==> Strict()
      ensures fd.seekable ==> Contents() == old(Contents())
      ensures fd.seekable ==> Position() == old(ReadPosition()) || (e != 0 && Position() == old(Position()))
      ensures !fd.seekable ==> Input() == old(Input()) && Output() == old(Output())
      ensures Renewed(e, 0) && Accounted(e, e == ESPIPE && old(Misplaced()))
      ensures old(Strict()) && old(kind != UnknownType) ==> errorBit == (old(errorBit) || e != 0)
      ensures old(eofBit) || (e == 0 && validLimit == 0) <==> eofBit
    {
      hide Overlay.Write, Logical, Clean, Contents, Output, Dirty, Unread, Input;
      e := WriteBack();
      if e != 0 { return; }
      e := Reset();
      if e != 0 { return; }
      e := ReadAhead();
    }

    /** Copies from the unread part of the buffer. */
    method TakeBuffered(max: nat) returns (data: seq<Byte>)
      requires Valid() && offset < validLimit && max > 0
      modifies this`offset
      ensures Valid() && (old(Strict()) ==> Strict())
      ensures |data| == Min(old(validLimit - offset), max)
      ensures data + Unread() == old(Unread())
      ensures fd.seekable ==> Contents() == old(Contents())
      ensures FromBuffer(|data|) && Output() == old(Output()) && Position() == old(Position()) + |data|
    {
      hide Overlay.Write, Logical, Clean;
      var chunk := Min(validLimit - offset, max);
      ghost var (buf, at) := (Buffer(), offset);
      data := mem[offset..offset + chunk];
      assert data == buf[at..at + chunk];
      offset := offset + chunk;
      assert buf[at..validLimit] == buf[at..at + chunk] + buf[at + chunk..validLimit];
    }

    /** The unread bytes of the buffer are the bytes of the file at the stream's position. */
    lemma UnreadIsFile()
      requires Valid() && fd.seekable
      ensures Position() + |Unread()| <= |Contents()| || Unread() == []
      ensures Unread() != [] ==> Contents()[Position()..Position() + |Unread()|] == Unread()
    {
      hide Overlay.Write, Logical, Clean;
      var u := Unread();
      if u != [] {
        BufferByte(validLimit - 1);
        forall i | 0 <= i < |u| ensures Contents()[Position() + i] == u[i] {
          BufferByte(offset + i);
        }
      }
    }

    lemma BufferByte(i: nat)
      requires Valid() && fd.seekable && i < validLimit
      ensures Base() + i < |Contents()| && Contents()[Base() + i] == Buffer()[i]
    {
      hide Overlay.Write, Clean;
      Window(Buffer(), fd.contents, Base(), validLimit, dirtyBegin, dirtyEnd, i);
    }

    /** data are the bytes of a file from position p, as many as wanted or as there are. */
    static ghost predicate ReadsAt(f: seq<Byte>, p: nat, data: seq<Byte>) {
      && (data != [] ==> p + |data| <= |f| && f[p..p + |data|] == data)
      && (data == [] ==> |f| <= p)
    }

    /** Unbuffered read. */
    method ReadDirect(max: nat) returns (e: int, data: seq<Byte>)
      requires Valid() && mode == NoBuffer && max > 0
      modifies this`errorBit, this`eofBit, fd`pos, fd`incoming, fd`faults
      ensures Valid() && |data| <= max && (e != 0 ==> data == [])
      ensures fd.seekable ==> Contents() == old(Contents()) && Position() == old(ReadPosition()) + |data|
      ensures fd.seekable && e == 0 ==> ReadsAt(Contents(), old(ReadPosition()), data)
      ensures !fd.seekable ==> data + Input() == old(Input()) && Output() == old(Output())
      ensures !fd.seekable && e == 0 && data == [] ==> Input() == []
      ensures eofBit <==> old(eofBit) || (e == 0 && data == [])
      ensures errorBit == (old(errorBit) || e != 0) && Renewed(e, |data|)
      ensures Accounted(e, false)
    {
      hide Overlay.Write, Logical, Clean;
      NothingDirty();
      e, data := fd.Read(max);
      if e != 0 { errorBit := true; }
      else if data == [] { eofBit := true; }
      EmptyClean();
      NothingDirty();
    }

    /** Copies buffered bytes, which are the next bytes of the file or pipe. */
    method ReadUnread(max: nat) returns (data: seq<Byte>)
      requires Valid() && offset < validLimit && max > 0
      modifies this`offset
      ensures Valid() && 0 < |data| <= max && (old(Strict()) ==> Strict())
      ensures fd.seekable ==> Contents() == old(Contents())
      ensures fd.seekable ==> Position() == old(Position()) + |data| && ReadsAt(Contents(), old(Position()), data)
      ensures !fd.seekable ==> data + Input() == old(Input()) && Output() == old(Output())
      ensures FromBuffer(|data|) && |data| == Min(old(validLimit - offset), max)
    {
      hide Overlay.Write, Logical, Clean, Contents, Output, Unread, Position, ReadsAt;
      ghost var (u, f, p) := (Unread(), Contents(), Position());
      if fd.seekable { UnreadIsFile(); }
      data := TakeBuffered(max);
      assert data <= u;
      if fd.seekable { PrefixAt(f, p, u, data); }
      assert !fd.seekable ==> data + (Unread() + fd.incoming) == u + fd.incoming;
    }

    static lemma PrefixAt(f: seq<Byte>, p: nat, u: seq<Byte>, data: seq<Byte>)
      requires u != [] && p + |u| <= |f| && f[p..p + |u|] == u && data <= u && data != []
      ensures ReadsAt(f, p, data)
    {
      forall i | 0 <= i < |data| ensures f[p + i] == data[i] {
        assert f[p..p + |u|][i] == u[i];
      }
    }

    /** With nothing left to read, an empty read is right. */
    lemma AtFileEnd()
      requires Valid() && Input() == []
      ensures fd.seekable ==> ReadsAt(Contents(), Position(), [])
    {
      hide Overlay.Write, Logical, Clean, Contents, Unread;
    }

    /** Buffered read. */
    method ReadBuffered(max: nat) returns (e: int, data: seq<Byte>)
      requires Valid() && mode != NoBuffer && mode != UnknownMode && max > 0
      modifies this`kind, this`offset, this`ioOffset, this`validLimit, this`dirtyBegin, this`errorBit, this`eofBit
      modifies mem, fd`pos, fd`incoming, fd`contents, fd`delivered, fd`seeks, fd`faults
      ensures Valid() && |data| <= max && (e != 0 ==> data == []) && (old(Strict()) ==> Strict())
      ensures fd.seekable ==> Contents() == old(Contents())
      ensures fd.seekable && e == 0 ==>
                Position() == old(ReadPosition()) + |data| && ReadsAt(Contents(), old(ReadPosition()), data)
      ensures fd.seekable && e != 0 ==> Position() == old(ReadPosition()) || Position() == old(Position())
      ensures !fd.seekable ==> data + Input() == old(Input()) && Output() == old(Output())
      ensures !fd.seekable && e == 0 && data == [] ==> Input() == []
      ensures eofBit <==> old(eofBit) || (e == 0 && data == [])
      ensures old(Strict()) && old(kind != UnknownType) ==> errorBit == (old(errorBit) || e != 0)
      ensures old(offset) < old(validLimit) ==>
                e == 0 && FromBuffer(|data|) && |data| == Min(old(validLimit - offset), max)
      ensures old(offset) == old(validLimit) ==> Renewed(e, |data|)
      ensures Accounted(e, e == ESPIPE && old(Misplaced()))
    {
      hide Overlay.Write, Logical, Clean, Contents, Output, Dirty, Settled, Input, Unread, ReadsAt;
      data, e := [], 0;
      if offset == validLimit {
        e := Refill();
        if e != 0 || validLimit == 0 {
          if e == 0 { AtFileEnd(); }
          return;
        }
      }
      data := ReadUnread(max);
    }

    /** Reading at p moves the tail of the file. */
    static lemma TailMoves(f: seq<Byte>, p: nat, data: seq<Byte>)
      requires ReadsAt(f, p, data)
      ensures data + Tail(f, p + |data|) == Tail(f, p)
      ensures data == [] ==> Tail(f, p) == []
    {
      if data != [] { assert f[p..] == f[p..p + |data|] + f[p + |data|..]; }
    }

    /** A read without push-back, in either mode. */
    method ReadFresh(max: nat) returns (e: int, data: seq<Byte>)
      requires Valid() && mode != UnknownMode && max > 0
      modifies this`kind, this`offset, this`ioOffset, this`validLimit, this`dirtyBegin, this`errorBit, this`eofBit
      modifies mem, fd`pos, fd`incoming, fd`contents, fd`delivered, fd`seeks, fd`faults
      ensures Valid() && |data| <= max && (e != 0 ==> data == []) && (old(Strict()) ==> Strict())
      ensures fd.seekable ==> Contents() == old(Contents())
      ensures fd.seekable && e == 0 ==>
                Position() == old(ReadPosition()) + |data| && ReadsAt(Contents(), old(ReadPosition()), data)
      ensures fd.seekable && e != 0 ==> Position() == old(ReadPosition()) || Position() == old(Position())
      ensures !fd.seekable ==> Output() == old(Output())
      ensures !fd.seekable || old(Strict()) ==> data + Input() == old(Input())
      ensures !fd.seekable || old(Strict()) ==> e == 0 && data == [] ==> Input() == []
      ensures e == 0 ==> (data == [] <==> old(Following()) == [])
      ensures eofBit <==> old(eofBit) || (e == 0 && data == [])
      ensures old(Strict()) && old(kind != UnknownType) ==> errorBit == (old(errorBit) || e != 0)
      ensures old(offset) < old(validLimit) ==>
                e == 0 && FromBuffer(|data|) && |data| == Min(old(validLimit - offset), max)
      ensures old(offset) == old(validLimit) ==> Renewed(e, |data|)
      ensures Accounted(e, e == ESPIPE && old(Misplaced()))
    {
      hide Overlay.Write, Logical, Clean, Contents, Output, Dirty, Unread, FromBuffer, Renewed;
      ghost var (f, p) := (Contents(), ReadPosition());
      if Strict() { StrictPosition(); }
      if mode == NoBuffer {
        e, data := ReadDirect(max);
      } else {
        e, data := ReadBuffered(max);
      }
      if fd.seekable && e == 0 { TailMoves(f, p, data); }
    }

    /** read: the next bytes of the stream, pushed-back ones first. Bytes copied when nothing follows the
        push-back are reported as a count of zero. u and more are the two parts of the copied bytes. */
    method Read(max: nat) returns (e: int, data: seq<Byte>, actual: nat, ghost u: nat, ghost more: seq<Byte>)
      requires Valid() && max > 0
      modifies this`kind, this`mode, this`offset, this`ioOffset, this`validLimit, this`dirtyBegin, this`errorBit
      modifies this`eofBit, this`ungetLength, mem, fd`pos, fd`incoming, fd`contents, fd`delivered, fd`seeks, fd`faults
      ensures Valid() && |data| <= max && (old(Strict()) ==> Strict())
      ensures (e == 0 ==> mode != UnknownMode) && ModeKept()
      ensures Accounted(e, e == ESPIPE && old(Misplaced()))
      ensures u <= old(ungetLength) && ungetLength == old(ungetLength) - u && data == old(Pushed())[..u] + more
      ensures e == 0 ==> u == Min(max, old(ungetLength))
      ensures e != 0 ==> more == [] && u < max
      ensures fd.seekable ==> Contents() == old(Contents())
      ensures fd.seekable && e == 0 && u == max ==> Position() == old(Position()) && more == []
      ensures fd.seekable && e == 0 && u < max ==>
                ReadsAt(Contents(), old(ReadPosition()), more) && Position() == old(ReadPosition()) + |more|
      ensures fd.seekable && e == 0 && u < max ==>
                (Position() == old(Position()) + |more| <==>
                   old(offset) < old(validLimit) || old(Settled()) == old(offset))
      ensures fd.seekable && e != 0 ==> Position() == old(ReadPosition()) || Position() == old(Position())
      ensures !fd.seekable ==> Output() == old(Output())
      ensures !fd.seekable || old(Strict()) ==> data + Stream() == old(Stream())
      ensures !fd.seekable || old(Strict()) ==> e == 0 && u < max && more == [] ==> Stream() == []
      ensures e == 0 && u < max ==> (more == [] <==> old(Following()) == [])
      ensures e == 0 ==> actual == if mode != NoBuffer && old(OnlyPushed(max)) then 0 else |data|
      ensures eofBit <==> old(eofBit) || (e == 0 && u < max && more == [])
      ensures Pushed() == old(Pushed())[u..] && (u == max ==> FromBuffer(0))
      ensures old(offset) < old(validLimit) && u < max ==>
                e == 0 && FromBuffer(|more|) && |more| == Min(old(validLimit - offset), max - u)
      ensures old(offset) == old(validLimit) && u < max ==> Renewed(e, |more|)
      ensures !fd.seekable || old(Strict()) ==> more + Input() == old(Input())
      ensures old(Strict()) && old(kind != UnknownType) && old(mode != UnknownMode) ==>
                errorBit == (old(errorBit) || e != 0)
    {
      hide Overlay.Write, Logical, Clean, Contents, Output, Dirty, Unread, Input, ReadPosition, Following, Pushed;
      hide Base, Position, Landing, Settled;
      data, actual, u, more := [], 0, 0, [];
      PositionKept();
      e, data := ReadPushed(max);
      u, actual := |data|, |data|;
      if e == 0 && |data| < max {
        var d;
        e, d := ReadFresh(max - |data|);
        more := d;
        actual := if mode != NoBuffer && d == [] then 0 else |data| + |d|;
        data := data + d;
      }
      StreamMoves(old(Pushed()), u, more, Input(), old(Input()));
    }

    /** What was copied is gone from the front of the stream. */
    static lemma StreamMoves(p: seq<Byte>, u: nat, more: seq<Byte>, rest: seq<Byte>, all: seq<Byte>)
      requires u <= |p| && (more == [] || u == |p|)
      ensures more + rest == all ==> (p[..u] + more) + (p[u..] + rest) == p + all
    {
      assert p[..u] + p[u..] == p;
      if more + rest == all {
        assert (p[..u] + more) + (p[u..] + rest) == (p[..u] + p[u..]) + (more + rest);
      }
    }

    /** A read after an exhausted buffer stays at the stream's position exactly when the descriptor will stand
        at the end of the buffer. */
    lemma PositionKept()
      requires Valid()
      ensures ReadPosition() == Position() <==> offset < validLimit || Settled() == offset
    {
    }

    // ------------------------------------------------------------------ write

    /** Where the next write takes place: past a full buffer, where the descriptor will stand. */
    ghost function WritePosition(): nat
      reads this, fd
    {
      if offset == bufferSize then Landing() else Position()
    }

    /** Unbuffered write. */
    method WriteDirect(src: seq<Byte>) returns (e: int, n: nat)
      requires Valid() && mode == NoBuffer && src != []
      modifies this`errorBit, fd`pos, fd`contents, fd`delivered, fd`faults
      ensures Valid() && (e == 0 ==> 1 <= n <= |src|) && (e != 0 ==> n == 0) && (old(Strict()) ==> Strict())
      ensures fd.seekable ==> Contents() == Overlay.Write(old(Contents()), old(WritePosition()), src[..n])
      ensures fd.seekable ==> Position() == old(WritePosition()) + n
      ensures !fd.seekable ==> Output() == old(Output()) + src[..n] && Input() == old(Input())
      ensures Dirty() == [] && old(WritePosition()) == old(Position())
      ensures if n > 0 then Advanced(n) else Stayed()
      ensures Accounted(e, false)
      ensures errorBit == (old(errorBit) || e != 0)
    {
      hide Logical, Clean;
      NothingDirty();
      e, n := fd.Write(src);
      if e != 0 {
        errorBit := true;
        n := 0;
      }
      EmptyClean();
      NothingDirty();
    }

    /** Empties a full buffer. */
    method MakeRoom() returns (e: int)
      requires Valid() && mode != NoBuffer && mode != UnknownMode
      modifies this`kind, this`offset, this`ioOffset, this`validLimit, this`dirtyBegin, this`errorBit
      modifies fd`pos, fd`contents, fd`delivered, fd`seeks, fd`faults
      ensures Valid() && (old(Strict()) ==> Strict())
      ensures e == 0 ==> offset == if old(offset) == bufferSize then 0 else old(offset)
      ensures fd.seekable ==> Contents() == old(Contents())
      ensures fd.seekable ==> Position() == if e == 0 then old(WritePosition()) else old(Position())
      ensures !fd.seekable ==> Output() == old(Output()) && Input() == old(Input())
      ensures old(offset) == old(validLimit) ==> offset == validLimit
      ensures Accounted(e, e == ESPIPE && old(Misplaced()))
      ensures old(offset) != bufferSize || e != 0 ==> Stayed() && IsDirty() == old(IsDirty())
      ensures old(offset) != bufferSize ==> e == 0
      ensures old(Strict()) && old(kind != UnknownType) ==> kind != UnknownType && errorBit == (old(errorBit) || e != 0)
      ensures e == 0 ==> Dirty() == if old(offset) == bufferSize then [] else old(Dirty())
    {
      hide Overlay.Write, Logical, Clean;
      if offset != bufferSize { return 0; }
      e := WriteBack();
      if e != 0 { return; }
      e := Reset();
    }

    /** Puts bytes into the buffer and widens the dirty window over them. */
    method BufferBytes(b: seq<Byte>)
      requires Valid() && mode != NoBuffer && mode != UnknownMode && b != [] && offset + |b| <= bufferSize
      modifies this`offset, this`validLimit, this`dirtyBegin, this`dirtyEnd, mem
      ensures Valid() && IsDirty() && offset == old(offset) + |b| && validLimit == Max(offset, old(validLimit))
      ensures dirtyEnd == HullEnd(old(dirtyBegin), old(dirtyEnd), offset)
      ensures fd.seekable ==> Contents() == Overlay.Write(old(Contents()), old(Position()), b)
      ensures fd.seekable ==> Position() == old(Position()) + |b|
      ensures old(Strict()) && old(offset) == old(validLimit) ==>
                Strict() && offset == validLimit && Dirty() == old(Dirty()) + b
      ensures !fd.seekable && old(Strict()) && old(offset) == old(validLimit) ==>
                Output() == old(Output()) + b && Input() == old(Input())
    {
      hide Overlay.Write, Logical, Clean, Put, Max, Min;
      ghost var (buf, was, lo, hi, limit) := (Buffer(), Dirty(), dirtyBegin, dirtyEnd, validLimit);
      CopyIn(b);
      if fd.seekable { Hull(buf, fd.contents, Base(), validLimit, dirtyBegin, dirtyEnd, offset, b); }
      HullShape(lo, hi, offset, |b|, limit);
      Widen(|b|);
      if old(Strict()) && old(offset) == limit { DirtyGrows(buf, lo, hi, old(offset), b); }
    }

    /** Copies bytes into the buffer at the current offset. */
    method CopyIn(b: seq<Byte>)
      requires offset + |b| <= mem.Length
      modifies mem
      ensures Buffer() == Put(old(Buffer()), offset, b)
    {
      var at := offset;
      forall i | 0 <= i < |b| { mem[at + i] := b[i]; }
    }

    /** Makes n bytes at the current offset part of the dirty and of the valid region. */
    method Widen(n: nat)
      modifies this`offset, this`validLimit, this`dirtyBegin, this`dirtyEnd
      ensures dirtyBegin == HullBegin(old(dirtyBegin), old(dirtyEnd), old(offset))
      ensures dirtyEnd == HullEnd(old(dirtyBegin), old(dirtyEnd), old(offset) + n)
      ensures validLimit == Max(old(offset) + n, old(validLimit)) && offset == old(offset) + n
    {
      if dirtyBegin != dirtyEnd {
        dirtyBegin := Min(dirtyBegin, offset);
        dirtyEnd := Max(dirtyEnd, offset + n);
      } else {
        dirtyBegin := offset;
        dirtyEnd := offset + n;
      }
      validLimit := Max(offset + n, validLimit);
      offset := offset + n;
    }

    /** Bytes appended to a dirty window that ends at the offset. */
    static lemma DirtyGrows(buf: seq<Byte>, lo: nat, hi: nat, offset: nat, b: seq<Byte>)
      requires lo <= hi <= |buf| && (lo != hi ==> hi == offset) && b != [] && offset + |b| <= |buf|
      ensures var (lo', hi') := (HullBegin(lo, hi, offset), HullEnd(lo, hi, offset + |b|));
              lo' <= hi' <= |Put(buf, offset, b)| && Put(buf, offset, b)[lo'..hi'] == buf[lo..hi] + b
    {
    }

    static lemma HullShape(lo: nat, hi: nat, offset: nat, n: nat, limit: nat)
      requires lo <= hi && (lo != hi ==> hi <= limit) && offset <= limit && n > 0
      ensures HullBegin(lo, hi, offset) < HullEnd(lo, hi, offset + n) <= Max(offset + n, limit)
      ensures offset + n <= Max(offset + n, limit)
      ensures Max(offset + n, limit) == limit || Max(offset + n, limit) == offset + n
      ensures limit <= Max(offset + n, limit)
      ensures offset == limit && (lo != hi ==> hi == limit) ==>
                && HullEnd(lo, hi, offset + n) == offset + n
                && HullBegin(lo, hi, offset) == if lo != hi then lo else offset
    {
    }

    /** memchr for a newline among the first n bytes: one past it, or n. */
    static method LineEnd(src: seq<Byte>, n: nat) returns (end: nat, found: bool)
      requires 0 < n <= |src|
      ensures 0 < end <= n && (!found ==> end == n) && (found <==> src[end - 1] == 10)
      ensures NEWLINE !in src[..end - 1]
      ensures !found ==> NEWLINE !in src[..end]
    {
      end := 0;
      while end < n
        invariant end <= n && NEWLINE !in src[..end]
      {
        end := end + 1;
        if src[end - 1] == NEWLINE { return end, true; }
      }
      found := false;
    }

    /** What a write of n bytes leaves: how much is still unread, and where the stream will land. */
    twostate predicate Advanced(n: nat)
      reads this, fd
    {
      var (full, left) := (old(offset) == bufferSize, old(validLimit) - old(offset));
      && validLimit - offset == (if full || left <= n then 0 else left - n)
      && offset == (if mode == NoBuffer then 0 else if full then n else old(offset) + n)
      && (fd.seekable ==> Landing() == if old(IsDirty()) && !full then Max(old(Landing()), Position()) else Position())
    }

    /** Buffers bytes that fit, and writes everything out after a full line. */
    method BufferLine(b: seq<Byte>, flushLine: bool) returns (e: int)
      requires Valid() && mode != NoBuffer && mode != UnknownMode && b != [] && offset + |b| <= bufferSize
      modifies this`kind, this`offset, this`ioOffset, this`validLimit, this`dirtyBegin, this`dirtyEnd, this`errorBit
      modifies mem, fd`pos, fd`contents, fd`delivered, fd`seeks, fd`faults
      ensures Valid() && Advanced(|b|) && offset == old(offset) + |b| && (e != 0 ==> flushLine)
      ensures IsDirty() <==> !flushLine || e != 0
      ensures Accounted(e, e == ESPIPE && !fd.seekable && !old(AtEnd()))
      ensures fd.seekable ==> Contents() == Overlay.Write(old(Contents()), old(Position()), b)
      ensures fd.seekable ==> Position() == old(Position()) + |b|
      ensures old(AtEnd()) ==> AtEnd() && (e == 0 ==> Dirty() == if flushLine then [] else old(Dirty()) + b)
      ensures old(AtEnd()) && e != 0 ==> Dirty() != [] && Dirty()[|Dirty()| - 1] == b[|b| - 1]
      ensures !fd.seekable && old(AtEnd()) ==> Output() == old(Output()) + b && Input() == old(Input())
      ensures old(AtEnd()) && old(kind != UnknownType) ==> errorBit == (old(errorBit) || e != 0)
    {
      hide Overlay.Write, Logical, Clean, Contents, Output, Input, Unread;
      e := 0;
      BufferBytes(b);
      if flushLine {
        e := WriteBack();
        if e != 0 { return; }
        NothingDirty();
      }
    }

    /** How much of the bytes goes into the buffer now, and whether it ends a line to be written out. */
    method NextChunk(src: seq<Byte>) returns (chunk: nat, flushLine: bool)
      requires Shape() && src != [] && offset < bufferSize
      ensures 0 < chunk <= |src| && offset + chunk <= bufferSize
      ensures flushLine <==> mode == LineBuffer && src[chunk - 1] == NEWLINE
      ensures mode == LineBuffer ==> NEWLINE !in src[..chunk - 1] && (NEWLINE in src[..chunk] <==> flushLine)
      ensures chunk == Chunk(bufferSize - offset, |src|) || flushLine
    {
      hide Shape, Min;
      chunk, flushLine := Chunk(bufferSize - offset, |src|), false;
      if mode == LineBuffer {
        chunk, flushLine := LineEnd(src, chunk);
      }
    }

    /** Buffers a prefix of the bytes, at most one line of them on a line-buffered stream, which is then
        written out. */
    method WriteBuffered(src: seq<Byte>) returns (e: int, actual: nat, ghost accepted: nat)
      requires Valid() && src != [] && mode != NoBuffer && mode != UnknownMode
      modifies this`kind, this`offset, this`ioOffset, this`validLimit, this`dirtyBegin, this`dirtyEnd, this`errorBit
      modifies mem, fd`pos, fd`contents, fd`delivered, fd`seeks, fd`faults
      ensures Valid() && accepted <= |src| && (e == 0 ==> actual == accepted > 0)
      ensures fd.seekable ==> Contents() == Overlay.Write(old(Contents()), old(WritePosition()), src[..accepted])
      ensures fd.seekable ==> Position() == if accepted == 0 then old(Position()) else old(WritePosition()) + accepted
      ensures old(AtEnd()) ==> AtEnd()
      ensures !fd.seekable && old(AtEnd()) ==> Output() == old(Output()) + src[..accepted] && Input() == old(Input())
      ensures old(AtEnd()) && e == 0 && mode == LineBuffer ==> (NEWLINE in Dirty() <==>
                NEWLINE in old(Dirty()) && old(offset) != bufferSize && NEWLINE !in src[..accepted])
      ensures old(AtEnd()) && e != 0 && accepted > 0 ==> NEWLINE in Dirty()
      ensures mode == LineBuffer && accepted > 0 ==> NEWLINE !in src[..accepted - 1]
      ensures accepted > 0 ==>
                accepted == Chunk(old(Room()), |src|) || (mode == LineBuffer && src[accepted - 1] == NEWLINE)
      ensures (old(offset) < bufferSize ==> accepted > 0) && if accepted > 0 then Advanced(accepted) else Stayed()
      ensures accepted > 0 ==> (IsDirty() <==> e != 0 || !(mode == LineBuffer && src[accepted - 1] == NEWLINE))
      ensures Accounted(e, e == ESPIPE && !fd.seekable && !old(AtEnd()))
      ensures old(AtEnd()) && old(kind != UnknownType) ==> errorBit == (old(errorBit) || e != 0)
    {
      hide Overlay.Write, Logical, Clean, Contents, Output, Input, Unread, WritePosition, Dirty, Min, Settled, Chunk;
      hide Max, HullEnd, Landing;
      actual, accepted := 0, 0;
      WriteNothing(Contents(), WritePosition(), src[..0]);
      e := MakeRoom();
      if e != 0 { return; }
      var chunk, flushLine := NextChunk(src);
      e := BufferLine(src[..chunk], flushLine);
      accepted := chunk;
      if e == 0 { actual := chunk; }
    }

    /** Bytes that fit before the buffer is full; a full one is emptied first. */
    ghost function Room(): nat
      requires Shape()
      reads this
    {
      if offset == bufferSize then bufferSize else bufferSize - offset
    }

    /** write: accepted counts the bytes taken; a failed write-out of a line still takes them. A newline stays
        pending after success exactly when an earlier write-out had left one and nothing was written out now. */
    method Write(src: seq<Byte>) returns (e: int, actual: nat, ghost accepted: nat)
      requires Valid() && src != []
      modifies this`kind, this`mode, this`offset, this`ioOffset, this`validLimit, this`dirtyBegin, this`dirtyEnd
      modifies this`errorBit, mem, fd`pos, fd`contents, fd`delivered, fd`seeks, fd`faults
      ensures Valid() && accepted <= |src|
      ensures ModeKept() && Accounted(e, e == ESPIPE && !fd.seekable && !old(AtEnd()))
      ensures e == 0 ==> actual == accepted > 0
      ensures fd.seekable ==> Contents() == Overlay.Write(old(Contents()), old(WritePosition()), src[..accepted])
      ensures fd.seekable ==> Position() == if accepted == 0 then old(Position()) else old(WritePosition()) + accepted
      ensures fd.seekable && accepted > 0 ==>
                (Position() == old(Position()) + accepted <==>
                   old(offset) < bufferSize || old(Settled()) == old(offset))
      ensures old(AtEnd()) ==> AtEnd()
      ensures !fd.seekable && old(AtEnd()) ==> Output() == old(Output()) + src[..accepted] && Input() == old(Input())
      ensures old(AtEnd()) && e == 0 && mode == LineBuffer ==> (NEWLINE in Dirty() <==>
                NEWLINE in old(Dirty()) && old(offset) != bufferSize && NEWLINE !in src[..accepted])
      ensures old(AtEnd()) && e != 0 && accepted > 0 ==> NEWLINE in Dirty()
      ensures mode == LineBuffer && accepted > 0 ==> NEWLINE !in src[..accepted - 1]
      ensures accepted > 0 && mode != NoBuffer ==>
                accepted == Chunk(old(Room()), |src|) || (mode == LineBuffer && src[accepted - 1] == NEWLINE)
      ensures if accepted > 0 then Advanced(accepted) else Stayed()
      ensures accepted > 0 ==> mode != UnknownMode
      ensures accepted > 0 ==> (IsDirty() <==>
                mode != NoBuffer && (e != 0 || !(mode == LineBuffer && src[accepted - 1] == NEWLINE)))
      ensures (old(mode) == LineBuffer || old(mode) == FullBuffer) && old(offset) < bufferSize ==> accepted > 0
      ensures old(AtEnd()) && old(kind != UnknownType) && old(mode != UnknownMode) ==>
                errorBit == (old(errorBit) || e != 0)
    {
      hide Overlay.Write, Logical, Clean, Contents, Output, Input, Unread, WritePosition, Dirty, Min, Settled, Chunk;
      hide Max, HullEnd, Landing;
      actual, accepted := 0, 0;
      WriteNothing(Contents(), WritePosition(), src[..0]);
      WritePositionKept();
      e := InitBufmode();
      if e != 0 { return; }
      if mode == NoBuffer {
        e, actual := WriteDirect(src);
        accepted := actual;
      } else {
        e, actual, accepted := WriteBuffered(src);
      }
    }

    lemma WritePositionKept()
      requires Valid()
      ensures WritePosition() == Position() <==> offset < bufferSize || Settled() == offset
    {
    }

    /** How much of n bytes fits into room bytes. */
    static function Chunk(room: nat, n: nat): (c: nat)
      requires room > 0 && n > 0
      ensures 0 < c <= room && c <= n
    {
      Min(room, n)
    }

    /** In a strict state without unread bytes a full buffer ends where the descriptor will stand. */
    lemma StrictWritePosition()
      requires Strict() && offset == validLimit
      ensures WritePosition() == Position()
    {
    }

    // --------------------------------------------------------------- instances

    /** Writing into the middle of read-ahead: the stream will land just after the written byte. */
    method WriteInto(b: Byte)
      requires Valid() && Strict() && fd.seekable && (mode == FullBuffer || mode == LineBuffer)
      requires offset + 1 < validLimit
      modifies this`kind, this`mode, this`offset, this`ioOffset, this`validLimit, this`dirtyBegin, this`dirtyEnd
      modifies this`errorBit, mem, fd`pos, fd`contents, fd`delivered, fd`seeks, fd`faults
      ensures Valid() && mode == old(mode) && validLimit - offset == old(validLimit - offset) - 1
      ensures Contents() == Overlay.Write(old(Contents()), old(Position()), [b])
      ensures Position() == Landing() == old(Position()) + 1
    {
      hide Overlay.Write, Logical, Clean, Contents, Following, Output, Dirty, Input, Unread, Stream, AtEnd, Room, Chunk;
      var error, n, accepted := Write([b]);
      assert [b][..accepted] == [b];
    }

    /** Reading the rest of the buffer and reading on: the second read takes place where the stream lands. */
    method ReadOn() returns (e: int, rest: seq<Byte>, again: seq<Byte>)
      requires Valid() && fd.seekable && ungetLength == 0 && offset < validLimit
      modifies this`kind, this`mode, this`offset, this`ioOffset, this`validLimit, this`dirtyBegin, this`errorBit
      modifies this`eofBit, this`ungetLength, mem, fd`pos, fd`incoming, fd`contents, fd`delivered, fd`seeks, fd`faults
      ensures Valid() && Contents() == old(Contents())
      ensures |rest| == old(validLimit - offset) && ReadsAt(Contents(), old(Position()), rest)
      ensures e == 0 ==> ReadsAt(Contents(), old(Landing()), again) && Position() == old(Landing()) + |again|
    {
      hide Overlay.Write, Logical, Clean, Contents, Following, Output, Dirty, Input, Unread, Pushed, Stream, OnlyPushed;
      hide Renewed, WritePosition, ReadsAt, Strict;
      var actual;
      ghost var u, more;
      e, rest, actual, u, more := Read(validLimit - offset);
      assert rest == more;
      e, again, actual, u, more := Read(1);
      assert again == more;
    }

    /** Writing into the middle of read-ahead without a seek, reading the rest of the buffer and reading on: the
        second read starts over just after the written byte, behind the stream's position. */
    method SwitchWithoutSeek(b: Byte) returns (e: int, rest: seq<Byte>, again: seq<Byte>)
      requires Valid() && Strict() && fd.seekable && ungetLength == 0 && (mode == FullBuffer || mode == LineBuffer)
      requires offset + 1 < validLimit
      modifies this`kind, this`mode, this`offset, this`ioOffset, this`validLimit, this`dirtyBegin, this`dirtyEnd
      modifies this`errorBit, this`eofBit, this`ungetLength, mem
      modifies fd`pos, fd`incoming, fd`contents, fd`delivered, fd`seeks, fd`faults
      ensures Valid() && Contents() == Overlay.Write(old(Contents()), old(Position()), [b])
      ensures |rest| == old(validLimit - offset) - 1 > 0 && ReadsAt(Contents(), old(Position()) + 1, rest)
      ensures e == 0 ==> again != [] && ReadsAt(Contents(), old(Position()) + 1, again) && again[0] == rest[0]
      ensures e == 0 ==> Position() == old(Position()) + 1 + |again| < old(Position()) + 1 + |rest| + |again|
    {
      hide Overlay.Write, Logical, Clean, Contents, ReadsAt, Landing;
      WriteInto(b);
      e, rest, again := ReadOn();
      if e == 0 { SameStart(Contents(), old(Position()) + 1, rest, again); }
    }

    static lemma SameStart(f: seq<Byte>, p: nat, a: seq<Byte>, b: seq<Byte>)
      requires ReadsAt(f, p, a) && ReadsAt(f, p, b) && a != []
      ensures b != [] && a[0] == b[0]
    {
      if b != [] { assert f[p..p + |a|][0] == f[p..p + |b|][0]; }
    }

    /** A line whose write-out failed stays pending, and a later successful write does not bring it out. */
    method PendingLine() returns (e: int, later: int)
      requires Valid() && AtEnd() && mode == LineBuffer && offset + 3 <= bufferSize
      modifies this`kind, this`mode, this`offset, this`ioOffset, this`validLimit, this`dirtyBegin, this`dirtyEnd
      modifies this`errorBit, mem, fd`pos, fd`contents, fd`delivered, fd`seeks, fd`faults
      ensures Valid() && (e != 0 && later == 0 ==> 10 in Dirty())
    {
      hide Overlay.Write, Logical, Clean, Contents, Output, Dirty, Input, Unread, Pushed;
      var n;
      ghost var accepted;
      e, n, accepted := Write([97, NEWLINE]);
      later, n, accepted := Write([98]);
    }

    /** One byte pushed back at the end of a buffered stream: a read of two copies it and reports none. */
    method PushedAtEnd(c: Byte) returns (e: int, data: seq<Byte>, actual: nat)
      requires Valid() && Strict() && ungetLength == 0 && Input() == [] && (mode == FullBuffer || mode == LineBuffer)
      modifies this`kind, this`mode, this`offset, this`ioOffset, this`validLimit, this`dirtyBegin, this`errorBit
      modifies this`eofBit, this`ungetLength, front, mem
      modifies fd`pos, fd`incoming, fd`contents, fd`delivered, fd`seeks, fd`faults
      ensures Valid() && (e == 0 ==> data == [c] && actual == 0)
    {
      hide Overlay.Write, Logical, Clean, Contents, Output, Dirty, Input, Unread;
      var r := Unget(c);
      StrictPosition();
      ghost var u, more;
      e, data, actual, u, more := Read(2);
    }

    /** Where plain char is signed, byte 255 is pushed back and yet reported as a failure. */
    method PushedEof() returns (r: int)
      requires Valid() && signedChar && ungetLength < UNGET
      modifies this`ungetLength, front
      ensures Valid() && r == EOF && Pushed() == [255] + old(Pushed())
    {
      hide Overlay.Write, Logical, Clean, Contents, Output, Dirty, Input, Unread;
      r := Unget(255);
    }
  }
}
