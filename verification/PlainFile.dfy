/** Runs of a buffered stream against a file without any buffer. */
module PlainFile {
  import opened Overlay
  import opened Descriptor
  import opened FileIO

  // -------------------------------------------------------- calls and traces

  datatype Op =
    Read(max: nat) | Write(src: seq<Byte>) | Seek(distance: int, whence: Whence) | Flush | Tell | Unget(c: Byte)

  /** What a call returned: an error code, and bytes read, a count or a position. taken counts the bytes
      a write put into the file. NotAllowed is a write with read-ahead still unread (section 7.21.5.3
      paragraph 7 of C11): it is not made. */
  datatype Event = Done(e: int, data: seq<Byte>, value: int, taken: nat) | NotAllowed

  predicate Callable(op: Op) {
    (op.Read? ==> op.max > 0) && (op.Write? ==> op.src != [])
  }

  /** The bytes that a call accepted. */
  function TakenOf(op: Op, ev: Event): seq<Byte> {
    if op.Write? && ev.Done? && ev.taken <= |op.src| then op.src[..ev.taken] else []
  }

  /** Pushing back: at most eight bytes, the last one first. The byte returned may have been sign-extended. */
  ghost predicate PushesBack(pushed: seq<Byte>, c: Byte, ev: Event, pushed': seq<Byte>)
    requires ev.Done?
  {
    if |pushed| < UNGET then pushed' == [c] + pushed && ev.value % 256 == c
    else pushed' == pushed && ev.value == EOF
  }

  /** The states a run goes through, one step for each call. */
  ghost predicate Trace<S>(step: (S, Op, Event, S) -> bool, states: seq<S>, ops: seq<Op>, log: seq<Event>) {
    && |ops| == |log| && |states| == |ops| + 1
    && forall i :: 0 <= i < |ops| ==> step(states[i], ops[i], log[i], states[i + 1])
  }

  lemma Extend<S>(
      step: (S, Op, Event, S) -> bool, states: seq<S>, ops: seq<Op>, log: seq<Event>, op: Op, ev: Event, s: S)
    requires Trace(step, states, ops, log) && step(states[|ops|], op, ev, s)
    ensures Trace(step, states + [s], ops + [op], log + [ev])
  {
    forall i | 0 <= i < |ops| + 1
      ensures step((states + [s])[i], (ops + [op])[i], (log + [ev])[i], (states + [s])[i + 1])
    {
      if i < |ops| { assert step(states[i], ops[i], log[i], states[i + 1]); }
    }
  }

  /** All but the last call of a run. */
  lemma Shorten<S>(step: (S, Op, Event, S) -> bool, states: seq<S>, ops: seq<Op>, log: seq<Event>)
    requires Trace(step, states, ops, log) && ops != []
    ensures var n := |ops| - 1;
            && Trace(step, states[..n + 1], ops[..n], log[..n])
            && step(states[n], ops[n], log[n], states[n + 1])
  {
    var n := |ops| - 1;
    forall i | 0 <= i < n
      ensures step(states[..n + 1][i], ops[..n][i], log[..n][i], states[..n + 1][i + 1])
    {
      assert step(states[i], ops[i], log[i], states[i + 1]);
    }
  }

  // ------------------------------------------------------- without the rule

  /** A stream without the rule: besides contents and position, where it will land, how much is unread, the size of
      the buffer and the room left in it, whether anything is dirty, how it buffers and would buffer when that is
      not known, the push-back, and how often the descriptor refused a call. */
  datatype Loose = Loose(
    contents: seq<Byte>, pos: nat, landing: nat, left: nat, cap: nat, room: nat, dirty: bool, mode: BufferMode,
    natural: BufferMode, pushed: seq<Byte>, faults: nat)

  function ReadAt(s: Loose): nat { if s.left == 0 then s.landing else s.pos }

  function WriteAt(s: Loose): nat { if s.room == 0 then s.landing else s.pos }

  /** What fits into the buffer at once; a full one is emptied first. */
  function Fits(s: Loose): nat { if s.room == 0 then s.cap else s.room }

  ghost function LooseView(f: AbstractFile): Loose
    requires f.Valid()
    reads f, f.mem, f.front, f.fd
  {
    Loose(f.Contents(), f.Position(), f.Landing(), f.validLimit - f.offset, f.bufferSize, f.bufferSize - f.offset,
          f.IsDirty(), f.mode, f.NaturalMode(), f.Pushed(), f.fd.faults)
  }

  /** What no call changes, and what every call leaves. */
  predicate Consistent(s: Loose, s': Loose) {
    && s'.cap == s.cap && s'.left <= s'.room <= s'.cap
    && s'.natural == s.natural && (s'.mode == s.mode || (s.mode == UnknownMode && s'.mode == s.natural))
    && (s'.left > 0 ==> s'.pos + s'.left <= |s'.contents|)
    && (s'.mode == NoBuffer || s'.mode == UnknownMode ==> s'.left == 0 && s'.room == s'.cap)
  }

  /** The buffer was forgotten. */
  predicate Emptied(s: Loose) { s.landing == s.pos && s.left == 0 && s.room == s.cap && !s.dirty && s.pushed == [] }

  predicate Kept(s: Loose, s': Loose) {
    s' == s.(dirty := s'.dirty, mode := s'.mode, faults := s'.faults) && (s'.dirty ==> s.dirty)
  }

  /** The one error that is the caller's: a seek to a place before the file. */
  predicate Excused(contents: seq<Byte>, pos: nat, op: Op) {
    op.Seek? && Target(contents, pos, op.distance, op.whence) < 0
  }

  /** Reading more than the push-back: from the buffer without touching anything else, or from where the stream
      lands into a fresh buffer. */
  ghost predicate FreshRead(s: Loose, max: nat, more: seq<Byte>, s': Loose) {
    && AbstractFile.ReadsAt(s.contents, ReadAt(s), more) && s'.pos == ReadAt(s) + |more|
    && (s.left > 0 ==> |more| == Min(s.left, max) && s'.left == s.left - |more| && s'.room == s.room - |more|)
    && (s.left > 0 ==> s'.landing == s.landing && s'.dirty == s.dirty)
    && (s.left == 0 ==> s'.landing == s'.pos + s'.left && !s'.dirty)
    && (s.left == 0 ==> s'.room == if s'.mode == NoBuffer then s.cap else s.cap - |more|)
  }

  /** A read that failed: nothing was read, and the buffer is the old one or an empty one. */
  ghost predicate FailedRead(s: Loose, s': Loose) {
    && s.left == s'.left == 0 && s'.landing == s.landing && (s'.dirty ==> s.dirty)
    && ((s'.pos == s.pos && s'.room == s.room) || (s'.pos == s.landing && s'.room == s.cap))
  }

  ghost predicate LooseRead(s: Loose, max: nat, ev: Event, s': Loose)
    requires ev.Done?
  {
    var u := Min(max, |s.pushed|);
    && s'.contents == s.contents
    && (ev.e != 0 ==> FailedRead(s, s') && ev.data + s'.pushed == s.pushed && |ev.data| < max)
    && (ev.e == 0 ==> u <= |ev.data| <= max && ev.data[..u] + s'.pushed == s.pushed)
    && (ev.e == 0 ==> ev.value == if s'.mode != NoBuffer && |ev.data| == u < max then 0 else |ev.data|)
    && (ev.e == 0 && u == max ==> s' == s.(pushed := s'.pushed, mode := s'.mode))
    && (ev.e == 0 && u < max ==> FreshRead(s, max - u, ev.data[u..], s'))
  }

  predicate EndsLine(mode: BufferMode, b: seq<Byte>) { mode == LineBuffer && b != [] && b[|b| - 1] == NEWLINE }

  /** A write that took the bytes b of src. */
  ghost predicate Placed(s: Loose, src: seq<Byte>, b: seq<Byte>, e: int, s': Loose)
    requires b != []
  {
    && s'.pos == WriteAt(s) + |b| && s'.mode != UnknownMode
    && s'.left == (if s.room == 0 || s.left <= |b| then 0 else s.left - |b|)
    && s'.landing == (if s.dirty && s.room > 0 then Max(s.landing, s'.pos) else s'.pos)
    && s'.room == (if s'.mode == NoBuffer then s.cap else Fits(s) - |b|)
    && (s'.dirty <==> s'.mode != NoBuffer && (e != 0 || !EndsLine(s'.mode, b)))
    && (s'.mode != NoBuffer ==> |b| == Min(Fits(s), |src|) || EndsLine(s'.mode, b))
    && (s'.mode == LineBuffer ==> NEWLINE !in b[..|b| - 1])
  }

  ghost predicate LooseWrite(s: Loose, src: seq<Byte>, ev: Event, s': Loose)
    requires ev.Done?
  {
    && ev.taken <= |src| && (ev.e == 0 ==> ev.value == ev.taken > 0) && s'.pushed == s.pushed
    && s'.contents == Overlay.Write(s.contents, WriteAt(s), src[..ev.taken])
    && (ev.taken == 0 ==> Kept(s, s') && (s.mode == LineBuffer || s.mode == FullBuffer ==> s.room == 0))
    && (ev.taken > 0 ==> Placed(s, src, src[..ev.taken], ev.e, s'))
  }

  /** One call of a stream without the rule. */
  ghost predicate LooseStep(s: Loose, op: Op, ev: Event, s': Loose) {
    ev.Done? && Consistent(s, s') && Blamed(s.faults, s'.faults, ev.e, Excused(s.contents, s.pos, op)) &&
    match op
    case Read(max) => LooseRead(s, max, ev, s')
    case Write(src) => LooseWrite(s, src, ev, s')
    case Seek(distance, whence) =>
      && (ev.e == 0 ==> s'.contents == s.contents && s'.pos == Target(s.contents, s.pos, distance, whence))
      && (ev.e == 0 ==> Emptied(s'))
      && (ev.e != 0 ==> Kept(s, s'))
    case Flush =>
      && (ev.e == 0 ==> s'.contents == s.contents && s'.pos == s.pos && Emptied(s'))
      && (ev.e != 0 ==> Kept(s, s'))
    case Tell => s' == s.(faults := s'.faults) && (ev.e == 0 ==> ev.value == s.pos - |s.pushed|)
    case Unget(c) => ev.e == 0 && s' == s.(pushed := s'.pushed) && PushesBack(s.pushed, c, ev, s'.pushed)
  }

  /** A file with a list of writes applied in order. */
  function Applied(f: seq<Byte>, writes: seq<(nat, seq<Byte>)>): seq<Byte> {
    if writes == [] then f
    else Overlay.Write(Applied(f, writes[..|writes| - 1]), writes[|writes| - 1].0, writes[|writes| - 1].1)
  }

  /** The writes of a run: the bytes taken from each write call, and the position it found the stream at. */
  function Writes(states: seq<Loose>, ops: seq<Op>, log: seq<Event>): (w: seq<(nat, seq<Byte>)>)
    requires |ops| == |log| <= |states|
    ensures |w| == |ops|
  {
    if ops == [] then []
    else
      var n := |ops| - 1;
      Writes(states[..n], ops[..n], log[..n]) + [(WriteAt(states[n]), TakenOf(ops[n], log[n]))]
  }

  /** Whatever the order of the calls, the contents are those at the start with exactly the writes applied. */
  lemma {:induction false} TraceContents(states: seq<Loose>, ops: seq<Op>, log: seq<Event>)
    requires Trace(LooseStep, states, ops, log)
    ensures states[|ops|].contents == Applied(states[0].contents, Writes(states, ops, log))
    decreases |ops|
  {
    hide Overlay.Write, LooseStep, Trace;
    TraceLengths(LooseStep, states, ops, log);
    if ops != [] {
      var n := |ops| - 1;
      Shorten(LooseStep, states, ops, log);
      TraceContents(states[..n + 1], ops[..n], log[..n]);
      WritesPrefix(states, n + 1, ops[..n], log[..n]);
      WritesPrefix(states, n, ops[..n], log[..n]);
      var writes := Writes(states, ops, log);
      assert writes[..n] == Writes(states[..n], ops[..n], log[..n]);
      StepContents(states[n], ops[n], log[n], states[n + 1]);
    }
  }

  lemma TraceLengths<S>(step: (S, Op, Event, S) -> bool, states: seq<S>, ops: seq<Op>, log: seq<Event>)
    requires Trace(step, states, ops, log)
    ensures |ops| == |log| && |states| == |ops| + 1
  {
  }

  lemma StepContents(s: Loose, op: Op, ev: Event, s': Loose)
    requires LooseStep(s, op, ev, s')
    ensures s'.contents == Overlay.Write(s.contents, WriteAt(s), TakenOf(op, ev))
  {
    hide Overlay.Write, AbstractFile.ReadsAt;
    WriteNothing(s.contents, WriteAt(s), []);
  }

  /** Only the states before the calls matter. */
  lemma {:induction false} WritesPrefix(states: seq<Loose>, k: nat, ops: seq<Op>, log: seq<Event>)
    requires |ops| == |log| <= k <= |states|
    ensures Writes(states[..k], ops, log) == Writes(states, ops, log)
  {
    if ops != [] { assert states[..k][..|ops| - 1] == states[..|ops| - 1]; }
  }

  /** Makes one call in any state. A strict state stays strict unless the call writes into read-ahead. */
  method PerformAny(f: AbstractFile, op: Op) returns (ghost ev: Event)
    requires f.Valid() && f.fd.seekable && Callable(op)
    modifies f, f.mem, f.front, f.fd
    ensures f.Valid() && LooseStep(old(LooseView(f)), op, ev, LooseView(f))
    ensures old(f.Strict()) && (op.Write? ==> old(f.AtEnd())) ==> f.Strict()
    ensures op.Flush? && ev.e == 0 ==> f.fd.contents == f.Contents() && f.fd.pos == f.Position()
  {
    hide Overlay.Write, Logical, Clean, AbstractFile.Contents;
    match op
    case Read(max) => { ev := AnyRead(f, max); }
    case Write(src) => { ev := AnyWrite(f, src); }
    case Seek(distance, whence) => { ev := AnySeek(f, distance, whence); }
    case Flush => { ev := AnyFlush(f); }
    case Tell => { ev := AnyTell(f); }
    case Unget(c) => { ev := AnyUnget(f, c); }
  }

  method AnyRead(f: AbstractFile, max: nat) returns (ghost ev: Event)
    requires f.Valid() && f.fd.seekable && max > 0
    modifies f, f.mem, f.fd
    ensures f.Valid() && LooseStep(old(LooseView(f)), Op.Read(max), ev, LooseView(f))
    ensures old(f.Strict()) ==> f.Strict()
  {
    hide Overlay.Write, Logical, Clean, AbstractFile.Contents, AbstractFile.ReadsAt, AbstractFile.Pushed;
    hide AbstractFile.Stream, AbstractFile.Input, AbstractFile.Following, AbstractFile.Output;
    ghost var s := LooseView(f);
    var e, data, actual, u, more := f.Read(max);
    ev := Done(e, data, actual, 0);
    assert data[u..] == more && data[..u] + f.Pushed() == s.pushed;
    AheadInFile(f);
    assert Consistent(s, LooseView(f));
    if e != 0 { assert FailedRead(s, LooseView(f)); }
    if e == 0 && u < max { assert FreshRead(s, max - u, more, LooseView(f)); }
  }

  /** Read-ahead never goes past the end of the file. */
  lemma AheadInFile(f: AbstractFile)
    requires f.Valid() && f.fd.seekable
    ensures f.offset < f.validLimit ==> f.Position() + (f.validLimit - f.offset) <= |f.Contents()|
  {
    hide Overlay.Write, Logical, Clean;
    f.UnreadIsFile();
  }

  method AnyWrite(f: AbstractFile, src: seq<Byte>) returns (ghost ev: Event)
    requires f.Valid() && f.fd.seekable && src != []
    modifies f, f.mem, f.fd
    ensures f.Valid() && LooseStep(old(LooseView(f)), Op.Write(src), ev, LooseView(f))
    ensures old(f.AtEnd()) ==> f.Strict()
  {
    hide Overlay.Write, Logical, Clean, AbstractFile.Contents, AbstractFile.ReadsAt;
    hide AbstractFile.Stream, AbstractFile.Input, AbstractFile.Following, AbstractFile.Output;
    WriteNothing(f.Contents(), f.WritePosition(), src[..0]);
    var e, actual, taken := f.Write(src);
    ev := Done(e, [], actual, taken);
    AheadInFile(f);
  }

  method AnySeek(f: AbstractFile, distance: int, whence: Whence) returns (ghost ev: Event)
    requires f.Valid() && f.fd.seekable
    modifies f, f.mem, f.fd
    ensures f.Valid() && LooseStep(old(LooseView(f)), Op.Seek(distance, whence), ev, LooseView(f))
    ensures old(f.Strict()) ==> f.Strict()
  {
    hide Overlay.Write, Logical, Clean, AbstractFile.Contents, AbstractFile.Landing;
    var e := f.Seek(distance, whence);
    ev := Done(e, [], 0, 0);
    AheadInFile(f);
  }

  method AnyFlush(f: AbstractFile) returns (ghost ev: Event)
    requires f.Valid() && f.fd.seekable
    modifies f, f.mem, f.fd
    ensures f.Valid() && LooseStep(old(LooseView(f)), Op.Flush, ev, LooseView(f)) && (old(f.Strict()) ==> f.Strict())
    ensures ev.e == 0 ==> f.fd.contents == f.Contents() && f.fd.pos == f.Position()
  {
    hide Overlay.Write, Logical, Clean, AbstractFile.Contents, AbstractFile.Landing;
    var e := f.Flush();
    ev := Done(e, [], 0, 0);
    AheadInFile(f);
  }

  method AnyTell(f: AbstractFile) returns (ghost ev: Event)
    requires f.Valid() && f.fd.seekable
    modifies f.fd
    ensures f.Valid() && LooseStep(old(LooseView(f)), Op.Tell, ev, LooseView(f))
  {
    hide Overlay.Write, Logical, Clean, AbstractFile.Contents, AbstractFile.Landing, AbstractFile.Following;
    hide AbstractFile.Input, AbstractFile.Output, AbstractFile.Dirty, AbstractFile.Strict, AbstractFile.Pushed;
    hide AbstractFile.ReadPosition, AbstractFile.WritePosition;
    ghost var s := LooseView(f);
    var e, current := f.Tell();
    assert LooseView(f) == s.(faults := f.fd.faults);
    ev := Done(e, [], current, 0);
    AheadInFile(f);
  }

  method AnyUnget(f: AbstractFile, c: Byte) returns (ghost ev: Event)
    requires f.Valid() && f.fd.seekable
    modifies f`ungetLength, f.front
    ensures f.Valid() && LooseStep(old(LooseView(f)), Op.Unget(c), ev, LooseView(f)) && f.Strict() == old(f.Strict())
  {
    hide Overlay.Write, Logical, Clean, AbstractFile.Contents, AbstractFile.Landing, AbstractFile.Following;
    hide AbstractFile.Input, AbstractFile.Output, AbstractFile.Dirty, AbstractFile.Strict, AbstractFile.Pushed;
    hide AbstractFile.ReadPosition, AbstractFile.WritePosition;
    ghost var s := LooseView(f);
    AheadInFile(f);
    var r := f.Unget(c);
    ev := Done(0, [], r, 0);
    assert LooseView(f) == s.(pushed := f.Pushed());
  }

  /** Whatever the order of the calls, the stream takes the steps above, which say where each transfer takes place
      and what a read returns. */
  method RunLoose(f: AbstractFile, ops: seq<Op>) returns (ghost log: seq<Event>, ghost states: seq<Loose>)
    requires f.Valid() && f.fd.seekable && forall i :: 0 <= i < |ops| ==> Callable(ops[i])
    modifies f, f.mem, f.front, f.fd
    ensures f.Valid() && Trace(LooseStep, states, ops, log)
    ensures states[0] == old(LooseView(f)) && states[|ops|] == LooseView(f)
  {
    hide Overlay.Write, Logical, Clean, LooseStep, LooseView;
    log, states := [], [LooseView(f)];
    for i := 0 to |ops|
      invariant f.Valid() && Trace(LooseStep, states, ops[..i], log)
      invariant states[0] == old(LooseView(f)) && states[i] == LooseView(f)
    {
      ghost var ev := PerformAny(f, ops[i]);
      assert ops[..i + 1] == ops[..i] + [ops[i]];
      Extend(LooseStep, states, ops[..i], log, ops[i], ev, LooseView(f));
      log, states := log + [ev], states + [LooseView(f)];
    }
    assert ops[..|ops|] == ops;
  }

  /** After such a run, a successful write-back leaves the file with exactly the writes applied, also where clean
      bytes were rewritten along the way. */
  method RunAnyOrder(f: AbstractFile, ops: seq<Op>) returns (e: int, ghost log: seq<Event>, ghost states: seq<Loose>)
    requires f.Valid() && f.fd.seekable && forall i :: 0 <= i < |ops| ==> Callable(ops[i])
    modifies f, f.mem, f.front, f.fd
    ensures f.Valid() && Trace(LooseStep, states, ops, log) && states[0] == old(LooseView(f))
    ensures f.Contents() == states[|ops|].contents == Applied(old(f.Contents()), Writes(states, ops, log))
    ensures e == 0 ==> f.fd.contents == f.Contents()
  {
    hide Overlay.Write, Logical, Clean, Applied, Writes, LooseStep, AbstractFile.Contents;
    log, states := RunLoose(f, ops);
    TraceContents(states, ops, log);
    e := f.WriteBack();
  }

  // ---------------------------------------------------------- with the rule

  /** A file as a program sees it. ahead counts the bytes that were read ahead and are still unread, faults the calls
      that the descriptor refused. */
  datatype Plain = Plain(contents: seq<Byte>, pos: nat, ahead: nat, pushed: seq<Byte>, faults: nat)

  /** A read of a file without a buffer: push-back first, then the bytes at the position. A count of zero stands for
      push-back with nothing behind it, too. Read-ahead is never left by a failed read, and never past the end. */
  ghost predicate PlainRead(s: Plain, max: nat, ev: Event, s': Plain)
    requires ev.Done?
  {
    var u := Min(max, |s.pushed|);
    && s'.contents == s.contents && (s'.ahead > 0 ==> ev.e == 0 && s'.pos + s'.ahead <= |s'.contents|)
    && (ev.e != 0 ==> s'.pos == s.pos && ev.data + s'.pushed == s.pushed && |ev.data| < max)
    && (ev.e == 0 ==> u <= |ev.data| <= max && ev.data[..u] + s'.pushed == s.pushed)
    && (ev.e == 0 ==> ev.value == |ev.data| || (ev.value == 0 && |ev.data| == u < max))
    && (ev.e == 0 && u == max ==> s' == s.(pushed := s'.pushed))
    && (ev.e == 0 && u < max ==> AbstractFile.ReadsAt(s.contents, s.pos, ev.data[u..]))
    && (ev.e == 0 && u < max ==> s'.pos == s.pos + |ev.data| - u)
    && (ev.e == 0 && u < max && s.ahead > 0 ==> s'.ahead == s.ahead - (|ev.data| - u))
  }

  /** One call on a file without a buffer; only how many bytes a transfer moves is left open. Read-ahead appears
      only in reads, and a seek, a flush or a write ends it. */
  ghost predicate Step(s: Plain, op: Op, ev: Event, s': Plain) {
    ev.Done? && Blamed(s.faults, s'.faults, ev.e, Excused(s.contents, s.pos, op)) &&
    match op
    case Read(max) => PlainRead(s, max, ev, s')
    case Write(src) =>
      && ev.taken <= |src| && s'.contents == Overlay.Write(s.contents, s.pos, src[..ev.taken])
      && s'.pos == s.pos + ev.taken && (ev.e == 0 ==> ev.value == ev.taken > 0)
      && s'.ahead == 0 && s'.pushed == s.pushed
    case Seek(distance, whence) =>
      && (ev.e == 0 ==> s' == s.(pos := s'.pos, ahead := 0, pushed := []))
      && (ev.e == 0 ==> s'.pos == Target(s.contents, s.pos, distance, whence))
      && (ev.e != 0 ==> s' == s.(faults := s'.faults))
    case Flush => s' == if ev.e == 0 then s.(ahead := 0, pushed := []) else s.(faults := s'.faults)
    case Tell => s' == s.(faults := s'.faults) && (ev.e == 0 ==> ev.value == s.pos - |s.pushed|)
    case Unget(c) => ev.e == 0 && s' == s.(pushed := s'.pushed) && PushesBack(s.pushed, c, ev, s'.pushed)
  }

  /** A call that the rule forbids is not made. */
  ghost predicate RuleStep(s: Plain, op: Op, ev: Event, s': Plain) {
    if op.Write? && s.ahead > 0 then ev.NotAllowed? && s' == s else Step(s, op, ev, s')
  }

  /** In these states the stream lands at the end of what is unread. */
  predicate Aligned(s: Loose) { s.landing == s.pos + s.left && (s.dirty ==> s.left == 0) }

  function AsPlain(s: Loose): Plain { Plain(s.contents, s.pos, s.left, s.pushed, s.faults) }

  /** The rule is what makes the difference: from an aligned state, a call that is not a write into read-ahead is a
      step of a file without a buffer and leads to an aligned state. */
  lemma RuleIsPlain(s: Loose, op: Op, ev: Event, s': Loose)
    requires LooseStep(s, op, ev, s') && Aligned(s) && (op.Write? ==> s.left == 0)
    ensures Step(AsPlain(s), op, ev, AsPlain(s')) && Aligned(s')
  {
    hide Overlay.Write, AbstractFile.ReadsAt;
    if op.Write? && ev.taken == 0 { WriteNothing(s.contents, s.pos, op.src[..0]); }
  }

  /** A stream on a seekable file in a state that the mode-switch rule leads to. */
  ghost predicate Ready(f: AbstractFile)
    reads f, f.mem, f.fd
  {
    f.Valid() && f.Strict() && f.fd.seekable
  }

  ghost function View(f: AbstractFile): Plain
    requires f.Valid()
    reads f, f.mem, f.front, f.fd
  {
    AsPlain(LooseView(f))
  }

  /** One call under the rule. */
  method Perform(f: AbstractFile, op: Op) returns (ghost ev: Event)
    requires Ready(f) && Callable(op)
    modifies f, f.mem, f.front, f.fd
    ensures Ready(f) && RuleStep(old(View(f)), op, ev, View(f))
    ensures op.Flush? && ev.e == 0 ==> f.fd.contents == View(f).contents && f.fd.pos == View(f).pos
  {
    hide Overlay.Write, Logical, Clean, LooseStep, Step, AbstractFile.Contents;
    if op.Write? && f.offset != f.validLimit { return NotAllowed; }
    ghost var s := LooseView(f);
    ev := PerformAny(f, op);
    RuleIsPlain(s, op, ev, LooseView(f));
  }

  /** The rule in the caller's terms: whether a write is in order after these calls. It is after a successful seek or
      flush, and after a read that failed or met the end of the file; free says whether it was at the start. */
  predicate MayWrite(free: bool, states: seq<Plain>, ops: seq<Op>, log: seq<Event>)
    requires |ops| == |log| <= |states|
    decreases |ops|
  {
    if ops == [] then free
    else
      var n := |ops| - 1;
      var (op, ev, before) := (ops[n], log[n], MayWrite(free, states[..n], ops[..n], log[..n]));
      if !ev.Done? then before
      else if op.Seek? || op.Flush? then ev.e == 0 || before
      else if op.Read? then
        var u := Min(op.max, |states[n].pushed|);
        ev.e != 0 || |ev.data| == u < op.max || (u == op.max && before)
      else before
  }

  /** Where the rule allows a write, no read-ahead is unread. */
  lemma {:induction false} NothingAhead(free: bool, states: seq<Plain>, ops: seq<Op>, log: seq<Event>)
    requires Trace(RuleStep, states, ops, log) && (free ==> states[0].ahead == 0)
    ensures MayWrite(free, states, ops, log) ==> states[|ops|].ahead == 0
    decreases |ops|
  {
    hide Overlay.Write, RuleStep, Trace;
    TraceLengths(RuleStep, states, ops, log);
    if ops != [] {
      var n := |ops| - 1;
      Shorten(RuleStep, states, ops, log);
      NothingAhead(free, states[..n + 1], ops[..n], log[..n]);
      MayWritePrefix(free, states, n + 1, ops[..n], log[..n]);
      MayWritePrefix(free, states, n, ops[..n], log[..n]);
      AheadStep(states[n], ops[n], log[n], states[n + 1]);
    }
  }

  lemma AheadStep(s: Plain, op: Op, ev: Event, s': Plain)
    requires RuleStep(s, op, ev, s')
    ensures s.ahead == 0 && !op.Read? ==> s'.ahead == 0
    ensures ev.Done? && (op.Seek? || op.Flush?) && ev.e == 0 ==> s'.ahead == 0
    ensures op.Read? ==> ev.Done? && var u := Min(op.max, |s.pushed|);
              && (ev.e != 0 || |ev.data| == u < op.max ==> s'.ahead == 0)
              && (u == op.max && s.ahead == 0 ==> s'.ahead == 0)
    ensures !ev.Done? ==> s' == s
  {
    hide Overlay.Write;
  }

  lemma {:induction false} MayWritePrefix(free: bool, states: seq<Plain>, k: nat, ops: seq<Op>, log: seq<Event>)
    requires |ops| == |log| <= k <= |states|
    ensures MayWrite(free, states[..k], ops, log) == MayWrite(free, states, ops, log)
  {
    if ops != [] { assert states[..k][..|ops| - 1] == states[..|ops| - 1]; }
  }

  /** A program follows the rule. */
  ghost predicate FollowsRule(free: bool, states: seq<Plain>, ops: seq<Op>, log: seq<Event>)
    requires |ops| == |log| <= |states|
  {
    forall i :: 0 <= i < |ops| && ops[i].Write? ==> MayWrite(free, states[..i], ops[..i], log[..i])
  }

  /** A program that follows the rule has every call made, and sees a file without a buffer. */
  lemma RuleSuffices(free: bool, states: seq<Plain>, ops: seq<Op>, log: seq<Event>)
    requires Trace(RuleStep, states, ops, log) && (free ==> states[0].ahead == 0)
    requires FollowsRule(free, states, ops, log)
    ensures Trace(Step, states, ops, log)
  {
    hide RuleStep, Step, MayWrite;
    forall i | 0 <= i < |ops| ensures Step(states[i], ops[i], log[i], states[i + 1]) {
      assert RuleStep(states[i], ops[i], log[i], states[i + 1]);
      if ops[i].Write? {
        TracePrefix(RuleStep, states, ops, log, i);
        NothingAhead(free, states[..i + 1], ops[..i], log[..i]);
        MayWritePrefix(free, states, i, ops[..i], log[..i]);
        MayWritePrefix(free, states, i + 1, ops[..i], log[..i]);
      }
      AllowedStep(states[i], ops[i], log[i], states[i + 1]);
    }
  }

  lemma AllowedStep(s: Plain, op: Op, ev: Event, s': Plain)
    requires RuleStep(s, op, ev, s') && (op.Write? ==> s.ahead == 0)
    ensures Step(s, op, ev, s')
  {
    hide Step;
  }

  lemma TracePrefix<S>(step: (S, Op, Event, S) -> bool, states: seq<S>, ops: seq<Op>, log: seq<Event>, k: nat)
    requires Trace(step, states, ops, log) && k <= |ops|
    ensures Trace(step, states[..k + 1], ops[..k], log[..k])
  {
    forall i | 0 <= i < k ensures step(states[..k + 1][i], ops[..k][i], log[..k][i], states[..k + 1][i + 1]) {
      assert step(states[i], ops[i], log[i], states[i + 1]);
    }
  }

  /** Buffering is invisible: whatever calls a program makes, with whatever errors and short transfers
      underneath, the stream takes the steps of a file without a buffer. A program that follows the rule has every
      call made. */
  method Run(f: AbstractFile, ops: seq<Op>) returns (ghost log: seq<Event>, ghost states: seq<Plain>)
    requires Ready(f) && forall i :: 0 <= i < |ops| ==> Callable(ops[i])
    modifies f, f.mem, f.front, f.fd
    ensures Ready(f) && Trace(RuleStep, states, ops, log)
    ensures states[0] == old(View(f)) && states[|ops|] == View(f)
    ensures FollowsRule(states[0].ahead == 0, states, ops, log) ==> Trace(Step, states, ops, log)
  {
    hide Overlay.Write, Logical, Clean, RuleStep, Step, View, FollowsRule;
    log, states := [], [View(f)];
    for i := 0 to |ops|
      invariant Ready(f) && Trace(RuleStep, states, ops[..i], log)
      invariant states[0] == old(View(f)) && states[i] == View(f)
    {
      ghost var ev := Perform(f, ops[i]);
      assert ops[..i + 1] == ops[..i] + [ops[i]];
      Extend(RuleStep, states, ops[..i], log, ops[i], ev, View(f));
      log, states := log + [ev], states + [View(f)];
    }
    assert ops[..|ops|] == ops;
    if FollowsRule(states[0].ahead == 0, states, ops, log) { RuleSuffices(states[0].ahead == 0, states, ops, log); }
  }

  // ------------------------------------------------------------------ pipes

  /** A pipe as a program sees it: push-back, what is still to be read, and everything written. ahead counts the
      bytes that were read ahead. */
  datatype Pipe = Pipe(pushed: seq<Byte>, input: seq<Byte>, output: seq<Byte>, ahead: nat, faults: nat)

  ghost function PipeView(f: AbstractFile): Pipe
    requires f.Valid()
    reads f, f.mem, f.front, f.fd
  {
    Pipe(f.Pushed(), f.Input(), f.Output(), f.validLimit - f.offset, f.fd.faults)
  }

  ghost predicate PipeRead(s: Pipe, max: nat, ev: Event, s': Pipe)
    requires ev.Done?
  {
    var u := Min(max, |s.pushed|);
    && s'.output == s.output && s'.ahead <= |s'.input|
    && (ev.e != 0 ==> s'.input == s.input && ev.data + s'.pushed == s.pushed && |ev.data| < max && s'.ahead == 0)
    && (ev.e == 0 ==> u <= |ev.data| <= max && ev.data[..u] + s'.pushed == s.pushed)
    && (ev.e == 0 ==> ev.data[u..] + s'.input == s.input)
    && (ev.e == 0 ==> ev.value == |ev.data| || (ev.value == 0 && |ev.data| == u < max))
    && (ev.e == 0 && |ev.data| == u < max ==> s.input == [])
    && (ev.e == 0 && u == max ==> s' == s.(pushed := s'.pushed))
    && (ev.e == 0 && u < max && s.ahead > 0 ==> s'.ahead == s.ahead - (|ev.data| - u))
  }

  /** One call on a pipe. Reads return push-back and then the next bytes, writes append, and seeks and flushes lose
      nothing but push-back; a write with read-ahead still unread is not made. */
  ghost predicate PipeStep(s: Pipe, op: Op, ev: Event, s': Pipe) {
    (if ev.Done? then PipeBlamed(s, op, ev, s') else op.Write?) &&
    match op
    case Read(max) => PipeRead(s, max, ev, s')
    case Write(src) =>
      && (ev.NotAllowed? <==> s.ahead > 0) && (ev.NotAllowed? ==> s' == s)
      && (ev.Done? ==>
            ev.taken <= |src| && s' == s.(output := s.output + src[..ev.taken], faults := s'.faults))
      && (ev.Done? && ev.e == 0 ==> ev.value == ev.taken > 0)
    case Seek(distance, whence) => ev.e != 0 && s' == s.(faults := s'.faults)
    case Flush => s' == s.(pushed := if ev.e == 0 && s.ahead == 0 then [] else s.pushed, faults := s'.faults)
    case Tell => ev.e == ESPIPE && s' == s
    case Unget(c) => ev.e == 0 && s' == s.(pushed := s'.pushed) && PushesBack(s.pushed, c, ev, s'.pushed)
  }

  /** On a pipe the one error without a refusal is the ESPIPE of a seek or tell. */
  predicate PipeBlamed(s: Pipe, op: Op, ev: Event, s': Pipe)
    requires ev.Done?
  {
    Blamed(s.faults, s'.faults, ev.e, (op.Seek? || op.Tell?) && ev.e == ESPIPE)
  }

  /** The bytes that a call took from the pipe; the ones before them were pushed back. */
  function FreshOf(s: Pipe, op: Op, ev: Event): seq<Byte> {
    if op.Read? && ev.Done? && ev.e == 0 && Min(op.max, |s.pushed|) <= |ev.data|
    then ev.data[Min(op.max, |s.pushed|)..]
    else []
  }

  /** The bytes that the calls of a run took from the pipe. */
  function Obtained(states: seq<Pipe>, ops: seq<Op>, log: seq<Event>): seq<Byte>
    requires |ops| == |log| <= |states|
    decreases |ops|
  {
    if ops == [] then []
    else
      var n := |ops| - 1;
      Obtained(states[..n], ops[..n], log[..n]) + FreshOf(states[n], ops[n], log[n])
  }

  /** The bytes that they accepted. */
  function Accepted(ops: seq<Op>, log: seq<Event>): seq<Byte>
    requires |ops| == |log|
  {
    if ops == [] then []
    else Accepted(ops[..|ops| - 1], log[..|ops| - 1]) + TakenOf(ops[|ops| - 1], log[|ops| - 1])
  }

  lemma StepConserves(s: Pipe, op: Op, ev: Event, s': Pipe)
    requires PipeStep(s, op, ev, s')
    ensures FreshOf(s, op, ev) + s'.input == s.input && s'.output == s.output + TakenOf(op, ev)
  {
  }

  /** Conservation over any run on a pipe. */
  lemma {:induction false} PipeConserves(states: seq<Pipe>, ops: seq<Op>, log: seq<Event>)
    requires Trace(PipeStep, states, ops, log)
    ensures Obtained(states, ops, log) + states[|ops|].input == states[0].input
    ensures states[|ops|].output == states[0].output + Accepted(ops, log)
    decreases |ops|
  {
    hide PipeStep, FreshOf, TakenOf, Trace;
    TraceLengths(PipeStep, states, ops, log);
    if ops != [] {
      var n := |ops| - 1;
      Shorten(PipeStep, states, ops, log);
      PipeConserves(states[..n + 1], ops[..n], log[..n]);
      ObtainedPrefix(states, n + 1, ops[..n], log[..n]);
      ObtainedPrefix(states, n, ops[..n], log[..n]);
      StepConserves(states[n], ops[n], log[n], states[n + 1]);
      Regroup(Obtained(states[..n], ops[..n], log[..n]), FreshOf(states[n], ops[n], log[n]), states[n + 1].input);
      Regroup(states[0].output, Accepted(ops[..n], log[..n]), TakenOf(ops[n], log[n]));
    }
  }

  lemma {:induction false} ObtainedPrefix(states: seq<Pipe>, k: nat, ops: seq<Op>, log: seq<Event>)
    requires |ops| == |log| <= k <= |states|
    ensures Obtained(states[..k], ops, log) == Obtained(states, ops, log)
  {
    if ops != [] { assert states[..k][..|ops| - 1] == states[..|ops| - 1]; }
  }

  lemma Regroup(a: seq<Byte>, b: seq<Byte>, c: seq<Byte>)
    ensures (a + b) + c == a + (b + c)
  {
  }

  /** A pipe-like stream in a state that the mode-switch rule leads to. */
  ghost predicate PipeReady(f: AbstractFile)
    reads f, f.mem, f.fd
  {
    f.Valid() && f.Strict() && !f.fd.seekable
  }

  method PerformPipe(f: AbstractFile, op: Op) returns (ghost ev: Event)
    requires PipeReady(f) && Callable(op)
    modifies f, f.mem, f.front, f.fd
    ensures PipeReady(f) && PipeStep(old(PipeView(f)), op, ev, PipeView(f))
  {
    hide Overlay.Write, Logical, Clean, AbstractFile.Contents, AbstractFile.Dirty, AbstractFile.Unread;
    match op
    case Read(max) => { ev := ReadPipe(f, max); }
    case Write(src) => { ev := WritePipe(f, src); }
    case Seek(distance, whence) => { ev := SeekPipe(f, distance, whence); }
    case Flush => { ev := FlushPipe(f); }
    case Tell => { ev := TellPipe(f); }
    case Unget(c) => { ev := UngetPipe(f, c); }
  }

  method ReadPipe(f: AbstractFile, max: nat) returns (ghost ev: Event)
    requires PipeReady(f) && max > 0
    modifies f, f.mem, f.fd
    ensures PipeReady(f) && PipeStep(old(PipeView(f)), Op.Read(max), ev, PipeView(f))
  {
    hide Overlay.Write, Logical, Clean, AbstractFile.Contents, AbstractFile.Output, AbstractFile.Following;
    hide AbstractFile.Input, AbstractFile.Pushed, AbstractFile.Stream;
    f.StrictPosition();
    var e, data, actual, u, more := f.Read(max);
    ev := Done(e, data, actual, 0);
    assert data[u..] == more;
    AheadIsInput(f);
  }

  lemma AheadIsInput(f: AbstractFile)
    requires f.Valid() && !f.fd.seekable
    ensures f.validLimit - f.offset <= |f.Input()|
  {
    hide Overlay.Write, Logical, Clean, AbstractFile.Contents;
  }

  method WritePipe(f: AbstractFile, src: seq<Byte>) returns (ghost ev: Event)
    requires PipeReady(f) && src != []
    modifies f, f.mem, f.fd
    ensures PipeReady(f) && PipeStep(old(PipeView(f)), Op.Write(src), ev, PipeView(f))
  {
    hide Overlay.Write, Logical, Clean, AbstractFile.Contents, AbstractFile.Dirty, AbstractFile.Unread;
    hide AbstractFile.Input, AbstractFile.Output;
    if f.offset != f.validLimit { return NotAllowed; }
    var e, actual, taken := f.Write(src);
    ev := Done(e, [], actual, taken);
  }

  method SeekPipe(f: AbstractFile, distance: int, whence: Whence) returns (ghost ev: Event)
    requires PipeReady(f)
    modifies f, f.fd
    ensures PipeReady(f) && PipeStep(old(PipeView(f)), Op.Seek(distance, whence), ev, PipeView(f))
  {
    hide Overlay.Write, Logical, Clean, AbstractFile.Contents, AbstractFile.Dirty, AbstractFile.Unread;
    hide AbstractFile.Input, AbstractFile.Output, AbstractFile.Stream;
    var e := f.Seek(distance, whence);
    ev := Done(e, [], 0, 0);
  }

  method FlushPipe(f: AbstractFile) returns (ghost ev: Event)
    requires PipeReady(f)
    modifies f, f.fd
    ensures PipeReady(f) && PipeStep(old(PipeView(f)), Op.Flush, ev, PipeView(f))
  {
    hide Overlay.Write, Logical, Clean, AbstractFile.Contents, AbstractFile.Dirty, AbstractFile.Unread;
    hide AbstractFile.Input, AbstractFile.Output, AbstractFile.Pushed;
    var e := f.Flush();
    ev := Done(e, [], 0, 0);
  }

  method TellPipe(f: AbstractFile) returns (ghost ev: Event)
    requires PipeReady(f)
    modifies f.fd
    ensures PipeReady(f) && PipeStep(old(PipeView(f)), Op.Tell, ev, PipeView(f))
  {
    hide Overlay.Write, Logical, Clean, AbstractFile.Contents, AbstractFile.Landing, AbstractFile.Following;
    hide AbstractFile.Input, AbstractFile.Output, AbstractFile.Dirty, AbstractFile.Pushed;
    var e, current := f.Tell();
    ev := Done(e, [], 0, 0);
  }

  method UngetPipe(f: AbstractFile, c: Byte) returns (ghost ev: Event)
    requires PipeReady(f)
    modifies f`ungetLength, f.front
    ensures PipeReady(f) && PipeStep(old(PipeView(f)), Op.Unget(c), ev, PipeView(f))
  {
    hide Overlay.Write, Logical, Clean, AbstractFile.Contents, AbstractFile.Landing, AbstractFile.Following;
    hide AbstractFile.Input, AbstractFile.Output, AbstractFile.Dirty, AbstractFile.Strict, AbstractFile.Pushed;
    hide AbstractFile.ReadPosition, AbstractFile.WritePosition;
    ghost var s := PipeView(f);
    var r := f.Unget(c);
    ev := Done(0, [], r, 0);
    assert PipeView(f) == s.(pushed := f.Pushed());
  }

  /** Conservation: over any run, what the calls took, what is unread and what the pipe still holds is what was there
      to read, and what was delivered and is still dirty is what the calls accepted; flushes and failing seeks lose
      nothing of it. */
  method RunPipe(f: AbstractFile, ops: seq<Op>) returns (ghost log: seq<Event>, ghost states: seq<Pipe>)
    requires PipeReady(f) && forall i :: 0 <= i < |ops| ==> Callable(ops[i])
    modifies f, f.mem, f.front, f.fd
    ensures PipeReady(f) && Trace(PipeStep, states, ops, log)
    ensures states[0] == old(PipeView(f)) && states[|ops|] == PipeView(f)
    ensures Obtained(states, ops, log) + f.Unread() + f.fd.incoming == old(f.Unread()) + old(f.fd.incoming)
    ensures f.fd.delivered + f.Dirty() == old(f.fd.delivered) + old(f.Dirty()) + Accepted(ops, log)
  {
    hide Overlay.Write, Logical, Clean, AbstractFile.Input, AbstractFile.Output, AbstractFile.Unread;
    hide AbstractFile.Dirty;
    hide PipeStep, Obtained, Accepted, AbstractFile.Shape, AbstractFile.Strict;
    PipeMeans(f);
    log, states := PipeLoop(f, ops);
    PipeMeans(f);
    PipeConserves(states, ops, log);
    Regroup(Obtained(states, ops, log), f.Unread(), f.fd.incoming);
  }

  method PipeLoop(f: AbstractFile, ops: seq<Op>) returns (ghost log: seq<Event>, ghost states: seq<Pipe>)
    requires PipeReady(f) && forall i :: 0 <= i < |ops| ==> Callable(ops[i])
    modifies f, f.mem, f.front, f.fd
    ensures PipeReady(f) && Trace(PipeStep, states, ops, log)
    ensures states[0] == old(PipeView(f)) && states[|ops|] == PipeView(f)
  {
    hide Overlay.Write, Logical, Clean, PipeStep, PipeView;
    log, states := [], [PipeView(f)];
    for i := 0 to |ops|
      invariant PipeReady(f) && Trace(PipeStep, states, ops[..i], log)
      invariant states[0] == old(PipeView(f)) && states[i] == PipeView(f)
    {
      ghost var ev := PerformPipe(f, ops[i]);
      assert ops[..i + 1] == ops[..i] + [ops[i]];
      Extend(PipeStep, states, ops[..i], log, ops[i], ev, PipeView(f));
      log, states := log + [ev], states + [PipeView(f)];
    }
    assert ops[..|ops|] == ops;
  }

  /** What the two sides of the conservation law are made of. */
  lemma PipeMeans(f: AbstractFile)
    requires PipeReady(f)
    ensures f.Input() == f.Unread() + f.fd.incoming && f.Output() == f.fd.delivered + f.Dirty()
  {
    hide Overlay.Write, Logical, Clean;
  }
}
