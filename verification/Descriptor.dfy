/** The operating system's side of a stream: a seekable file, or a pipe. Errors and the sizes of
    short transfers are arbitrary. */
module Descriptor {
  import opened Overlay

  const ESPIPE: int := 29

  datatype Whence = Set | Cur | End

  /** The file position a seek asks for. */
  function Target(contents: seq<Byte>, pos: nat, distance: int, whence: Whence): int {
    match whence
    case Set => distance
    case Cur => pos + distance
    case End => |contents| + distance
  }

  /** Errors have a cause: one is reported whenever the descriptor refused a call, and none without that unless it
      is excused. */
  predicate Blamed(before: nat, after: nat, e: int, excused: bool) {
    before <= after && (before < after ==> e != 0) && (e != 0 ==> before < after || excused)
  }

  class FileDescriptor {
    const seekable: bool
    const terminal: bool
    /** A seekable file: its bytes and the file pointer. */
    var contents: seq<Byte>
    var pos: nat
    /** A pipe: bytes still to be read from it, and bytes written to it. */
    var incoming: seq<Byte>
    var delivered: seq<Byte>
    /** Number of seek calls made. */
    var seeks: nat
    /** Number of calls refused, other than seeks on a pipe or to a place before the file. */
    var faults: nat

    constructor (seekable: bool, terminal: bool, contents: seq<Byte>, pos: nat, incoming: seq<Byte>)
      ensures this.seekable == seekable && this.terminal == terminal && this.contents == contents && this.pos == pos
      ensures this.incoming == incoming && delivered == [] && seeks == faults == 0
    {
      this.seekable, this.terminal, this.contents, this.pos := seekable, terminal, contents, pos;
      this.incoming, this.delivered, this.seeks, this.faults := incoming, [], 0, 0;
    }

    /** isatty. */
    method IsTerminal() returns (e: int, yes: bool)
      modifies this`faults
      ensures faults == old(faults) + (if e != 0 then 1 else 0) && e != ESPIPE
      ensures e == 0 ==> yes == terminal
    {
      e := Refuse();
      yes := terminal;
    }

    /** Decides whether a call is refused. */
    method Refuse() returns (e: int)
      modifies this`faults
      ensures faults == old(faults) + (if e != 0 then 1 else 0) && e != ESPIPE
    {
      e := 0;
      var fail := *;
      if fail {
        e :| 1 <= e < 4096 && e != ESPIPE;
        faults := faults + 1;
      }
    }

    /** The bytes that reading would still deliver. */
    function Ahead(): seq<Byte>
      reads this
    {
      if !seekable then incoming
      else if pos <= |contents| then contents[pos..]
      else []
    }

    /** Reads at least one byte, unless there is none; or fails without effect. ESPIPE is an error of seeking only. */
    method Read(max: nat) returns (e: int, data: seq<Byte>)
      requires max > 0
      modifies this`pos, this`incoming, this`faults
      ensures e != 0 ==> pos == old(pos) && incoming == old(incoming) && data == []
      ensures faults == old(faults) + (if e != 0 then 1 else 0) && e != ESPIPE
      ensures e == 0 ==> |data| <= max && data + Ahead() == old(Ahead()) && (data == [] ==> old(Ahead()) == [])
      ensures e == 0 && seekable ==> pos == old(pos) + |data| && incoming == old(incoming)
      ensures e == 0 && !seekable ==> pos == old(pos)
    {
      data := [];
      e := Refuse();
      if e != 0 { return; }
      var ahead := Ahead();
      var k := 0;
      if ahead != [] { k :| 1 <= k <= max && k <= |ahead|; }
      data := ahead[..k];
      if seekable { pos := pos + k; } else { incoming := incoming[k..]; }
      assert data + Ahead() == ahead;
    }

    /** Writes at least one byte, or fails without effect. */
    method Write(data: seq<Byte>) returns (e: int, n: nat)
      requires data != []
      modifies this`contents, this`pos, this`delivered, this`faults
      ensures e != 0 ==> contents == old(contents) && pos == old(pos) && delivered == old(delivered)
      ensures e == 0 ==> 1 <= n <= |data|
      ensures faults == old(faults) + (if e != 0 then 1 else 0) && e != ESPIPE
      ensures e == 0 && seekable ==>
                && contents == Overlay.Write(old(contents), old(pos), data[..n])
                && pos == old(pos) + n && delivered == old(delivered)
      ensures e == 0 && !seekable ==>
                delivered == old(delivered) + data[..n] && pos == old(pos) && contents == old(contents)
    {
      n := 0;
      e := Refuse();
      if e != 0 { return; }
      n :| 1 <= n <= |data|;
      if seekable {
        contents, pos := Overlay.Write(contents, pos, data[..n]), pos + n;
      } else {
        delivered := delivered + data[..n];
      }
    }

    /** Moves the file pointer; a pipe answers ESPIPE. */
    method Seek(distance: int, whence: Whence) returns (e: int, current: int)
      modifies this`pos, this`seeks, this`faults
      ensures seeks == old(seeks) + 1
      ensures !seekable ==> e == ESPIPE == 29
      ensures seekable ==> e != ESPIPE
      ensures e != 0 ==> pos == old(pos)
      ensures e == 0 ==> pos == current == Target(contents, old(pos), distance, whence)
      ensures var faulty := e != 0 && seekable && Target(contents, old(pos), distance, whence) >= 0;
              faults == old(faults) + if faulty then 1 else 0
    {
      seeks := seeks + 1;
      current := Target(contents, pos, distance, whence);
      if !seekable { return ESPIPE, current; }
      if current < 0 {
        e :| 1 <= e < 4096 && e != ESPIPE;
        return;
      }
      e := Refuse();
      if e == 0 { pos := current; }
    }
  }
}
