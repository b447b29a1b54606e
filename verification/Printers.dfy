/** The character sinks of printf: one with a limit, for vsnprintf, and one that grows, for vasprintf. */
module Printers {
  import opened Overlay

  /** What formatting appends: a character, or a number of characters of a string. */
  datatype Piece = Char(c: char) | Text(s: string)

  function PieceText(p: Piece): string { if p.Char? then [p.c] else p.s }

  /** All output of a formatting run. */
  function Rendered(pieces: seq<Piece>): string {
    if pieces == [] then [] else Rendered(pieces[..|pieces| - 1]) + PieceText(pieces[|pieces| - 1])
  }

  lemma RenderedSnoc(pieces: seq<Piece>, i: nat)
    requires i < |pieces|
    ensures Rendered(pieces[..i + 1]) == Rendered(pieces[..i]) + PieceText(pieces[i])
  {
    assert pieces[..i + 1][..i] == pieces[..i];
  }

  /** Output is appended piece by piece: a character is itself, and a string is its characters. */
  lemma {:induction false} RenderedJoin(a: seq<Piece>, b: seq<Piece>)
    ensures Rendered(a + b) == Rendered(a) + Rendered(b)
    decreases |b|
  {
    if b == [] {
      assert a + b == a;
    } else {
      var n := |b| - 1;
      assert (a + b)[..|a + b| - 1] == a + b[..n];
      RenderedJoin(a, b[..n]);
    }
  }

  lemma RenderedPiece(c: char, s: string)
    ensures Rendered([Char(c)]) == [c] && Rendered([Text(s)]) == s
  {
    assert [Char(c)][..0] == [] && [Text(s)][..0] == [];
  }

  // ----------------------------------------------------- strings with a NUL

  /** A string up to its first NUL. */
  function Cut(s: string): string { if s == [] || s[0] == '\0' then [] else [s[0]] + Cut(s[1..]) }

  function CutPiece(p: Piece): Piece { if p.Text? then Text(Cut(p.s)) else p }

  function CutAll(pieces: seq<Piece>): (r: seq<Piece>)
    ensures |r| == |pieces|
  {
    seq(|pieces|, i requires 0 <= i < |pieces| => CutPiece(pieces[i]))
  }

  predicate NulFree(pieces: seq<Piece>) {
    forall i :: 0 <= i < |pieces| && pieces[i].Text? ==> '\0' !in pieces[i].s
  }

  lemma {:induction false} CutAt(s: string, n: nat)
    requires n <= |s| && '\0' !in s[..n] && (n < |s| ==> s[n] == '\0')
    ensures Cut(s) == s[..n]
    decreases n
  {
    if n > 0 {
      assert s[0] == s[..n][0];
      assert s[1..][..n - 1] == s[..n][1..];
      CutAt(s[1..], n - 1);
    }
  }

  lemma {:induction false} CutLength(s: string)
    ensures |Cut(s)| <= |s| && (|Cut(s)| == |s| <==> '\0' !in s) && ('\0' !in s ==> Cut(s) == s)
  {
    if s != [] {
      assert s == [s[0]] + s[1..];
      if s[0] != '\0' { CutLength(s[1..]); }
    }
  }

  /** Cutting loses nothing exactly when no string holds a NUL. */
  lemma {:induction false} CutLosesNothing(pieces: seq<Piece>)
    ensures |Rendered(CutAll(pieces))| <= |Rendered(pieces)|
    ensures |Rendered(CutAll(pieces))| == |Rendered(pieces)| <==> NulFree(pieces)
    ensures NulFree(pieces) ==> CutAll(pieces) == pieces
  {
    hide Cut, NulFree;
    if pieces == [] {
      NulFreeNothing();
    } else {
      var n := |pieces| - 1;
      CutLosesNothing(pieces[..n]);
      assert CutAll(pieces)[..n] == CutAll(pieces[..n]);
      if pieces[n].Text? { CutLength(pieces[n].s); }
      NulFreeSnoc(pieces);
      assert pieces == pieces[..n] + [pieces[n]];
    }
  }

  lemma NulFreeNothing()
    ensures NulFree([])
  {
  }

  lemma NulFreeSnoc(pieces: seq<Piece>)
    requires pieces != []
    ensures var n := |pieces| - 1;
            NulFree(pieces) <==> NulFree(pieces[..n]) && (pieces[n].Text? ==> '\0' !in pieces[n].s)
  {
    var n := |pieces| - 1;
    assert forall i :: 0 <= i < n ==> pieces[..n][i] == pieces[i];
  }

  /** A NUL inside a string: one character is left of three. */
  lemma CutInstance()
    ensures |Rendered(CutAll([Text("a\0b")]))| == 1 && |Rendered([Text("a\0b")])| == 3
  {
    CutAt("a\0b", 1);
    assert CutAll([Text("a\0b")])[..0] == [] && [Text("a\0b")][..0] == [];
  }

  /** strnlen. */
  method Strnlen(s: string) returns (n: nat)
    ensures n <= |s| && s[..n] == Cut(s)
  {
    n := 0;
    while n < |s| && s[n] != '\0'
      invariant n <= |s| && '\0' !in s[..n]
    {
      n := n + 1;
    }
    CutAt(s, n);
  }

  // ------------------------------------------------------------------- sinks

  /** Keeps the first limit characters and counts all of them. */
  class LimitedPrinter {
    const buffer: array<char>
    const limit: nat
    var count: nat

    constructor (buffer: array<char>, limit: nat)
      requires limit <= buffer.Length
      ensures this.buffer == buffer && this.limit == limit && Holds([])
    {
      this.buffer, this.limit, this.count := buffer, limit, 0;
    }

    /** text was appended so far. */
    ghost predicate Holds(text: string)
      reads this, buffer
    {
      limit <= buffer.Length && count == |text| && buffer[..Min(limit, count)] == text[..Min(limit, count)]
    }

    method AppendChar(c: char, ghost text: string)
      requires Holds(text)
      modifies this`count, buffer
      ensures Holds(text + [c]) && buffer[limit..] == old(buffer[limit..])
    {
      if count < limit { buffer[count] := c; }
      count := count + 1;
    }

    /** strncpy of as much as fits; everything is counted. */
    method AppendAll(s: string, ghost text: string)
      requires Holds(text)
      modifies this`count, buffer
      ensures Holds(text + s) && buffer[limit..] == old(buffer[limit..])
    {
      var room := if count < limit then limit - count else 0;
      var n := Min(|s|, room);
      var at := count;
      ghost var was := buffer[..];
      forall i | 0 <= i < n { buffer[at + i] := s[i]; }
      count := count + |s|;
      assert at < limit ==> buffer[..at + n] == was[..at] + s[..n];
    }

    /** Takes the string up to its first NUL. */
    method AppendText(s: string, ghost text: string)
      requires Holds(text)
      modifies this`count, buffer
      ensures Holds(text + Cut(s)) && buffer[limit..] == old(buffer[limit..])
    {
      hide Cut, Holds;
      var length := Strnlen(s);
      AppendAll(s[..length], text);
    }
  }

  /** Grows by doubling. */
  class ResizePrinter {
    var buffer: array<char>
    var limit: nat
    var count: nat

    constructor ()
      ensures Holds([]) && fresh(buffer)
    {
      buffer, limit, count := new char[0], 0, 0;
    }

    ghost predicate Holds(text: string)
      reads this, buffer
    {
      limit == buffer.Length && count == |text| <= limit && buffer[..count] == text
    }

    method Expand(ghost text: string)
      requires Holds(text)
      modifies this`buffer, this`limit
      ensures Holds(text) && count < limit && (buffer == old(buffer) || fresh(buffer))
    {
      if count == limit {
        var newLimit := Max(2 * limit, 16);
        var newBuffer := new char[newLimit](i => '\0');
        forall i | 0 <= i < count { newBuffer[i] := buffer[i]; }
        buffer, limit := newBuffer, newLimit;
      }
    }

    method AppendChar(c: char, ghost text: string)
      requires Holds(text)
      modifies this, buffer
      ensures Holds(text + [c]) && (buffer == old(buffer) || fresh(buffer))
    {
      Expand(text);
      buffer[count] := c;
      count := count + 1;
    }

    method AppendText(s: string, ghost text: string)
      requires Holds(text)
      modifies this, buffer
      ensures Holds(text + s) && (buffer == old(buffer) || fresh(buffer))
    {
      assert text + s[..0] == text;
      for i := 0 to |s|
        invariant Holds(text + s[..i]) && (buffer == old(buffer) || fresh(buffer))
      {
        AppendChar(s[i], text + s[..i]);
        assert text + s[..i] + [s[i]] == text + s[..i + 1];
      }
      assert text + s[..|s|] == text + s;
    }
  }

  /** vsnprintf: returns the length of the whole output, with strings cut at a NUL, and stores as much of it as
      fits, terminated. */
  method Vsnprintf(pieces: seq<Piece>, buffer: array<char>, maxSize: nat) returns (n: nat)
    requires maxSize <= buffer.Length
    modifies buffer
    ensures n == |Rendered(CutAll(pieces))|
    ensures maxSize > 0 ==>
              var k := Min(maxSize - 1, n); buffer[..k] == Rendered(CutAll(pieces))[..k] && buffer[k] == '\0'
    ensures buffer[maxSize..] == old(buffer[maxSize..])
  {
    hide Cut, Rendered;
    ghost var was := buffer[..];
    ghost var cut := CutAll(pieces);
    var p := new LimitedPrinter(buffer, if maxSize > 0 then maxSize - 1 else 0);
    RenderedNothing(cut[..0]);
    for i := 0 to |pieces|
      invariant p.Holds(Rendered(cut[..i])) && p.buffer == buffer && buffer[p.limit..] == was[p.limit..]
    {
      RenderedSnoc(cut, i);
      match pieces[i]
      case Char(c) => p.AppendChar(c, Rendered(cut[..i]));
      case Text(s) => p.AppendText(s, Rendered(cut[..i]));
    }
    assert cut[..|pieces|] == cut;
    n := p.count;
    assert buffer[maxSize..] == was[maxSize..] by {
      assert buffer[p.limit..][maxSize - p.limit..] == was[p.limit..][maxSize - p.limit..];
    }
    if maxSize > 0 { buffer[Min(maxSize - 1, p.count)] := '\0'; }
  }

  lemma RenderedNothing(pieces: seq<Piece>)
    requires pieces == []
    ensures Rendered(pieces) == []
  {
  }

  /** vasprintf: returns the whole output. */
  method Vasprintf(pieces: seq<Piece>) returns (out: array<char>, n: nat)
    ensures fresh(out) && n == |Rendered(pieces)| < out.Length
    ensures out[..n] == Rendered(pieces) && out[n] == '\0'
  {
    var p := new ResizePrinter();
    for i := 0 to |pieces|
      invariant p.Holds(Rendered(pieces[..i])) && fresh(p) && fresh(p.buffer)
    {
      RenderedSnoc(pieces, i);
      match pieces[i]
      case Char(c) => p.AppendChar(c, Rendered(pieces[..i]));
      case Text(s) => p.AppendText(s, Rendered(pieces[..i]));
    }
    assert pieces[..|pieces|] == pieces;
    p.Expand(Rendered(pieces));
    p.buffer[p.count] := '\0';
    return p.buffer, p.count;
  }

  /** The two report the same length exactly when no string holds a NUL, and then the bounded output is the
      truncated unbounded one. */
  method SameOutput(pieces: seq<Piece>, buffer: array<char>, maxSize: nat) returns (n: nat, whole: array<char>, m: nat)
    requires 0 < maxSize <= buffer.Length
    modifies buffer
    ensures n <= m < whole.Length && (n == m <==> NulFree(pieces))
    ensures NulFree(pieces) ==> buffer[..Min(maxSize - 1, n)] == whole[..Min(maxSize - 1, n)]
  {
    hide Rendered, NulFree, CutAll;
    whole, m := Vasprintf(pieces);
    n := Vsnprintf(pieces, buffer, maxSize);
    CutLosesNothing(pieces);
  }
}
