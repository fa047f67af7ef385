/** Splitting one read into wrapper frames (version, two ports, length: eight bytes, big-endian). */
module FrameSplitter {
  import opened Bytes
  import MessageBlock

  const LEN_HEADER := 8

  /** Swaps the two bytes of a 16-bit number. */
  function ReverseValue(v: nat): (r: nat)
    requires v < 0x1_0000
    ensures r < 0x1_0000
  {
    v % 256 * 256 + v / 256
  }

  lemma ReverseTwice(v: nat)
    requires v < 0x1_0000
    ensures ReverseValue(ReverseValue(v)) == v
  {
    var hi, lo := v / 256, v % 256;
    var r := ReverseValue(v);
    assert r == lo * 256 + hi;
    assert r / 256 == lo && r % 256 == hi;
  }

  /** The version field, as the host loads it, is 0x0100: the bytes 0 and 1. */
  predicate IsHeader(s: seq<byte>)
    requires |s| >= 2
  {
    Loaded(s, 0) == 0x0100
  }

  function FrameLength(s: seq<byte>): (n: nat)
    requires |s| >= LEN_HEADER
    ensures LEN_HEADER <= n
  {
    ReverseValue(Loaded(s, 6)) + LEN_HEADER
  }

  /** A stretch of the buffer that left it: a frame handed on, or bytes lost, which are a buffer
      that does not start with a header, or a frame too long for a message block. */
  datatype Piece = Frame(bytes: seq<byte>) | Lost(bytes: seq<byte>)

  /** The length is big-endian in the last two bytes of the header, without the header. */
  lemma FrameLengthExactly(s: seq<byte>)
    requires |s| >= 8
    ensures FrameLength(s) == 8 + 256 * (s[6] as int) + s[7] as int
  {
  }

  function PieceOf(frame: seq<byte>): Piece {
    if |frame| <= MessageBlock.MAX_DATA_LENGTH then Frame(frame) else Lost(frame)
  }

  /** What one call of `process_packet` takes out of a buffer, and what it leaves. */
  function Split(s: seq<byte>): (r: (seq<Piece>, seq<byte>)) {
    if |s| <= LEN_HEADER then ([], s)
    else if !IsHeader(s) then ([Lost(s)], [])
    else
      var n := FrameLength(s);
      if |s| < n then ([], s)
      else
        var (more, rest) := Split(s[n..]);
        ([PieceOf(s[..n])] + more, rest)
  }

  function Frames(ps: seq<Piece>): seq<seq<byte>> {
    if ps == [] then []
    else (if ps[0].Frame? then [ps[0].bytes] else []) + Frames(ps[1..])
  }

  function Join(ps: seq<Piece>): seq<byte> {
    if ps == [] then [] else ps[0].bytes + Join(ps[1..])
  }

  /** A whole frame at the front leaves as one piece; the rest is split on its own. */
  lemma SplitFront(s: seq<byte>)
    requires |s| > LEN_HEADER && IsHeader(s) && FrameLength(s) <= |s|
    ensures var n := FrameLength(s);
      Split(s) == ([PieceOf(s[..n])] + Split(s[n..]).0, Split(s[n..]).1)
  {
    hide IsHeader, FrameLength, PieceOf;
  }

  lemma JoinFront(p: Piece, more: seq<Piece>)
    ensures Join([p] + more) == p.bytes + Join(more)
  {
    assert ([p] + more)[1..] == more;
  }

  /** Nothing is lost track of: the pieces, in order, and the rest are the buffer. */
  lemma {:induction false} SplitConserves(s: seq<byte>)
    ensures Join(Split(s).0) + Split(s).1 == s
    decreases |s|, 1
  {
    hide IsHeader, FrameLength, PieceOf, Join;
    if |s| <= LEN_HEADER || (IsHeader(s) && |s| < FrameLength(s)) {
      JoinNothing();
    } else if !IsHeader(s) {
      JoinNothing();
      JoinFront(Lost(s), []);
      assert [Lost(s)] + [] == [Lost(s)];
    } else {
      SplitConservesStep(s);
    }
  }

  lemma {:induction false} SplitConservesStep(s: seq<byte>)
    requires |s| > LEN_HEADER && IsHeader(s) && FrameLength(s) <= |s|
    ensures Join(Split(s).0) + Split(s).1 == s
    decreases |s|, 0
  {
    hide IsHeader, FrameLength, Join, Split;
    var n := FrameLength(s);
    var front, back := s[..n], s[n..];
    SplitConserves(back);
    SplitFront(s);
    JoinFront(PieceOf(front), Split(back).0);
    assert front + (Join(Split(back).0) + Split(back).1) == front + Join(Split(back).0) + Split(back).1;
    assert front + back == s;
  }

  lemma JoinNothing()
    ensures Join([]) == []
  {
  }

  /** A whole frame: a header and exactly the payload it announces. */
  predicate IsFrame(f: seq<byte>) {
    |f| >= LEN_HEADER && IsHeader(f) && FrameLength(f) == |f|
  }

  /** The start of a frame whose end is not in the buffer, or at most a header's worth of bytes. */
  predicate IsIncomplete(t: seq<byte>) {
    |t| <= LEN_HEADER || (IsHeader(t) && |t| < FrameLength(t))
  }

  /** `format_packet` on a header with these ports: version and length are stored by a
      little-endian host, so the length leaves most significant byte first. */
  function Formatted(ports: seq<byte>, payload: seq<byte>): (f: seq<byte>)
    requires |ports| == 4 && |payload| < 0x1_0000
    ensures |f| == LEN_HEADER + |payload|
  {
    Stored(0x0100) + ports + Stored(ReverseValue(|payload|)) + payload
  }

  lemma FormattedIsFrame(ports: seq<byte>, payload: seq<byte>)
    requires |ports| == 4 && |payload| < 0x1_0000
    ensures IsFrame(Formatted(ports, payload))
    ensures Formatted(ports, payload)[2..6] == ports && Formatted(ports, payload)[8..] == payload
  {
    hide ReverseValue;
    var f, length := Formatted(ports, payload), ReverseValue(|payload|);
    ReverseTwice(|payload|);
    StoredLoaded([], 0x0100, ports + Stored(length) + payload);
    StoredLoaded(Stored(0x0100) + ports, length, payload);
    assert f == [] + Stored(0x0100) + (ports + Stored(length) + payload);
  }

  function Pieces(fs: seq<seq<byte>>): (ps: seq<Piece>)
    ensures |ps| == |fs|
  {
    if fs == [] then [] else [PieceOf(fs[0])] + Pieces(fs[1..])
  }

  lemma HeaderOfPrefix(f: seq<byte>, t: seq<byte>)
    requires IsFrame(f)
    ensures IsHeader(f + t) && FrameLength(f + t) == |f| && (f + t)[..|f|] == f && (f + t)[|f|..] == t
  {
    var s := f + t;
    assert s[0] == f[0] && s[1] == f[1] && s[6] == f[6] && s[7] == f[7];
  }

  /** Main result: frames followed by an incomplete tail leave as pieces, in order, and the tail
      stays, unless the very last frame has no payload and nothing follows it. */
  lemma {:induction false} SplitFrames(fs: seq<seq<byte>>, tail: seq<byte>)
    requires forall f <- fs :: IsFrame(f)
    requires IsIncomplete(tail)
    requires fs != [] && tail == [] ==> |fs[|fs| - 1]| > LEN_HEADER
    ensures Split(Concat(fs) + tail) == (Pieces(fs), tail)
    decreases |fs|
  {
    hide IsHeader, FrameLength, PieceOf;
    if fs == [] {
      assert Concat(fs) + tail == tail;
    } else {
      hide Split;
      var f, more := fs[0], fs[1..];
      var t := Concat(more) + tail;
      assert Concat(fs) + tail == f + t;
      HeaderOfPrefix(f, t);
      assert |f + t| > LEN_HEADER by {
        if more != [] { assert more[0] in fs; }
      }
      SplitFront(f + t);
      SplitFrames(more, tail);
    }
  }

  /** Frames followed by more than a header's worth of bytes that are no header: the frames leave,
      the rest is lost, and nothing stays. */
  lemma {:induction false} SplitFramesThenGarbage(fs: seq<seq<byte>>, tail: seq<byte>)
    requires forall f <- fs :: IsFrame(f)
    requires |tail| > 8 && (tail[0] != 0 || tail[1] != 1)
    ensures Split(Concat(fs) + tail) == (Pieces(fs) + [Lost(tail)], [])
    decreases |fs|
  {
    HeaderBytes(tail);
    hide IsHeader, FrameLength, PieceOf;
    if fs == [] {
      assert Concat(fs) + tail == tail && Pieces(fs) + [Lost(tail)] == [Lost(tail)];
    } else {
      hide Split;
      var f, more := fs[0], fs[1..];
      var t := Concat(more) + tail;
      assert Concat(fs) + tail == f + t;
      HeaderOfPrefix(f, t);
      SplitFront(f + t);
      SplitFramesThenGarbage(more, tail);
      assert [PieceOf(f)] + (Pieces(more) + [Lost(tail)]) == Pieces(fs) + [Lost(tail)];
    }
  }

  /** A frame of more than 1536 bytes is lost, a shorter one handed on. */
  lemma PieceExactly(f: seq<byte>)
    ensures PieceOf(f) == if |f| <= 1536 then Frame(f) else Lost(f)
  {
  }

  /** The exception: a last frame without payload is not longer than a header, so it stays. */
  lemma {:induction false} SplitLeavesEmptyFrame(fs: seq<seq<byte>>)
    requires fs != [] && (forall f <- fs :: IsFrame(f)) && |fs[|fs| - 1]| == LEN_HEADER
    ensures Split(Concat(fs)) == (Pieces(fs[..|fs| - 1]), fs[|fs| - 1])
    decreases |fs|
  {
    var last := fs[|fs| - 1];
    assert fs == fs[..|fs| - 1] + [last];
    ConcatAppend(fs[..|fs| - 1], last);
    SplitFrames(fs[..|fs| - 1], last);
  }

  lemma {:induction false} FramesOfPieces(fs: seq<seq<byte>>)
    requires forall f <- fs :: |f| <= MessageBlock.MAX_DATA_LENGTH
    ensures Frames(Pieces(fs)) == fs
    decreases |fs|
  {
    if fs != [] {
      FramesOfPieces(fs[1..]);
      assert Pieces(fs)[1..] == Pieces(fs[1..]);
      assert [fs[0]] + fs[1..] == fs;
    }
  }

  /** So frames of at most 1536 bytes are dispatched one by one and the tail is left exactly
      when the last of them has a payload or something follows it. */
  lemma DispatchesExactly(fs: seq<seq<byte>>, tail: seq<byte>)
    requires forall f <- fs :: IsFrame(f) && |f| <= 1536
    requires IsIncomplete(tail)
    ensures Frames(Split(Concat(fs) + tail).0) == fs && Split(Concat(fs) + tail).1 == tail
       <==> (fs != [] && tail == [] ==> |fs[|fs| - 1]| > 8)
  {
    hide Split, Concat, Pieces, Frames, FrameLength, IsHeader;
    FramesOfPieces(fs);
    if fs != [] && tail == [] && |fs[|fs| - 1]| == LEN_HEADER {
      SplitLeavesEmptyFrame(fs);
      assert Concat(fs) + tail == Concat(fs);
    } else {
      SplitFrames(fs, tail);
    }
  }

  // The objects

  class FrameBuffer {
    var buffer: seq<byte>

    constructor ()
      ensures buffer == []
    {
      buffer := [];
    }

    method Add(bytes: seq<byte>)
      modifies this
      ensures buffer == old(buffer) + bytes
    {
      buffer := buffer + bytes;
    }

    function Size(): nat
      reads this
    {
      |buffer|
    }

    function At(pos: nat): byte
      reads this
    {
      if pos >= |buffer| then 0 else buffer[pos]
    }

    method Remove(begin: nat, length: nat)
      requires begin + length <= |buffer|
      modifies this
      ensures buffer == old(buffer)[..begin] + old(buffer)[begin + length..]
    {
      buffer := buffer[..begin] + buffer[begin + length..];
    }

    method GetBlock(begin: nat, len: nat, mb: MessageBlock.Block) returns (ok: bool)
      requires mb.Valid()
      modifies mb, mb.base
      ensures mb.Valid()
      ensures ok <==> begin + len <= |buffer|
      ensures ok ==> mb.Contents() == if len <= MessageBlock.MAX_DATA_LENGTH then buffer[begin..begin + len] else []
      ensures !ok ==> mb.Contents() == old(mb.Contents())
    {
      if |buffer| < begin + len { return false; }
      mb.Reset();
      var code := mb.Copy(buffer[begin..begin + len]);
      return true;
    }

    method ExtractBlock(begin: nat, len: nat, mb: MessageBlock.Block) returns (ok: bool)
      requires mb.Valid()
      modifies this, mb, mb.base
      ensures mb.Valid()
      ensures ok <==> begin + len <= |old(buffer)|
      ensures ok ==>
        mb.Contents() == if len <= MessageBlock.MAX_DATA_LENGTH then old(buffer)[begin..begin + len] else []
      ensures ok ==> buffer == old(buffer)[..begin] + old(buffer)[begin + len..]
      ensures !ok ==> buffer == old(buffer)
    {
      if |buffer| < begin + len { return false; }
      mb.Reset();
      var code := mb.Copy(buffer[begin..begin + len]);
      Remove(begin, len);
      return true;
    }
  }

  /** `parse_packet` on a block copied into a zeroed packet buffer. */
  predicate PacketAccepted(block: seq<byte>) {
    |block| >= 2 && IsHeader(block)
  }

  class Splitter {
    /** The tasks put to the thread pool. */
    var tasks: seq<seq<byte>>

    constructor ()
      ensures tasks == []
    {
      tasks := [];
    }

    /** `hasMeter`: the session's meter handler exists. */
    method HandleResponse(block: seq<byte>, hasMeter: bool)
      modifies this
      ensures tasks == if PacketAccepted(block) && hasMeter then old(tasks) + [block] else old(tasks)
    {
      if !(|block| >= 2 && IsHeader(block)) { return; }
      if !hasMeter { return; }
      tasks := tasks + [block];
    }

    /** One frame off the front. Every round that returns true removes at least eight bytes. */
    method ParseResponseFrame(buffer: FrameBuffer, hasMeter: bool) returns (ok: bool)
      modifies this, buffer
      ensures ok == HasFrame(old(buffer.buffer))
      ensures ok ==> buffer.buffer == old(buffer.buffer)[FrameLength(old(buffer.buffer))..]
      ensures ok ==> |buffer.buffer| + LEN_HEADER <= |old(buffer.buffer)|
      ensures ok ==> tasks == old(tasks) + (if hasMeter then Frames([FrontPiece(old(buffer.buffer))]) else [])
      ensures !ok ==> buffer.buffer == old(buffer.buffer) && tasks == old(tasks)
    {
      hide Loaded, ReverseValue, Split, Frames;
      ghost var s := buffer.buffer;
      var mb := new MessageBlock.Block();
      ok := buffer.GetBlock(0, LEN_HEADER, mb);
      if !ok { return; }
      var header := mb.base[mb.rd..mb.wr];
      assert header == s[..LEN_HEADER];
      LoadFront(s);
      if Loaded(header, 0) != 0x0100 { return false; }
      var length := ReverseValue(Loaded(header, 6)) + LEN_HEADER;
      assert length == FrameLength(s);
      ok := buffer.ExtractBlock(0, length, mb);
      if !ok { return; }
      assert s[..0] + s[length..] == s[length..];
      var block := mb.base[mb.rd..mb.wr];
      FrontAccepted(s, block);
      HandleResponse(block, hasMeter);
    }

    method ProcessPacket(buffer: FrameBuffer, hasMeter: bool)
      modifies this, buffer
      ensures buffer.buffer == Split(old(buffer.buffer)).1
      ensures tasks == old(tasks) + (if hasMeter then Frames(Split(old(buffer.buffer)).0) else [])
    {
      hide Split, IsHeader, FrameLength, PieceOf, Frames;
      ghost var taken: seq<Piece> := [];
      ghost var start := buffer.buffer;
      SplitFrom(start);
      FramesNothing();
      while buffer.Size() > LEN_HEADER
        invariant Split(start) == (taken + Split(buffer.buffer).0, Split(buffer.buffer).1)
        invariant tasks == old(tasks) + (if hasMeter then Frames(taken) else [])
        decreases |buffer.buffer|
      {
        ghost var s, sofar := buffer.buffer, taken;
        if buffer.At(0) != 0x00 || buffer.At(1) != 0x01 {
          var mb := new MessageBlock.Block();
          var cleared := buffer.ExtractBlock(0, buffer.Size(), mb);
          assert s[..0] + s[|s|..] == [];
          SplitLost(taken, s);
          taken := taken + [Lost(s)];
        }
        ghost var front := buffer.buffer;
        HeaderBytes(front);
        var ok := ParseResponseFrame(buffer, hasMeter);
        if !ok { break; }
        SplitTakes(taken, front);
        taken := taken + [FrontPiece(front)];
      }
      SplitRests(taken, buffer.buffer);
    }
  }

  /** The buffer starts with a whole frame. */
  predicate HasFrame(s: seq<byte>) {
    |s| >= LEN_HEADER && IsHeader(s) && FrameLength(s) <= |s|
  }

  function FrontPiece(s: seq<byte>): Piece
    requires HasFrame(s)
  {
    PieceOf(s[..FrameLength(s)])
  }

  lemma LoadFront(s: seq<byte>)
    requires |s| >= LEN_HEADER
    ensures Loaded(s[..LEN_HEADER], 0) == Loaded(s, 0) && Loaded(s[..LEN_HEADER], 6) == Loaded(s, 6)
  {
  }

  lemma FrontAccepted(s: seq<byte>, block: seq<byte>)
    requires HasFrame(s)
    requires block == if FrameLength(s) <= MessageBlock.MAX_DATA_LENGTH then s[..FrameLength(s)] else []
    ensures (if PacketAccepted(block) then [block] else []) == Frames([FrontPiece(s)])
  {
    hide FrameLength;
    OnePiece(FrontPiece(s));
  }

  lemma SplitFrom(s: seq<byte>)
    ensures Split(s) == ([] + Split(s).0, Split(s).1)
  {
    hide Split;
    assert [] + Split(s).0 == Split(s).0;
  }

  lemma OnePiece(p: Piece)
    ensures Frames([p]) == if p.Frame? then [p.bytes] else []
  {
    assert Frames([p]) == (if p.Frame? then [p.bytes] else []) + Frames([]);
  }

  lemma {:induction false} FramesAppend(ps: seq<Piece>, qs: seq<Piece>)
    ensures Frames(ps + qs) == Frames(ps) + Frames(qs)
    decreases |ps|
  {
    if ps == [] {
      assert ps + qs == qs;
    } else {
      assert (ps + qs)[1..] == ps[1..] + qs;
      FramesAppend(ps[1..], qs);
    }
  }

  lemma HeaderBytes(s: seq<byte>)
    ensures |s| >= 2 ==> (IsHeader(s) <==> s[0] == 0 && s[1] == 1)
  {
  }

  lemma FramesNothing()
    ensures Frames([]) == []
  {
  }

  /** A buffer that does not start with a header is lost whole. */
  lemma SplitLost(taken: seq<Piece>, s: seq<byte>)
    requires |s| > LEN_HEADER && (s[0] != 0 || s[1] != 1)
    ensures (taken + Split(s).0, Split(s).1) == (taken + [Lost(s)] + Split([]).0, Split([]).1)
    ensures Frames(taken + [Lost(s)]) == Frames(taken)
  {
    FramesAppend(taken, [Lost(s)]);
    OnePiece(Lost(s));
    assert taken + [Lost(s)] + [] == taken + [Lost(s)];
    HeaderBytes(s);
  }

  lemma SplitTakes(taken: seq<Piece>, s: seq<byte>)
    requires |s| > LEN_HEADER && HasFrame(s)
    ensures var p, rest := FrontPiece(s), Split(s[FrameLength(s)..]);
      (taken + Split(s).0, Split(s).1) == (taken + [p] + rest.0, rest.1)
    ensures Frames(taken + [FrontPiece(s)]) == Frames(taken) + Frames([FrontPiece(s)])
  {
    hide IsHeader, FrameLength, PieceOf, Split;
    SplitFront(s);
    var p, more := FrontPiece(s), Split(s[FrameLength(s)..]).0;
    assert taken + ([p] + more) == taken + [p] + more;
    FramesAppend(taken, [p]);
  }

  lemma SplitRests(taken: seq<Piece>, s: seq<byte>)
    requires |s| <= LEN_HEADER || !HasFrame(s)
    requires |s| > LEN_HEADER ==> IsHeader(s)
    ensures taken + Split(s).0 == taken && Split(s).1 == s
  {
    hide IsHeader, FrameLength;
  }
}
