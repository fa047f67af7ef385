/** HDLC frames: formatting and parsing in place in one packet buffer, on a little-endian host. */
module HdlcPacket {
  import opened Crc16
  import opened CrcErrors
  import opened CrcOrder

  const MAX_PACKET_LENGTH := 1536
  const LEN_HEADER := 11
  const FLAG: octet := 0x7e

  // The frame as a value

  /** The two bytes of the frame type area, high byte first on the wire: the length with
      format bits 1010 above it and no segmentation bit. */
  function TypeHigh(length: nat): octet
    requires length < 0x1000
  {
    ((length / 256) as octet) | 0xa0
  }

  function TypeLow(length: nat): octet
    requires length < 0x1000
  {
    (length % 256) as octet
  }

  /** The ten length bits that the parser keeps. */
  function LengthField(b: seq<octet>): (n: nat)
    requires |b| >= LEN_HEADER
    ensures n < 1024
  {
    TwoBits(b[1]);
    ((b[1] & 0x03) as int) * 256 + b[2] as int
  }

  lemma TwoBits(v: octet)
    ensures (v & 0x03) as int < 4
  {
  }

  function PutLittle(b: seq<octet>, at: nat, v: bv16): (r: seq<octet>)
    requires at + 2 <= |b|
    ensures |r| == |b|
  {
    b[at := Low(v)][at + 1 := High(v)]
  }

  /** The number the frame's length area holds: header, data and both check sequences. */
  function FrameLength(len: nat): nat {
    if len > 0 then len + 12 else 10
  }

  function PacketLength(len: int): int {
    if len == 0 then 12 else len + 14
  }

  /** Opening flag, frame type with the length `n`, and the header check sequence. */
  function WithLength(b: seq<octet>, n: nat): (r: seq<octet>)
    requires |b| == MAX_PACKET_LENGTH && n < 0x1000
    ensures |r| == |b|
  {
    var h := b[0 := FLAG][1 := TypeHigh(n)][2 := TypeLow(n)];
    PutLittle(h, 9, Fcs(h[1..9]))
  }

  function WithHeader(b: seq<octet>, len: nat): (r: seq<octet>)
    requires |b| == MAX_PACKET_LENGTH && len + 14 <= MAX_PACKET_LENGTH
    ensures |r| == |b|
  {
    WithLength(b, FrameLength(len))
  }

  /** What `format_packet` leaves in the buffer for `len` bytes of data at offset 11. */
  function Formatted(b: seq<octet>, len: nat): (r: seq<octet>)
    requires |b| == MAX_PACKET_LENGTH && len + 14 <= MAX_PACKET_LENGTH
    ensures |r| == |b|
  {
    var h := WithHeader(b, len);
    if len == 0 then h[11 := FLAG]
    else PutLittle(h, len + 11, Fcs(h[1..len + 11]))[len + 13 := FLAG]
  }

  /** What it leaves for the data length -1, which parsing a length field of 11 sets: the closing
      flag falls on the header check sequence. */
  function FormattedShort(b: seq<octet>): (r: seq<octet>)
    requires |b| == MAX_PACKET_LENGTH
    ensures |r| == |b|
  {
    WithLength(b, 9)[10 := FLAG]
  }

  /** The data length the parser derives; -1 for a length field of 11. */
  function DataLength(b: seq<octet>): (len: int)
    requires |b| >= LEN_HEADER && LengthField(b) >= 10
    ensures -1 <= len <= 1011
  {
    if LengthField(b) == 10 then 0 else LengthField(b) - 12
  }

  predicate HeaderAccepted(b: seq<octet>)
    requires |b| >= LEN_HEADER
  {
    b[0] == FLAG && LengthField(b) >= 10 && Little(b[9], b[10]) == Fcs(b[1..9])
  }

  predicate Accepted(b: seq<octet>)
    requires |b| == MAX_PACKET_LENGTH
  {
    && HeaderAccepted(b)
    && var len := DataLength(b);
    && (len > 0 ==> Little(b[len + 11], b[len + 12]) == Fcs(b[1..len + 11]))
    && b[PacketLength(len) - 1] == FLAG
  }

  // Formatting and parsing agree

  lemma NextByte(b: octet)
    requires b < 255
    ensures (b + 1) as int == b as int + 1
  {
  }

  ghost function ByteOf(n: nat): (b: octet)
    requires n < 256
    ensures b as int == n
  {
    if n == 0 then 0 else
      NextByte(ByteOf(n - 1));
      ByteOf(n - 1) + 1
  }

  lemma LowRoundTrip(n: nat)
    requires n < 256
    ensures (n as octet) as int == n
  {
    var b := ByteOf(n);
    hide ByteOf;
    assert (b as int) as octet == b;
  }

  lemma HighRoundTrip(n: nat)
    requires n < 4
    ensures (((n as octet) | 0xa0) & 0x03) as int == n
  {
    assert n == 0 || n == 1 || n == 2 || n == 3;
  }

  lemma SmallLength(b: seq<octet>, n: nat)
    requires |b| >= LEN_HEADER && n < 1024 && b[1] == TypeHigh(n) && b[2] == TypeLow(n)
    ensures LengthField(b) == n
  {
    LowRoundTrip(n % 256);
    HighRoundTrip(n / 256);
  }

  lemma WithHeaderBytes(b: seq<octet>, len: nat)
    requires |b| == MAX_PACKET_LENGTH && len + 14 <= MAX_PACKET_LENGTH
    ensures var h, n := WithHeader(b, len), FrameLength(len);
            && h[0] == FLAG && h[1] == TypeHigh(n) && h[2] == TypeLow(n)
            && h[3..9] == b[3..9] && h[11..] == b[11..]
            && Little(h[9], h[10]) == Fcs(h[1..9])
  {
    hide Fcs, TypeHigh, TypeLow, Low, High, Little;
    var n := FrameLength(len);
    var h0 := b[0 := FLAG][1 := TypeHigh(n)][2 := TypeLow(n)];
    var h := WithHeader(b, len);
    assert h[1..9] == h0[1..9];
    LittleRoundTrip(Fcs(h0[1..9]));
  }

  /** The bytes of a formatted frame, part by part. */
  lemma FormattedBytes(b: seq<octet>, len: nat)
    requires |b| == MAX_PACKET_LENGTH && len + 14 <= MAX_PACKET_LENGTH
    ensures var f := Formatted(b, len);
            && f[..len + 11] == WithHeader(b, len)[..len + 11]
            && f[PacketLength(len) - 1] == FLAG
            && (len > 0 ==> Little(f[len + 11], f[len + 12]) == Fcs(f[1..len + 11]))
  {
    hide Fcs, WithHeader, Low, High, Little;
    var h, f := WithHeader(b, len), Formatted(b, len);
    assert f[..len + 11] == h[..len + 11];
    assert f[1..len + 11] == h[1..len + 11] by { assert f[..len + 11][1..] == h[..len + 11][1..]; }
    LittleRoundTrip(Fcs(h[1..len + 11]));
  }

  lemma FormattedHeader(b: seq<octet>, len: nat)
    requires |b| == MAX_PACKET_LENGTH && len + 14 <= MAX_PACKET_LENGTH
    ensures var f, n := Formatted(b, len), FrameLength(len);
            && f[0] == FLAG && f[1] == TypeHigh(n) && f[2] == TypeLow(n)
            && f[3..9] == b[3..9] && f[11..11 + len] == b[11..11 + len]
            && Little(f[9], f[10]) == Fcs(f[1..9])
  {
    hide Fcs, WithHeader, Formatted, TypeHigh, TypeLow, Low, High, Little;
    var h, f := WithHeader(b, len), Formatted(b, len);
    WithHeaderBytes(b, len);
    FormattedBytes(b, len);
    SamePrefix(f, h, len + 11);
    assert b[11..][..len] == b[11..11 + len] && h[11..][..len] == h[11..11 + len];
  }

  lemma SamePrefix(f: seq<octet>, h: seq<octet>, n: nat)
    requires |f| == |h| && 11 <= n <= |f| && f[..n] == h[..n]
    ensures forall i | 0 <= i < n :: f[i] == h[i]
    ensures f[1..9] == h[1..9] && f[3..9] == h[3..9] && f[11..n] == h[11..n]
  {
    forall i | 0 <= i < n ensures f[i] == h[i] { assert f[i] == f[..n][i] && h[i] == h[..n][i]; }
  }

  /** Main result: the parser accepts a formatted frame and finds its data length and packet
      length exactly when there are at most 1011 bytes of data: it keeps ten length bits.
      The address, control and data bytes are untouched. */
  lemma FormatThenParse(b: seq<octet>, len: nat)
    requires |b| == MAX_PACKET_LENGTH && len + 14 <= MAX_PACKET_LENGTH
    ensures var f := Formatted(b, len);
            f[3..9] == b[3..9] && f[11..11 + len] == b[11..11 + len]
    ensures var f := Formatted(b, len);
            Accepted(f) && DataLength(f) == len && PacketLength(DataLength(f)) == PacketLength(len) <==> len <= 1011
  {
    hide Fcs, WithHeader, Formatted, TypeHigh, TypeLow, LengthField, Low, High, Little;
    var f := Formatted(b, len);
    FormattedHeader(b, len);
    FormattedBytes(b, len);
    if len <= 1011 { SmallLength(f, FrameLength(len)); }
  }

  /** `g` differs from the data frame `b` in data and FCS bytes only. */
  predicate ChangedInside(b: seq<octet>, g: seq<octet>)
    requires |b| == |g| == MAX_PACKET_LENGTH && LengthField(b) >= 10
  {
    DataLength(b) > 0 && b[..11] == g[..11] && b[DataLength(b) + 13..] == g[DataLength(b) + 13..]
  }

  /** The octets of a formatted frame: flags 0x7e; format bits 1010 and the length in the two
      after the first, high byte first; the check sequences of what is before them. */
  lemma FrameOctets(b: seq<octet>, len: nat)
    requires |b| == 1536 && len <= 1522
    ensures var f := Formatted(b, len);
            var n := if len == 0 then 10 else len + 12;
            && f[0] == 0x7e && f[1] as int == 160 + n / 256 && f[2] as int == n % 256
            && Little(f[9], f[10]) == Fcs(f[1..9])
            && (len == 0 ==> f[11] == 0x7e)
            && (len > 0 ==> Little(f[len + 11], f[len + 12]) == Fcs(f[1..len + 11]) && f[len + 13] == 0x7e)
  {
    hide Fcs, WithHeader, Formatted, TypeHigh, TypeLow, Low, High, Little;
    FormattedHeader(b, len);
    FormattedBytes(b, len);
    TypeOctets(FrameLength(len));
  }

  lemma TypeOctets(n: nat)
    requires n < 1536
    ensures TypeHigh(n) as int == 160 + n / 256 && TypeLow(n) as int == n % 256
  {
    LowRoundTrip(n % 256);
    var h := n / 256;
    assert h == 0 || h == 1 || h == 2 || h == 3 || h == 4 || h == 5;
  }

  /** What the parser accepts: both flags, a length field of at least 10, of ten bits, the header
      check sequence, and for a length field above 12 that of header and data. */
  lemma AcceptedExactly(b: seq<octet>)
    requires |b| == 1536
    ensures LengthField(b) == 256 * ((b[1] & 3) as int) + b[2] as int
    ensures var n := LengthField(b);
            Accepted(b)
            <==> b[0] == 0x7e && n >= 10 && Little(b[9], b[10]) == Fcs(b[1..9])
                 && (n > 12 ==> Little(b[n - 1], b[n]) == Fcs(b[1..n - 1]))
                 && b[if n == 10 || n == 12 then 11 else n + 1] == 0x7e
  {
    hide Fcs, Little;
    if LengthField(b) >= 10 {
      var len := DataLength(b);
      if len > 0 { assert len + 11 == LengthField(b) - 1; }
    }
  }

  /** The parser never accepts a frame formatted with the data length -1. */
  lemma ShortRejected(b: seq<octet>)
    requires |b| == MAX_PACKET_LENGTH
    ensures !Accepted(FormattedShort(b))
  {
    hide Fcs, TypeHigh, TypeLow, LengthField, Low, High;
    var f := FormattedShort(b);
    SmallLength(f, 9);
  }

  /** Main result: an accepted data frame whose data and FCS bytes change is still accepted
      exactly when the register does not see the change. */
  lemma ErrorAcceptedExactly(b: seq<octet>, g: seq<octet>)
    requires |b| == |g| == MAX_PACKET_LENGTH && Accepted(b) && ChangedInside(b, g)
    ensures var end := DataLength(b) + 13;
            Accepted(g) <==> BitRegister(0, XorBits(Bits(b[11..end]), Bits(g[11..end]))) == 0
  {
    hide Fcs, Little, LengthField, BitRegister, XorBits, Bits;
    var len := DataLength(b);
    SameHeader(b, g);
    FrameParts(b, len);
    FrameParts(g, len);
    SameOutside(b, g);
    ErrorBreaksFcsExactly(b[1..11], b[11..len + 13], g[11..len + 13]);
  }

  lemma SameOutside(b: seq<octet>, g: seq<octet>)
    requires |b| == |g| == MAX_PACKET_LENGTH && LengthField(b) >= 10 && ChangedInside(b, g)
    ensures b[DataLength(b) + 13] == g[DataLength(b) + 13]
    ensures HeaderAccepted(b) <==> HeaderAccepted(g)
  {
    hide Fcs, Little, LengthField;
    SameHeader(b, g);
    var end := DataLength(b) + 13;
    assert b[end..][0] == g[end..][0];
    assert b[0] == b[..11][0] && g[0] == g[..11][0] && b[9] == b[..11][9] && g[9] == g[..11][9];
    assert b[10] == b[..11][10] && g[10] == g[..11][10];
    assert b[1..9] == b[1..11][..8] && g[1..9] == g[1..11][..8];
  }

  /** Main result: so any change confined to sixteen consecutive bits makes the parser reject
      the frame. */
  lemma BurstRejected(b: seq<octet>, g: seq<octet>, p: nat)
    requires |b| == |g| == MAX_PACKET_LENGTH && Accepted(b) && ChangedInside(b, g) && b != g
    requires var end := DataLength(b) + 13; SameOutsideWindow(b[11..end], g[11..end], p)
    ensures !Accepted(g)
  {
    hide Fcs, Little, LengthField, BitRegister, XorBits, Bits, SameOutsideWindow, OddWeight;
    ErrorAcceptedExactly(b, g);
    DifferInside(b, g);
    var end := DataLength(b) + 13;
    BurstDetected(0, b[11..end], g[11..end], p);
    UndetectedErrors(0, b[11..end], g[11..end]);
  }

  lemma DifferInside(b: seq<octet>, g: seq<octet>)
    requires |b| == |g| == MAX_PACKET_LENGTH && LengthField(b) >= 10 && ChangedInside(b, g) && b != g
    ensures b[11..DataLength(b) + 13] != g[11..DataLength(b) + 13]
  {
    hide LengthField;
    FrameParts(b, DataLength(b));
    FrameParts(g, DataLength(b));
  }

  /** And so does any change of an odd number of bits. */
  lemma OddErrorRejected(b: seq<octet>, g: seq<octet>)
    requires |b| == |g| == MAX_PACKET_LENGTH && Accepted(b) && ChangedInside(b, g)
    requires var end := DataLength(b) + 13; OddWeight(XorBits(Bits(b[11..end]), Bits(g[11..end])))
    ensures !Accepted(g)
  {
    hide Fcs, Little, LengthField, XorBits, Bits, OddWeight;
    var len := DataLength(b);
    SameHeader(b, g);
    FrameParts(b, len);
    FrameParts(g, len);
    OddErrorBreaksFcs(b[1..11], b[11..len + 13], g[11..len + 13]);
  }

  /** And any change of two bits: the longest frame has far fewer than 32767 bits. */
  lemma TwoBitsRejected(b: seq<octet>, g: seq<octet>, i: nat, j: nat)
    requires |b| == |g| == MAX_PACKET_LENGTH && Accepted(b) && ChangedInside(b, g)
    requires var end := DataLength(b) + 13; OnlyBits(XorBits(Bits(b[11..end]), Bits(g[11..end])), i, j)
    ensures !Accepted(g)
  {
    hide Fcs, Little, LengthField, BitRegister, XorBits, Bits;
    ErrorAcceptedExactly(b, g);
    var end := DataLength(b) + 13;
    TwoBitsCancelExactly(XorBits(Bits(b[11..end]), Bits(g[11..end])), i, j);
  }

  /** Main result: a burst of at most sixteen bits anywhere between the flags of an accepted
      data frame, in the header, in data and FCS, or across both, is rejected. */
  lemma BurstAnywhereRejected(b: seq<octet>, g: seq<octet>, p: nat)
    requires |b| == |g| == MAX_PACKET_LENGTH && Accepted(b) && DataLength(b) > 0 && b != g
    requires var end := DataLength(b) + 13;
             b[0] == g[0] && b[end..] == g[end..] && SameOutsideWindow(b[1..end], g[1..end], p)
    ensures !Accepted(g)
  {
    hide Accepted, HeaderAccepted, Fcs, Little, LengthField, SameOutsideWindow;
    var end := DataLength(b) + 13;
    assert b[1..end] == b[1..11] + b[11..end] && g[1..end] == g[1..11] + g[11..end];
    BurstInParts(b[1..11], b[11..end], g[1..11], g[11..end], p);
    if b[1..11] != g[1..11] {
      HeaderBurstRejected(b, g, p);
    } else {
      assert b[..11] == [b[0]] + b[1..11] && g[..11] == [g[0]] + g[1..11];
      BurstRejected(b, g, if p < 80 then 0 else p - 80);
    }
  }

  lemma HeaderBurstRejected(b: seq<octet>, g: seq<octet>, p: nat)
    requires |b| == |g| == MAX_PACKET_LENGTH && Accepted(b)
    requires b[1..11] != g[1..11] && SameOutsideWindow(b[1..11], g[1..11], p)
    ensures !Accepted(g)
  {
    hide Fcs, Little, LengthField, SameOutsideWindow;
    HeaderFcs(b);
    HeaderFcs(g);
    BurstBreaksFcs([], b[1..11], g[1..11], p);
  }

  /** The header check sequence is the FCS of the eight bytes before it. */
  lemma HeaderFcs(b: seq<octet>)
    requires |b| >= 11
    ensures EndsWithFcs([], b[1..11]) <==> Little(b[9], b[10]) == Fcs(b[1..9])
  {
    hide Fcs, Little;
    assert [] + b[1..11][..8] == b[1..9];
  }

  lemma SameHeader(b: seq<octet>, g: seq<octet>)
    requires |b| == |g| >= LEN_HEADER && b[..11] == g[..11]
    ensures b[1..11] == g[1..11] && LengthField(b) == LengthField(g)
  {
    assert b[..11][1..] == g[..11][1..];
    assert b[1..11] == b[..11][1..] && g[1..11] == g[..11][1..];
    assert b[1] == b[..11][1] && g[1] == g[..11][1] && b[2] == b[..11][2] && g[2] == g[..11][2];
  }

  /** A data frame is its first eleven bytes, its data and FCS, and the rest. */
  lemma FrameParts(b: seq<octet>, len: nat)
    requires len + 13 <= |b|
    ensures b == b[..11] + b[11..len + 13] + b[len + 13..]
    ensures b[1..11] + b[11..len + 13][..len] == b[1..len + 11]
    ensures b[11..len + 13][len] == b[len + 11] && b[11..len + 13][len + 1] == b[len + 12]
  {
  }

  // The packet object

  class Packet {
    const buffer: array<octet>
    var lenData: int
    var lenPacket: int

    ghost predicate Valid()
      reads this
    {
      buffer.Length == MAX_PACKET_LENGTH
    }

    constructor ()
      ensures Valid() && fresh(buffer) && lenData == 0 && lenPacket == 0
      ensures forall i | 0 <= i < MAX_PACKET_LENGTH :: buffer[i] == 0
    {
      buffer := new octet[MAX_PACKET_LENGTH](_ => 0);
      lenData, lenPacket := 0, 0;
    }

    /** `get_crc`: the table-driven loop over `length` bytes from `at`. */
    method GetCrc(at: nat, length: nat) returns (fcs: bv16)
      requires Valid() && at + length <= buffer.Length
      ensures fcs == Fcs(buffer[at..at + length])
    {
      hide Xor, Step8, CrcTab, Word;
      var crc: bv16 := 0xffff;
      var n := 0;
      while n < length
        invariant 0 <= n <= length
        invariant crc == Register(0xffff, buffer[at..at + n])
      {
        assert buffer[at..at + n + 1][..n] == buffer[at..at + n];
        TableStep(crc, buffer[at + n]);
        LowByte(Xor(crc, Word(buffer[at + n])));
        crc := Xor(crc >> 8, CrcTab(Xor(crc, Word(buffer[at + n])) & 0xff));
        n := n + 1;
      }
      fcs := Xor(crc, 0xffff);
    }

    method SetDataArea(data: seq<octet>)
      requires Valid()
      modifies this`lenData, buffer
      ensures |data| <= MAX_PACKET_LENGTH - LEN_HEADER ==>
                lenData == |data| && buffer[..] == old(buffer[..11]) + data + old(buffer[11 + |data|..])
      ensures |data| > MAX_PACKET_LENGTH - LEN_HEADER ==>
                lenData == old(lenData) && buffer[..] == old(buffer[..])
    {
      if |data| > MAX_PACKET_LENGTH - LEN_HEADER { return; }
      forall i | 0 <= i < |data| {
        buffer[LEN_HEADER + i] := data[i];
      }
      lenData := |data|;
    }

    method PutWord(at: nat, v: bv16)
      requires Valid() && at + 2 <= MAX_PACKET_LENGTH
      modifies buffer
      ensures buffer[..] == PutLittle(old(buffer[..]), at, v)
    {
      buffer[at] := Low(v);
      buffer[at + 1] := High(v);
    }

    /** The eleven header bytes; both branches of the program start with them. */
    method PutHeader(length: nat)
      requires Valid() && length < 0x1000
      modifies buffer
      ensures buffer[..] == WithLength(old(buffer[..]), length)
    {
      hide Low, High, Fcs, TypeHigh, TypeLow;
      buffer[0] := FLAG;
      buffer[1], buffer[2] := TypeLow(length), TypeHigh(length);
      buffer[1], buffer[2] := buffer[2], buffer[1];
      assert buffer[..] == old(buffer[..])[0 := FLAG][1 := TypeHigh(length)][2 := TypeLow(length)];
      var hcs := GetCrc(1, 8);
      assert buffer[1..9] == buffer[..][1..9];
      PutWord(9, hcs);
    }

    /** `inside` is false where the frame does not fit the buffer and the program writes past
        its end: for the last three lengths that `SetDataArea` accepts. */
    method FormatPacket() returns (inside: bool)
      requires Valid() && -1 <= lenData <= MAX_PACKET_LENGTH - LEN_HEADER
      modifies this`lenPacket, buffer
      ensures inside <==> lenData <= 1522
      ensures inside ==>
        buffer[..] == if lenData < 0 then FormattedShort(old(buffer[..])) else Formatted(old(buffer[..]), lenData)
      ensures inside ==> lenPacket == if lenData < 0 then 11 else PacketLength(lenData)
      ensures !inside ==> buffer[..] == old(buffer[..]) && lenPacket == old(lenPacket)
    {
      hide Low, High, Fcs, WithLength;
      if lenData + 14 > MAX_PACKET_LENGTH { return false; }
      PutHeader(if lenData > 0 then lenData + 10 + 2 else lenData + 10);
      lenPacket := LEN_HEADER + lenData;
      if lenData > 0 {
        var crc := GetCrc(1, lenData + 10);
        assert buffer[1..lenData + 11] == buffer[..][1..lenData + 11];
        PutWord(lenData + 11, crc);
        lenPacket := lenPacket + 2;
      }
      buffer[lenPacket] := FLAG;
      lenPacket := lenPacket + 1;
      return true;
    }

    method ParseHeader() returns (code: int)
      requires Valid()
      modifies this
      ensures code == if HeaderAccepted(buffer[..]) then LEN_HEADER else -1
      ensures HeaderAccepted(buffer[..]) ==>
                lenData == DataLength(buffer[..]) && lenPacket == PacketLength(lenData)
    {
      hide Low, High, Fcs, Little;
      if buffer[0] != FLAG { return -1; }
      var length := LengthField(buffer[..]);
      if length == 10 {
        lenData := 0;
      } else if length > 10 {
        lenData := length - 10 - 2;
      } else {
        return -1;
      }
      var hcs := GetCrc(1, 8);
      assert buffer[1..9] == buffer[..][1..9];
      if Little(buffer[9], buffer[10]) != hcs { return -1; }
      lenPacket := if lenData == 0 then LEN_HEADER + lenData + 1 else LEN_HEADER + lenData + 3;
      return LEN_HEADER;
    }

    method ParsePacket() returns (code: int)
      requires Valid()
      modifies this
      ensures code == if Accepted(buffer[..]) then PacketLength(DataLength(buffer[..])) else -1
      ensures Accepted(buffer[..]) ==> lenData == DataLength(buffer[..]) && lenPacket == code
    {
      hide Low, High, Fcs, Little, LengthField;
      code := ParseHeader();
      if code <= 0 { return; }
      if lenData > 0 {
        var crc := GetCrc(1, lenData + 10);
        assert buffer[1..lenData + 11] == buffer[..][1..lenData + 11];
        if crc != Little(buffer[lenData + 11], buffer[lenData + 12]) { return -1; }
      }
      if buffer[lenPacket - 1] != FLAG { return -1; }
      return lenPacket;
    }
  }

  /** One table step is eight steps of the register. */
  lemma TableStep(crc: bv16, b: octet)
    ensures Xor(crc, Word(b)) & 0xff <= 0xff
    ensures Xor(crc >> 8, CrcTab(Xor(crc, Word(b)) & 0xff)) == Step8(Xor(crc, Word(b)))
  {
    hide Step8, CrcTab, Xor, Word;
    var x := Xor(crc, Word(b));
    LowByte(x);
    TableIsBitwise(x & 0xff);
    LowAndHigh(x);
    ByteShiftedOut(crc, b);
    Step8Linear((x >> 8) << 8, x & 0xff);
    HighPart(x);
  }

  lemma LowByte(x: bv16)
    ensures x & 0xff <= 0xff
  {
  }

  lemma ByteShiftedOut(crc: bv16, b: octet)
    ensures Xor(crc, Word(b)) >> 8 == crc >> 8
  {
  }

  lemma LowAndHigh(x: bv16)
    ensures Xor((x >> 8) << 8, x & 0xff) == x
  {
  }

  lemma HighPart(x: bv16)
    ensures Step8((x >> 8) << 8) == x >> 8
  {
  }
}
