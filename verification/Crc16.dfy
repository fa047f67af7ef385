/** FCS-16: the table, and the bit-at-a-time register it stands for (RFC 1662, Appendix C.2). */
module Crc16 {

  type octet = bv8

  function Xor(a: bv16, b: bv16): bv16 {
    a ^ b
  }

  /** One step of the register: polynomial 0x8408, least significant bit first. */
  function Step(c: bv16): bv16 {
    if c & 1 == 1 then (c >> 1) ^ 0x8408 else c >> 1
  }

  function Step8(c: bv16): bv16 {
    Step(Step(Step(Step(Step(Step(Step(Step(c))))))))
  }

  function StepN(c: bv16, n: nat): bv16
    decreases n
  {
    if n == 0 then c else StepN(Step(c), n - 1)
  }

  function Bit(b: bool): bv16 {
    if b then 1 else 0
  }

  /** The reference: the register after shifting in `bits` one at a time. */
  function BitRegister(c: bv16, bits: seq<bool>): bv16
    decreases |bits|
  {
    if bits == [] then c else BitRegister(Step(Xor(c, Bit(bits[0]))), bits[1..])
  }

  /** The eight bits of a byte, least significant first. */
  function ByteBits(b: octet): (s: seq<bool>)
    ensures |s| == 8
  {
    [b & 1 == 1, b & 2 == 2, b & 4 == 4, b & 8 == 8, b & 16 == 16, b & 32 == 32, b & 64 == 64, b & 128 == 128]
  }

  function Bits(s: seq<octet>): (r: seq<bool>)
    ensures |r| == 8 * |s|
  {
    if s == [] then [] else Bits(s[..|s| - 1]) + ByteBits(s[|s| - 1])
  }

  function Word(b: octet): bv16 {
    b as bv16
  }

  /** The register after whole bytes. */
  function Register(c: bv16, s: seq<octet>): bv16
    decreases |s|
  {
    if s == [] then c else Step8(Xor(Register(c, s[..|s| - 1]), Word(s[|s| - 1])))
  }

  /** The frame check sequence: initial value 0xffff, complemented at the end. */
  function Fcs(s: seq<octet>): bv16 {
    Xor(Register(0xffff, s), 0xffff)
  }

  // The 256-entry table, eight entries to a row

  const CRC_ROWS: seq<seq<bv16>> := [
    [0x0000, 0x1189, 0x2312, 0x329b, 0x4624, 0x57ad, 0x6536, 0x74bf],
    [0x8c48, 0x9dc1, 0xaf5a, 0xbed3, 0xca6c, 0xdbe5, 0xe97e, 0xf8f7],
    [0x1081, 0x0108, 0x3393, 0x221a, 0x56a5, 0x472c, 0x75b7, 0x643e],
    [0x9cc9, 0x8d40, 0xbfdb, 0xae52, 0xdaed, 0xcb64, 0xf9ff, 0xe876],
    [0x2102, 0x308b, 0x0210, 0x1399, 0x6726, 0x76af, 0x4434, 0x55bd],
    [0xad4a, 0xbcc3, 0x8e58, 0x9fd1, 0xeb6e, 0xfae7, 0xc87c, 0xd9f5],
    [0x3183, 0x200a, 0x1291, 0x0318, 0x77a7, 0x662e, 0x54b5, 0x453c],
    [0xbdcb, 0xac42, 0x9ed9, 0x8f50, 0xfbef, 0xea66, 0xd8fd, 0xc974],
    [0x4204, 0x538d, 0x6116, 0x709f, 0x0420, 0x15a9, 0x2732, 0x36bb],
    [0xce4c, 0xdfc5, 0xed5e, 0xfcd7, 0x8868, 0x99e1, 0xab7a, 0xbaf3],
    [0x5285, 0x430c, 0x7197, 0x601e, 0x14a1, 0x0528, 0x37b3, 0x263a],
    [0xdecd, 0xcf44, 0xfddf, 0xec56, 0x98e9, 0x8960, 0xbbfb, 0xaa72],
    [0x6306, 0x728f, 0x4014, 0x519d, 0x2522, 0x34ab, 0x0630, 0x17b9],
    [0xef4e, 0xfec7, 0xcc5c, 0xddd5, 0xa96a, 0xb8e3, 0x8a78, 0x9bf1],
    [0x7387, 0x620e, 0x5095, 0x411c, 0x35a3, 0x242a, 0x16b1, 0x0738],
    [0xffcf, 0xee46, 0xdcdd, 0xcd54, 0xb9eb, 0xa862, 0x9af9, 0x8b70],
    [0x8408, 0x9581, 0xa71a, 0xb693, 0xc22c, 0xd3a5, 0xe13e, 0xf0b7],
    [0x0840, 0x19c9, 0x2b52, 0x3adb, 0x4e64, 0x5fed, 0x6d76, 0x7cff],
    [0x9489, 0x8500, 0xb79b, 0xa612, 0xd2ad, 0xc324, 0xf1bf, 0xe036],
    [0x18c1, 0x0948, 0x3bd3, 0x2a5a, 0x5ee5, 0x4f6c, 0x7df7, 0x6c7e],
    [0xa50a, 0xb483, 0x8618, 0x9791, 0xe32e, 0xf2a7, 0xc03c, 0xd1b5],
    [0x2942, 0x38cb, 0x0a50, 0x1bd9, 0x6f66, 0x7eef, 0x4c74, 0x5dfd],
    [0xb58b, 0xa402, 0x9699, 0x8710, 0xf3af, 0xe226, 0xd0bd, 0xc134],
    [0x39c3, 0x284a, 0x1ad1, 0x0b58, 0x7fe7, 0x6e6e, 0x5cf5, 0x4d7c],
    [0xc60c, 0xd785, 0xe51e, 0xf497, 0x8028, 0x91a1, 0xa33a, 0xb2b3],
    [0x4a44, 0x5bcd, 0x6956, 0x78df, 0x0c60, 0x1de9, 0x2f72, 0x3efb],
    [0xd68d, 0xc704, 0xf59f, 0xe416, 0x90a9, 0x8120, 0xb3bb, 0xa232],
    [0x5ac5, 0x4b4c, 0x79d7, 0x685e, 0x1ce1, 0x0d68, 0x3ff3, 0x2e7a],
    [0xe70e, 0xf687, 0xc41c, 0xd595, 0xa12a, 0xb0a3, 0x8238, 0x93b1],
    [0x6b46, 0x7acf, 0x4854, 0x59dd, 0x2d62, 0x3ceb, 0x0e70, 0x1ff9],
    [0xf78f, 0xe606, 0xd49d, 0xc514, 0xb1ab, 0xa022, 0x92b9, 0x8330],
    [0x7bc7, 0x6a4e, 0x58d5, 0x495c, 0x3de3, 0x2c6a, 0x1ef1, 0x0f78]]

  function CrcTab(i: bv16): bv16
    requires i <= 0xff
  {
    AllRows(i >> 3);
    CRC_ROWS[(i >> 3) as int][(i & 7) as int]
  }

  /** The row of the table for indices `k` to `k + 7` holds eight steps of each index. */
  predicate RowAgrees(row: seq<bv16>, k: bv16) {
    && |row| == 8
    && row[0] == Step8(k) && row[1] == Step8(k + 1)
    && row[2] == Step8(k + 2) && row[3] == Step8(k + 3)
    && row[4] == Step8(k + 4) && row[5] == Step8(k + 5)
    && row[6] == Step8(k + 6) && row[7] == Step8(k + 7)
  }

  lemma Rows0()
    ensures |CRC_ROWS| == 32 && RowAgrees(CRC_ROWS[0], 0x00) && RowAgrees(CRC_ROWS[1], 0x08)
  {
  }

  lemma Rows2()
    ensures |CRC_ROWS| == 32 && RowAgrees(CRC_ROWS[2], 0x10) && RowAgrees(CRC_ROWS[3], 0x18)
  {
  }

  lemma Rows4()
    ensures |CRC_ROWS| == 32 && RowAgrees(CRC_ROWS[4], 0x20) && RowAgrees(CRC_ROWS[5], 0x28)
  {
  }

  lemma Rows6()
    ensures |CRC_ROWS| == 32 && RowAgrees(CRC_ROWS[6], 0x30) && RowAgrees(CRC_ROWS[7], 0x38)
  {
  }

  lemma Rows8()
    ensures |CRC_ROWS| == 32 && RowAgrees(CRC_ROWS[8], 0x40) && RowAgrees(CRC_ROWS[9], 0x48)
  {
  }

  lemma Rows10()
    ensures |CRC_ROWS| == 32 && RowAgrees(CRC_ROWS[10], 0x50) && RowAgrees(CRC_ROWS[11], 0x58)
  {
  }

  lemma Rows12()
    ensures |CRC_ROWS| == 32 && RowAgrees(CRC_ROWS[12], 0x60) && RowAgrees(CRC_ROWS[13], 0x68)
  {
  }

  lemma Rows14()
    ensures |CRC_ROWS| == 32 && RowAgrees(CRC_ROWS[14], 0x70) && RowAgrees(CRC_ROWS[15], 0x78)
  {
  }

  lemma Rows16()
    ensures |CRC_ROWS| == 32 && RowAgrees(CRC_ROWS[16], 0x80) && RowAgrees(CRC_ROWS[17], 0x88)
  {
  }

  lemma Rows18()
    ensures |CRC_ROWS| == 32 && RowAgrees(CRC_ROWS[18], 0x90) && RowAgrees(CRC_ROWS[19], 0x98)
  {
  }

  lemma Rows20()
    ensures |CRC_ROWS| == 32 && RowAgrees(CRC_ROWS[20], 0xa0) && RowAgrees(CRC_ROWS[21], 0xa8)
  {
  }

  lemma Rows22()
    ensures |CRC_ROWS| == 32 && RowAgrees(CRC_ROWS[22], 0xb0) && RowAgrees(CRC_ROWS[23], 0xb8)
  {
  }

  lemma Rows24()
    ensures |CRC_ROWS| == 32 && RowAgrees(CRC_ROWS[24], 0xc0) && RowAgrees(CRC_ROWS[25], 0xc8)
  {
  }

  lemma Rows26()
    ensures |CRC_ROWS| == 32 && RowAgrees(CRC_ROWS[26], 0xd0) && RowAgrees(CRC_ROWS[27], 0xd8)
  {
  }

  lemma Rows28()
    ensures |CRC_ROWS| == 32 && RowAgrees(CRC_ROWS[28], 0xe0) && RowAgrees(CRC_ROWS[29], 0xe8)
  {
  }

  lemma Rows30()
    ensures |CRC_ROWS| == 32 && RowAgrees(CRC_ROWS[30], 0xf0) && RowAgrees(CRC_ROWS[31], 0xf8)
  {
  }

  lemma AllRows(k: bv16)
    requires k < 32
    ensures |CRC_ROWS| == 32 && RowAgrees(CRC_ROWS[k as int], 8 * k)
  {
    hide RowAgrees, CRC_ROWS;
    Rows0(); Rows2(); Rows4(); Rows6(); Rows8(); Rows10(); Rows12(); Rows14();
    Rows16(); Rows18(); Rows20(); Rows22(); Rows24(); Rows26(); Rows28(); Rows30();
  }

  /** Every entry of the table is eight steps of the register from its index. */
  lemma TableIsBitwise(i: bv16)
    requires i <= 0xff
    ensures CrcTab(i) == Step8(i)
  {
    hide CRC_ROWS, Step8;
    AllRows(i >> 3);
    assert i == 8 * (i >> 3) + (i & 7);
    var j := i & 7;
    assert j == 0 || j == 1 || j == 2 || j == 3 || j == 4 || j == 5 || j == 6 || j == 7;
  }

  // The register is linear

  lemma XorAssoc(a: bv16, b: bv16, c: bv16)
    ensures Xor(Xor(a, b), c) == Xor(a, Xor(b, c))
  {
  }

  lemma XorZero(a: bv16)
    ensures Xor(a, 0) == a
  {
  }

  lemma XorComm(a: bv16, b: bv16)
    ensures Xor(a, b) == Xor(b, a)
  {
  }

  lemma XorItself(a: bv16)
    ensures Xor(a, a) == 0
  {
  }

  /** Adding `p` to both sides changes nothing. */
  lemma XorBoth(a: bv16, b: bv16, p: bv16)
    ensures Xor(Xor(a, p), Xor(b, p)) == Xor(a, b)
  {
    hide Xor;
    XorAssoc(a, p, Xor(b, p));
    XorComm(p, Xor(b, p));
    XorAssoc(b, p, p);
    XorItself(p);
    XorZero(b);
  }

  /** `p` added on one side can be moved out. */
  lemma XorOut(a: bv16, b: bv16, p: bv16)
    ensures Xor(Xor(a, b), p) == Xor(Xor(a, p), b)
    ensures Xor(Xor(a, b), p) == Xor(a, Xor(b, p))
  {
    hide Xor;
    XorAssoc(a, b, p);
    XorAssoc(a, p, b);
    XorComm(b, p);
  }

  lemma XorSelf(a: bv16, b: bv16)
    ensures Xor(a, b) == 0 <==> a == b
  {
    hide Xor;
    XorItself(a);
    XorAssoc(a, b, b);
    XorItself(b);
    XorZero(a);
    XorComm(0, b);
    XorZero(b);
  }

  function Half(c: bv16): bv16 {
    c >> 1
  }

  predicate Odd(c: bv16) {
    c & 1 == 1
  }

  lemma HalfLinear(x: bv16, y: bv16)
    ensures Half(Xor(x, y)) == Xor(Half(x), Half(y))
  {
  }

  lemma OddLinear(x: bv16, y: bv16)
    ensures Odd(Xor(x, y)) <==> Odd(x) != Odd(y)
  {
  }

  lemma StepHalves(c: bv16)
    ensures Step(c) == if Odd(c) then Xor(Half(c), 0x8408) else Half(c)
  {
  }

  lemma StepLinear(x: bv16, y: bv16)
    ensures Step(Xor(x, y)) == Xor(Step(x), Step(y))
  {
    hide Step, Xor, Half, Odd;
    StepHalves(x);
    StepHalves(y);
    StepHalves(Xor(x, y));
    HalfLinear(x, y);
    OddLinear(x, y);
    XorOut(Half(x), Half(y), 0x8408);
    XorBoth(Half(x), Half(y), 0x8408);
  }

  lemma StepZero(c: bv16)
    ensures Step(c) == 0 <==> c == 0
  {
  }

  lemma {:induction false} StepNLinear(x: bv16, y: bv16, n: nat)
    ensures StepN(Xor(x, y), n) == Xor(StepN(x, n), StepN(y, n))
    decreases n
  {
    hide Step, Xor;
    if n > 0 {
      StepLinear(x, y);
      StepNLinear(Step(x), Step(y), n - 1);
    }
  }

  lemma {:induction false} StepNZero(c: bv16, n: nat)
    ensures StepN(c, n) == 0 <==> c == 0
    decreases n
  {
    hide Step;
    StepZero(c);
    if n > 0 { StepNZero(Step(c), n - 1); }
  }

  lemma {:induction false} StepNLast(c: bv16, n: nat)
    ensures StepN(c, n + 1) == Step(StepN(c, n))
    decreases n
  {
    hide Step;
    if n > 0 { StepNLast(Step(c), n - 1); }
  }

  function XorBits(a: seq<bool>, b: seq<bool>): (r: seq<bool>)
    requires |a| == |b|
    ensures |r| == |a|
  {
    seq(|a|, i requires 0 <= i < |a| => a[i] != b[i])
  }

  /** Two runs of the register differ by the run over their difference. */
  lemma {:induction false} BitRegisterLinear(c: bv16, d: bv16, a: seq<bool>, b: seq<bool>)
    requires |a| == |b|
    ensures BitRegister(Xor(c, d), XorBits(a, b)) == Xor(BitRegister(c, a), BitRegister(d, b))
    decreases |a|
  {
    hide Step, Xor, Bit;
    if a != [] {
      var e := XorBits(a, b);
      assert e[1..] == XorBits(a[1..], b[1..]);
      XorPairs(c, d, a[0], b[0]);
      StepLinear(Xor(c, Bit(a[0])), Xor(d, Bit(b[0])));
      BitRegisterLinear(Step(Xor(c, Bit(a[0]))), Step(Xor(d, Bit(b[0]))), a[1..], b[1..]);
    }
  }

  lemma XorPairs(c: bv16, d: bv16, a: bool, b: bool)
    ensures Xor(Xor(c, d), Bit(a != b)) == Xor(Xor(c, Bit(a)), Xor(d, Bit(b)))
  {
    hide Xor;
    XorZero(c);
    XorZero(d);
    XorZero(Xor(c, d));
    XorOut(c, d, 1);
    XorBoth(c, d, 1);
  }

  lemma {:induction false} BitRegisterAppend(c: bv16, a: seq<bool>, b: seq<bool>)
    ensures BitRegister(c, a + b) == BitRegister(BitRegister(c, a), b)
    decreases |a|
  {
    hide Step, Xor, Bit;
    if a == [] {
      assert a + b == b;
    } else {
      assert (a + b)[1..] == a[1..] + b;
      BitRegisterAppend(Step(Xor(c, Bit(a[0]))), a[1..], b);
    }
  }

  lemma BitRegisterOne(c: bv16, b: bool)
    ensures BitRegister(c, [b]) == Step(Xor(c, Bit(b)))
  {
    hide Step, Xor, Bit;
    assert [b][1..] == [];
  }

  lemma {:induction false} BitRegisterZeros(c: bv16, z: seq<bool>)
    requires forall i | 0 <= i < |z| :: !z[i]
    ensures BitRegister(c, z) == StepN(c, |z|)
    decreases |z|
  {
    hide Step, Xor;
    if z != [] {
      XorZero(c);
      BitRegisterZeros(Step(c), z[1..]);
    }
  }

  // Up to sixteen bits can be put into the register at once

  /** The register bit that `n` steps bring to the low end. */
  function Unit(n: nat): bv16
    requires n <= 15
  {
    if n == 0 then 1 else Unit(n - 1) << 1
  }

  lemma UnitTable()
    ensures Unit(1) == 0x0002 && Unit(2) == 0x0004 && Unit(3) == 0x0008 && Unit(4) == 0x0010 && Unit(5) == 0x0020
    ensures Unit(6) == 0x0040 && Unit(7) == 0x0080 && Unit(8) == 0x0100 && Unit(9) == 0x0200 && Unit(10) == 0x0400
    ensures Unit(11) == 0x0800 && Unit(12) == 0x1000 && Unit(13) == 0x2000 && Unit(14) == 0x4000 && Unit(15) == 0x8000
  {
    assert Unit(0) == 1;
    assert Unit(4) == Unit(3) << 1;
    assert Unit(7) == Unit(6) << 1;
    assert Unit(10) == Unit(9) << 1;
    assert Unit(13) == Unit(12) << 1;
  }

  lemma UnitStep(n: nat)
    requires 1 <= n <= 15
    ensures Step(Unit(n)) == Unit(n - 1)
  {
    UnitTable();
    assert Unit(0) == 1;
    hide Unit;
  }

  lemma {:induction false} StepNUnit(n: nat)
    requires n <= 15
    ensures StepN(Unit(n), n) == 1
  {
    hide Step;
    if n > 0 {
      UnitStep(n);
      StepNUnit(n - 1);
    }
  }

  function Pack(bits: seq<bool>): (p: bv16)
    requires |bits| <= 16
  {
    if bits == [] then 0
    else Xor(Pack(bits[..|bits| - 1]), if bits[|bits| - 1] then Unit(|bits| - 1) else 0)
  }

  lemma {:induction false} StepNZeroStays(n: nat)
    ensures StepN(0, n) == 0
  {
    hide Step;
    StepNZero(0, n);
  }

  lemma {:induction false} Window(c: bv16, bits: seq<bool>)
    requires |bits| <= 16
    ensures BitRegister(c, bits) == StepN(Xor(c, Pack(bits)), |bits|)
    decreases |bits|
  {
    hide Step, Xor, Unit;
    if bits == [] {
      XorZero(c);
    } else {
      var n := |bits| - 1;
      var init, last := bits[..n], bits[n];
      var u := if last then Unit(n) else 0;
      assert bits == init + [last];
      BitRegisterAppend(c, init, [last]);
      BitRegisterOne(BitRegister(c, init), last);
      Window(c, init);
      StepNUnit(n);
      StepNZeroStays(n);
      StepNLinear(Xor(c, Pack(init)), u, n);
      XorAssoc(c, Pack(init), u);
      StepNLast(Xor(c, Pack(bits)), n);
    }
  }

  lemma ByteSum(b: octet)
    ensures (if b & 1 == 1 then 1 else 0 as bv16) ^ (if b & 2 == 2 then 2 else 0) ^ (if b & 4 == 4 then 4 else 0)
          ^ (if b & 8 == 8 then 8 else 0) ^ (if b & 16 == 16 then 16 else 0) ^ (if b & 32 == 32 then 32 else 0)
          ^ (if b & 64 == 64 then 64 else 0) ^ (if b & 128 == 128 then 128 else 0) == b as bv16
  {
  }

  lemma PackStep(bits: seq<bool>, n: nat)
    requires n < |bits| <= 16
    ensures Pack(bits[..n + 1]) == Xor(Pack(bits[..n]), if bits[n] then Unit(n) else 0)
  {
    hide Unit, Xor;
    assert bits[..n + 1][..n] == bits[..n];
  }

  lemma ByteIsPacked(b: octet)
    ensures Pack(ByteBits(b)) == Word(b)
  {
    var s := ByteBits(b);
    PackStep(s, 0); PackStep(s, 1); PackStep(s, 2); PackStep(s, 3);
    PackStep(s, 4); PackStep(s, 5); PackStep(s, 6); PackStep(s, 7);
    assert s[..8] == s && Pack(s[..0]) == 0;
    UnitTable();
    ByteSum(b);
    hide Pack;
  }

  lemma EightSteps(c: bv16)
    ensures StepN(c, 8) == Step8(c)
  {
    hide Step;
    StepNLast(c, 0); StepNLast(c, 1); StepNLast(c, 2); StepNLast(c, 3);
    StepNLast(c, 4); StepNLast(c, 5); StepNLast(c, 6); StepNLast(c, 7);
  }

  /** Main result: byte by byte the register is the bit-at-a-time one. */
  lemma {:induction false} RegisterIsBitwise(c: bv16, s: seq<octet>)
    ensures Register(c, s) == BitRegister(c, Bits(s))
    decreases |s|
  {
    hide Step8, Step, ByteBits, Pack, Xor, Word;
    if s != [] {
      var init, b := s[..|s| - 1], s[|s| - 1];
      RegisterIsBitwise(c, init);
      BitRegisterAppend(c, Bits(init), ByteBits(b));
      Window(Register(c, init), ByteBits(b));
      ByteIsPacked(b);
      EightSteps(Xor(Register(c, init), Word(b)));
    }
  }
}
