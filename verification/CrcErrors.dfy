/** What the FCS detects: the residue of a good frame, and every error burst of up to 16 bits. */
module CrcErrors {
  import opened Crc16

  function Low(v: bv16): octet {
    (v & 0xff) as octet
  }

  function High(v: bv16): octet {
    (v >> 8) as octet
  }

  /** Two bytes in memory as a 16-bit number, low byte first. */
  function Little(lo: octet, hi: octet): bv16 {
    Word(lo) ^ (Word(hi) << 8)
  }

  lemma LittleRoundTrip(v: bv16)
    ensures Little(Low(v), High(v)) == v
  {
  }

  // Bursts

  lemma TopOfXor(a: bv16, b: bv16)
    requires a & 0x8000 == 0 && b & 0x8000 == 0
    ensures Xor(a, b) & 0x8000 == 0
  {
  }

  lemma UnitTop(n: nat)
    requires n <= 14
    ensures Unit(n) & 0x8000 == 0
  {
    UnitTable();
    assert Unit(0) == 1;
    hide Unit;
  }

  lemma {:induction false} PackTop(bits: seq<bool>)
    requires |bits| <= 15
    ensures Pack(bits) & 0x8000 == 0
    decreases |bits|
  {
    hide Unit, Xor;
    if bits != [] {
      var n := |bits| - 1;
      PackTop(bits[..n]);
      UnitTop(n);
      TopOfXor(Pack(bits[..n]), if bits[n] then Unit(n) else 0);
    }
  }

  lemma AfterFirstBit(v: seq<bool>)
    requires |v| <= 15
    ensures BitRegister(Step(1), v) != 0
  {
    assert Step(1) == 0x8408;
    hide Step, Xor, BitRegister, StepN;
    Window(0x8408, v);
    PackTop(v);
    XorSelf(0x8408, Pack(v));
    StepNZero(Xor(0x8408, Pack(v)), |v|);
  }

  lemma {:induction false} FirstSet(e: seq<bool>, k: nat) returns (j: nat)
    requires k < |e| && e[k]
    ensures j <= k && e[j] && forall i | 0 <= i < j :: !e[i]
    decreases k
  {
    j := k;
    if exists i | 0 <= i < k :: e[i] {
      var i :| 0 <= i < k && e[i];
      j := FirstSet(e, i);
    }
  }

  /** A non-empty error confined to sixteen consecutive bits never leaves the register zero. */
  lemma BurstLeavesTrace(e: seq<bool>, p: nat, k: nat)
    requires k < |e| && e[k]
    requires forall i | 0 <= i < |e| && !(p <= i < p + 16) :: !e[i]
    ensures BitRegister(0, e) != 0
  {
    hide Step, Xor, BitRegister, StepN;
    var j := FirstSet(e, k);
    var end := if j + 16 <= |e| then j + 16 else |e|;
    var zeros, v, tail := e[..j], e[j + 1..end], e[end..];
    assert e == zeros + ([true] + (v + tail));
    BitRegisterAppend(0, zeros, [true] + (v + tail));
    BitRegisterZeros(0, zeros);
    StepNZeroStays(j);
    BitRegisterAppend(0, [true], v + tail);
    BitRegisterOne(0, true);
    assert Xor(0, Bit(true)) == 1 by { XorComm(0, 1); XorZero(1); }
    BitRegisterAppend(Step(1), v, tail);
    AfterFirstBit(v);
    BitRegisterZeros(BitRegister(Step(1), v), tail);
    StepNZero(BitRegister(Step(1), v), |tail|);
  }

  lemma ByteBitsInjective(a: octet, b: octet)
    requires ByteBits(a) == ByteBits(b)
    ensures a == b
  {
    hide ByteBits, Pack;
    ByteIsPacked(a);
    ByteIsPacked(b);
    assert (Word(a) & 0xff) as octet == a && (Word(b) & 0xff) as octet == b;
  }

  lemma {:induction false} BitsInjective(f: seq<octet>, g: seq<octet>)
    requires |f| == |g| && Bits(f) == Bits(g)
    ensures f == g
    decreases |f|
  {
    hide ByteBits;
    if f != [] {
      var n := |f| - 1;
      assert Bits(f)[..8 * n] == Bits(f[..n]) && Bits(g)[..8 * n] == Bits(g[..n]);
      assert Bits(f)[8 * n..] == ByteBits(f[n]) && Bits(g)[8 * n..] == ByteBits(g[n]);
      BitsInjective(f[..n], g[..n]);
      ByteBitsInjective(f[n], g[n]);
    }
  }

  /** Whatever state they start from, two byte strings of the same length leave the same
      register exactly when the register does not see their difference. */
  lemma UndetectedErrors(c: bv16, f: seq<octet>, g: seq<octet>)
    requires |f| == |g|
    ensures Register(c, f) == Register(c, g) <==> BitRegister(0, XorBits(Bits(f), Bits(g))) == 0
  {
    hide Xor, Register, BitRegister, Bits, XorBits;
    RegisterIsBitwise(c, f);
    RegisterIsBitwise(c, g);
    BitRegisterLinear(c, c, Bits(f), Bits(g));
    XorItself(c);
    XorSelf(Register(c, f), Register(c, g));
  }

  ghost predicate SameOutsideWindow(f: seq<octet>, g: seq<octet>, p: nat)
    requires |f| == |g|
  {
    forall i | 0 <= i < 8 * |f| && !(p <= i < p + 16) :: Bits(f)[i] == Bits(g)[i]
  }

  /** Main result: different byte strings that agree outside sixteen consecutive bits never
      leave the same register. */
  lemma BurstDetected(c: bv16, f: seq<octet>, g: seq<octet>, p: nat)
    requires |f| == |g| && f != g && SameOutsideWindow(f, g, p)
    ensures Register(c, f) != Register(c, g)
  {
    hide Register, BitRegister, Bits;
    if forall i | 0 <= i < |Bits(f)| :: Bits(f)[i] == Bits(g)[i] {
      BitsInjective(f, g);
    }
    var k :| 0 <= k < |Bits(f)| && Bits(f)[k] != Bits(g)[k];
    BurstLeavesTrace(XorBits(Bits(f), Bits(g)), p, k);
    UndetectedErrors(c, f, g);
  }

  // The residue

  lemma {:induction false} RegisterAppend(c: bv16, s: seq<octet>, t: seq<octet>)
    ensures Register(c, s + t) == Register(Register(c, s), t)
    decreases |t|
  {
    hide Step8, Xor, Word;
    if t == [] {
      assert s + t == s;
    } else {
      assert (s + t)[..|s + t| - 1] == s + t[..|t| - 1];
      RegisterAppend(c, s, t[..|t| - 1]);
    }
  }

  lemma Step8Linear(x: bv16, y: bv16)
    ensures Step8(Xor(x, y)) == Xor(Step8(x), Step8(y))
  {
    hide Step8, StepN, Xor;
    EightSteps(x);
    EightSteps(y);
    EightSteps(Xor(x, y));
    StepNLinear(x, y, 8);
  }

  lemma Step8Injective(x: bv16, y: bv16)
    ensures Step8(x) == Step8(y) <==> x == y
  {
    hide Step8, StepN, Xor;
    Step8Linear(x, y);
    XorSelf(x, y);
    XorSelf(Step8(x), Step8(y));
    EightSteps(Xor(x, y));
    StepNZero(Xor(x, y), 8);
  }

  lemma HighByteComesDown(hi: octet)
    ensures Step8(Word(hi) << 8) == Word(hi)
  {
  }

  lemma TwoBytes(r: bv16, lo: octet, hi: octet)
    ensures Register(r, [lo, hi]) == Step8(Step8(Xor(r, Little(lo, hi))))
  {
    assert [lo, hi][..1] == [lo] && [lo][..0] == [];
    assert Register(r, [lo]) == Step8(Xor(r, Word(lo)));
    assert Register(r, [lo, hi]) == Step8(Xor(Register(r, [lo]), Word(hi)));
    hide Step8, Xor, Word, Register;
    HighByteComesDown(hi);
    Step8Linear(Xor(r, Word(lo)), Word(hi) << 8);
    XorAssoc(r, Word(lo), Word(hi) << 8);
    LittleIsXor(lo, hi);
  }

  lemma LittleIsXor(lo: octet, hi: octet)
    ensures Little(lo, hi) == Xor(Word(lo), Word(hi) << 8)
  {
  }

  lemma GoodResidue()
    ensures Step8(Step8(0xffff)) == 0xf0b8
  {
  }

  lemma Complement(r: bv16, v: bv16)
    ensures Xor(r, v) == 0xffff <==> v == Xor(r, 0xffff)
  {
    hide Xor;
    XorAssoc(r, r, v);
    XorAssoc(r, r, 0xffff);
    XorItself(r);
    XorComm(0, v);
    XorComm(0, 0xffff);
    XorZero(v);
    XorZero(0xffff);
  }

  /** Main result: with two more bytes the register is 0xf0b8 exactly when those bytes are the
      FCS, low byte first. */
  lemma ResidueIffFcs(s: seq<octet>, lo: octet, hi: octet)
    ensures Register(0xffff, s + [lo, hi]) == 0xf0b8 <==> Little(lo, hi) == Fcs(s)
  {
    hide Register, Step8, Xor, Little;
    var r, v := Register(0xffff, s), Little(lo, hi);
    RegisterAppend(0xffff, s, [lo, hi]);
    TwoBytes(r, lo, hi);
    GoodResidue();
    Step8Injective(Step8(Xor(r, v)), Step8(0xffff));
    Step8Injective(Xor(r, v), 0xffff);
    Complement(r, v);
  }

  /** The last two bytes are the FCS of `prefix` and the bytes before them. */
  predicate EndsWithFcs(prefix: seq<octet>, f: seq<octet>)
    requires |f| >= 2
  {
    var n := |f| - 2;
    Little(f[n], f[n + 1]) == Fcs(prefix + f[..n])
  }

  /** An error in checked bytes and FCS together turns a good frame into a bad one exactly when
      the register sees it. */
  lemma ErrorBreaksFcsExactly(prefix: seq<octet>, f: seq<octet>, g: seq<octet>)
    requires |f| == |g| >= 2 && EndsWithFcs(prefix, f)
    ensures EndsWithFcs(prefix, g) <==> BitRegister(0, XorBits(Bits(f), Bits(g))) == 0
  {
    hide *;
    FcsIsResidue(prefix, f);
    FcsIsResidue(prefix, g);
    UndetectedErrors(Register(0xffff, prefix), f, g);
  }

  lemma FcsIsResidue(prefix: seq<octet>, f: seq<octet>)
    requires |f| >= 2
    ensures EndsWithFcs(prefix, f) <==> Register(Register(0xffff, prefix), f) == 0xf0b8
  {
    hide Register, Bits, Little, Fcs;
    var n := |f| - 2;
    ResidueIffFcs(prefix + f[..n], f[n], f[n + 1]);
    assert prefix + f[..n] + [f[n], f[n + 1]] == prefix + f;
    RegisterAppend(0xffff, prefix, f);
  }

  /** So does a burst. */
  lemma BurstBreaksFcs(prefix: seq<octet>, f: seq<octet>, g: seq<octet>, p: nat)
    requires |f| == |g| >= 2 && f != g && SameOutsideWindow(f, g, p) && EndsWithFcs(prefix, f)
    ensures !EndsWithFcs(prefix, g)
  {
    hide *;
    ErrorBreaksFcsExactly(prefix, f, g);
    BurstDetected(Register(0xffff, prefix), f, g, p);
    UndetectedErrors(Register(0xffff, prefix), f, g);
  }

  // Errors of odd weight

  function OddWeight(bits: seq<bool>): bool {
    if bits == [] then false else bits[0] != OddWeight(bits[1..])
  }

  /** Whether an odd number of the `n` low bits are ones. */
  function ParityN(v: bv16, n: nat): bool {
    n > 0 && Odd(v) != ParityN(Half(v), n - 1)
  }

  function Parity(v: bv16): bool {
    ParityN(v, 16)
  }

  function HalfN(v: bv16, n: nat): bv16
    decreases n
  {
    if n == 0 then v else HalfN(Half(v), n - 1)
  }

  lemma {:induction false} ParityNLinear(x: bv16, y: bv16, n: nat)
    ensures ParityN(Xor(x, y), n) == (ParityN(x, n) != ParityN(y, n))
    decreases n
  {
    hide Xor, Half, Odd;
    if n > 0 {
      OddLinear(x, y);
      HalfLinear(x, y);
      ParityNLinear(Half(x), Half(y), n - 1);
    }
  }

  lemma {:induction false} ParityNMore(v: bv16, n: nat)
    ensures ParityN(v, n + 1) == (ParityN(v, n) != Odd(HalfN(v, n)))
    decreases n
  {
    hide Half, Odd;
    if n > 0 { ParityNMore(Half(v), n - 1); } else { assert !ParityN(Half(v), 0); }
  }

  lemma HalfFour(v: bv16, n: nat)
    ensures HalfN(v, n + 4) == HalfN(v >> 4, n)
  {
    assert HalfN(v, n + 4) == HalfN(Half(v), n + 3);
    assert HalfN(Half(v), n + 3) == HalfN(Half(Half(v)), n + 2);
    assert HalfN(Half(Half(v)), n + 2) == HalfN(Half(Half(Half(v))), n + 1);
    assert HalfN(Half(Half(Half(v))), n + 1) == HalfN(Half(Half(Half(Half(v)))), n);
    ShiftFour(v);
  }

  lemma ShiftFour(v: bv16)
    ensures Half(Half(Half(Half(v)))) == v >> 4
  {
  }

  lemma NothingLeft(v: bv16)
    ensures HalfN(v, 16) == 0
  {
    HalfFour(v, 12);
    HalfFour(v >> 4, 8);
    HalfFour(v >> 4 >> 4, 4);
    HalfFour(v >> 4 >> 4 >> 4, 0);
  }

  lemma ParityOfHalf(v: bv16)
    ensures Parity(v) == (Odd(v) != Parity(Half(v)))
  {
    hide Half;
    ParityNMore(v, 16);
    NothingLeft(v);
  }

  lemma ParityConstants()
    ensures !Parity(0) && Parity(1) && Parity(0x8408)
  {
    PolynomialParity();
    ParityNLinear(0, 0, 16);
    ParityOfHalf(1);
    XorItself(0);
  }

  lemma PolynomialParity()
    ensures Parity(0x8408)
  {
    assert ParityN(0x1, 1);
    assert ParityN(0x2, 2);
    assert ParityN(0x4, 3);
    assert ParityN(0x8, 4);
    assert ParityN(0x10, 5);
    assert !ParityN(0x21, 6);
    assert !ParityN(0x42, 7);
    assert !ParityN(0x84, 8);
    assert !ParityN(0x108, 9);
    assert !ParityN(0x210, 10);
    assert !ParityN(0x420, 11);
    assert !ParityN(0x840, 12);
    assert ParityN(0x1081, 13);
    assert ParityN(0x2102, 14);
    assert ParityN(0x4204, 15);
  }

  /** The polynomial takes out one bit and puts in three. */
  lemma StepKeepsParity(c: bv16)
    ensures Parity(Step(c)) == Parity(c)
  {
    hide Parity, Xor, Step, Half, Odd;
    StepHalves(c);
    ParityOfHalf(c);
    ParityLinear(Half(c), 0x8408);
    ParityConstants();
  }

  lemma ParityLinear(x: bv16, y: bv16)
    ensures Parity(Xor(x, y)) == (Parity(x) != Parity(y))
  {
    ParityNLinear(x, y, 16);
  }

  lemma BitFlipsParity(c: bv16, b: bool)
    ensures Parity(Xor(c, Bit(b))) == (Parity(c) != b)
  {
    hide Parity, Xor;
    ParityLinear(c, Bit(b));
    ParityConstants();
  }

  lemma {:induction false} RegisterParity(c: bv16, bits: seq<bool>)
    ensures Parity(BitRegister(c, bits)) == (Parity(c) != OddWeight(bits))
    decreases |bits|
  {
    hide Parity, Step, Xor, Bit;
    if bits != [] {
      BitFlipsParity(c, bits[0]);
      StepKeepsParity(Xor(c, Bit(bits[0])));
      RegisterParity(Step(Xor(c, Bit(bits[0]))), bits[1..]);
    }
  }

  /** Main result: an odd number of flipped bits, wherever they are, is seen too. */
  lemma OddErrorDetected(c: bv16, f: seq<octet>, g: seq<octet>)
    requires |f| == |g| && OddWeight(XorBits(Bits(f), Bits(g)))
    ensures Register(c, f) != Register(c, g)
  {
    hide *;
    UndetectedErrors(c, f, g);
    RegisterParity(0, XorBits(Bits(f), Bits(g)));
    ParityConstants();
  }

  /** And so does it across checked bytes and FCS. */
  lemma OddErrorBreaksFcs(prefix: seq<octet>, f: seq<octet>, g: seq<octet>)
    requires |f| == |g| >= 2 && OddWeight(XorBits(Bits(f), Bits(g))) && EndsWithFcs(prefix, f)
    ensures !EndsWithFcs(prefix, g)
  {
    hide *;
    ErrorBreaksFcsExactly(prefix, f, g);
    OddErrorDetected(0, f, g);
    UndetectedErrors(0, f, g);
  }

  // Parts of a byte string

  lemma {:induction false} BitsAppend(s: seq<octet>, t: seq<octet>)
    ensures Bits(s + t) == Bits(s) + Bits(t)
    decreases |t|
  {
    hide ByteBits;
    if t == [] {
      assert s + t == s;
    } else {
      var init := t[..|t| - 1];
      assert (s + t)[..|s + t| - 1] == s + init;
      BitsAppend(s, init);
    }
  }

  /** A burst in a string is a burst, or nothing, in each of two parts of it. */
  lemma BurstInParts(a: seq<octet>, b: seq<octet>, c: seq<octet>, d: seq<octet>, p: nat)
    requires |a| == |c| && |b| == |d| && SameOutsideWindow(a + b, c + d, p)
    ensures SameOutsideWindow(a, c, p)
    ensures SameOutsideWindow(b, d, if p < 8 * |a| then 0 else p - 8 * |a|)
  {
    hide Bits;
    BitsAppend(a, b);
    BitsAppend(c, d);
    forall i | 0 <= i < 8 * |a| && !(p <= i < p + 16) ensures Bits(a)[i] == Bits(c)[i] {
      assert Bits(a + b)[i] == Bits(c + d)[i];
    }
    var q := if p < 8 * |a| then 0 else p - 8 * |a|;
    forall i | 0 <= i < 8 * |b| && !(q <= i < q + 16) ensures Bits(b)[i] == Bits(d)[i] {
      var k := 8 * |a| + i;
      assert Bits(a + b)[k] == Bits(c + d)[k];
    }
  }
}
