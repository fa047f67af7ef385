/** The order of the register step: no two bits less than 32767 places apart cancel. */
module CrcOrder {
  import opened Crc16
  import opened CrcErrors
  import opened ModArith

  // The register as a polynomial, its top bit the constant term; a step multiplies by x

  const ONE: bv16 := 0x8000

  function Part(c: bv16, r: bv16): bv16 {
    if c & 0x8000 != 0 then r else 0
  }

  function Step4(c: bv16): bv16 {
    Step(Step(Step(Step(c))))
  }

  /** The product of `r` with the four lowest powers in `c`. */
  function Mul4(c: bv16, r: bv16): bv16 {
    Xor(Part(c, r), Xor(Part(c << 1, Step(r)), Xor(Part(c << 2, Step(Step(r))), Part(c << 3, Step(Step(Step(r)))))))
  }

  function Mul(c: bv16, r: bv16): bv16 {
    Xor(Mul4(c, r), Xor(Mul4(c << 4, Step4(r)),
      Xor(Mul4(c << 8, Step4(Step4(r))), Mul4(c << 12, Step4(Step4(Step4(r)))))))
  }

  lemma TopSplit(c: bv16)
    ensures c == Xor(Part(c, ONE), Step(c << 1))
  {
    EvenStep(c);
    TopBit(c);
    hide Step;
  }

  lemma EvenStep(c: bv16)
    ensures Step(c << 1) == c & 0x7fff
  {
    assert (c << 1) & 1 == 0;
    assert (c << 1) >> 1 == c & 0x7fff;
  }

  lemma TopBit(c: bv16)
    ensures Xor(Part(c, ONE), c & 0x7fff) == c
  {
    assert (c & 0x8000) ^ (c & 0x7fff) == c;
    assert c & 0x8000 == 0 || c & 0x8000 == 0x8000;
  }

  /** The top bit, and the rest one place up and one step later. */
  lemma Split(c: bv16, n: nat)
    ensures StepN(c, n) == Xor(Part(c, StepN(ONE, n)), StepN(c << 1, n + 1))
  {
    hide Xor, Step;
    TopSplit(c);
    StepNLinear(Part(c, ONE), Step(c << 1), n);
    StepNZero(0, n);
  }

  lemma Shifts(c: bv16)
    ensures (c << 1) << 1 == c << 2 && (c << 2) << 1 == c << 3 && (c << 3) << 1 == c << 4
    ensures (c << 4) << 4 == c << 8 && (c << 8) << 4 == c << 12 && (c << 12) << 4 == 0
  {
  }

  lemma Split4(c: bv16, n: nat)
    ensures StepN(c, n) == Xor(Mul4(c, StepN(ONE, n)), StepN(c << 4, n + 4))
  {
    hide Xor, Step, StepN, Part;
    Shifts(c);
    Split(c, n);
    Split(c << 1, n + 1);
    Split(c << 2, n + 2);
    Split(c << 3, n + 3);
    StepNLast(ONE, n);
    StepNLast(ONE, n + 1);
    StepNLast(ONE, n + 2);
    var r := StepN(ONE, n);
    FiveXor(Part(c, r), Part(c << 1, Step(r)), Part(c << 2, Step(Step(r))), Part(c << 3, Step(Step(Step(r)))),
      StepN(c << 4, n + 4));
  }

  lemma FiveXor(a: bv16, b: bv16, c: bv16, d: bv16, e: bv16)
    ensures Xor(a, Xor(b, Xor(c, Xor(d, e)))) == Xor(Xor(a, Xor(b, Xor(c, d))), e)
  {
    hide Xor;
    XorAssoc(c, d, e);
    XorAssoc(b, Xor(c, d), e);
    XorAssoc(a, Xor(b, Xor(c, d)), e);
  }

  lemma FourSteps(n: nat)
    ensures StepN(ONE, n + 4) == Step4(StepN(ONE, n))
  {
    hide Step, StepN;
    StepNLast(ONE, n);
    StepNLast(ONE, n + 1);
    StepNLast(ONE, n + 2);
    StepNLast(ONE, n + 3);
  }

  /** Steps from any register are a product with the steps from one. */
  lemma MulIsStepN(c: bv16, n: nat)
    ensures StepN(c, n) == Mul(c, StepN(ONE, n))
  {
    hide Xor, Step4, StepN, Mul4;
    Shifts(c);
    Split4(c, n);
    Split4(c << 4, n + 4);
    Split4(c << 8, n + 8);
    Split4(c << 12, n + 12);
    FourSteps(n);
    FourSteps(n + 4);
    FourSteps(n + 8);
    StepNZero(0, n + 16);
    XorZero(Mul4(c << 12, StepN(ONE, n + 12)));
  }

  lemma {:induction false} StepNSum(c: bv16, m: nat, n: nat)
    ensures StepN(StepN(c, m), n) == StepN(c, m + n)
    decreases m
  {
    hide Step;
    if m > 0 { StepNSum(Step(c), m - 1, n); }
  }

  lemma PowerSum(m: nat, n: nat)
    ensures StepN(ONE, m + n) == Mul(StepN(ONE, m), StepN(ONE, n))
  {
    hide StepN, Mul;
    StepNSum(ONE, m, n);
    MulIsStepN(StepN(ONE, m), n);
  }

  // Powers of x, by squaring and multiplying

  lemma FirstPower()
    ensures StepN(ONE, 1) == 0x4000
  {
    assert StepN(ONE, 1) == StepN(Step(ONE), 0);
  }

  lemma LowPowers()
    ensures StepN(ONE, 2) == 0x2000
    ensures StepN(ONE, 4) == 0x0800
    ensures StepN(ONE, 8) == 0x0080
    ensures StepN(ONE, 16) == 0x8408
    ensures StepN(ONE, 32) == 0x0cec
  {
    hide StepN;
    FirstPower();
    PowerSum(1, 1);
    assert Mul(0x4000, 0x4000) == 0x2000;
    PowerSum(2, 2);
    assert Mul(0x2000, 0x2000) == 0x0800;
    PowerSum(4, 4);
    assert Mul(0x0800, 0x0800) == 0x0080;
    PowerSum(8, 8);
    assert Mul(0x0080, 0x0080) == 0x8408;
    PowerSum(16, 16);
    assert Mul(0x8408, 0x8408) == 0x0cec;
  }

  lemma MiddlePowers()
    ensures StepN(ONE, 64) == 0x861d
    ensures StepN(ONE, 128) == 0x3f75
    ensures StepN(ONE, 256) == 0x9471
    ensures StepN(ONE, 512) == 0x3fc8
    ensures StepN(ONE, 1024) == 0x236c
  {
    hide StepN;
    LowPowers();
    PowerSum(32, 32);
    assert Mul(0x0cec, 0x0cec) == 0x861d;
    PowerSum(64, 64);
    assert Mul(0x861d, 0x861d) == 0x3f75;
    PowerSum(128, 128);
    assert Mul(0x3f75, 0x3f75) == 0x9471;
    PowerSum(256, 256);
    assert Mul(0x9471, 0x9471) == 0x3fc8;
    PowerSum(512, 512);
    assert Mul(0x3fc8, 0x3fc8) == 0x236c;
  }

  lemma HighPowers()
    ensures StepN(ONE, 2048) == 0x0abf
    ensures StepN(ONE, 4096) == 0x7955
    ensures StepN(ONE, 8192) == 0x3811
    ensures StepN(ONE, 16384) == 0x1a22
    ensures StepN(ONE, 32768) == 0x4000
  {
    hide StepN;
    MiddlePowers();
    PowerSum(1024, 1024);
    assert Mul(0x236c, 0x236c) == 0x0abf;
    PowerSum(2048, 2048);
    assert Mul(0x0abf, 0x0abf) == 0x7955;
    PowerSum(4096, 4096);
    assert Mul(0x7955, 0x7955) == 0x3811;
    PowerSum(8192, 8192);
    assert Mul(0x3811, 0x3811) == 0x1a22;
    PowerSum(16384, 16384);
    assert Mul(0x1a22, 0x1a22) == 0x4000;
  }

  lemma Power15()
    ensures StepN(ONE, 3) == 0x1000
    ensures StepN(ONE, 7) == 0x0100
    ensures StepN(ONE, 15) == 0x0001
  {
    hide StepN;
    FirstPower();
    LowPowers();
    PowerSum(2, 1);
    assert Mul(0x2000, 0x4000) == 0x1000;
    PowerSum(4, 3);
    assert Mul(0x0800, 0x1000) == 0x0100;
    PowerSum(8, 7);
    assert Mul(0x0080, 0x0100) == 0x0001;
  }

  lemma Power217()
    ensures StepN(ONE, 9) == 0x0040
    ensures StepN(ONE, 25) == 0x4666
    ensures StepN(ONE, 89) == 0x517b
    ensures StepN(ONE, 217) == 0xc712
  {
    hide StepN;
    FirstPower();
    LowPowers();
    MiddlePowers();
    PowerSum(8, 1);
    assert Mul(0x0080, 0x4000) == 0x0040;
    PowerSum(16, 9);
    assert Mul(0x8408, 0x0040) == 0x4666;
    PowerSum(64, 25);
    assert Mul(0x861d, 0x4666) == 0x517b;
    PowerSum(128, 89);
    assert Mul(0x3f75, 0x517b) == 0xc712;
  }

  lemma Power1057()
    ensures StepN(ONE, 33) == 0x0676
    ensures StepN(ONE, 1057) == 0xf54f
  {
    hide StepN;
    FirstPower();
    LowPowers();
    MiddlePowers();
    PowerSum(32, 1);
    assert Mul(0x0cec, 0x4000) == 0x0676;
    PowerSum(1024, 33);
    assert Mul(0x236c, 0x0676) == 0xf54f;
  }

  lemma Power4681()
    ensures StepN(ONE, 73) == 0x65f1
    ensures StepN(ONE, 585) == 0x00a2
    ensures StepN(ONE, 4681) == 0x4234
  {
    hide StepN;
    Power217();
    LowPowers();
    MiddlePowers();
    HighPowers();
    PowerSum(64, 9);
    assert Mul(0x861d, 0x0040) == 0x65f1;
    PowerSum(512, 73);
    assert Mul(0x3fc8, 0x65f1) == 0x00a2;
    PowerSum(4096, 585);
    assert Mul(0x7955, 0x00a2) == 0x4234;
  }

  // The order

  /** So many steps lead from one back to it. */
  predicate Returns(d: nat) {
    StepN(ONE, d) == ONE
  }

  lemma StepNInjective(a: bv16, b: bv16, n: nat)
    ensures StepN(a, n) == StepN(b, n) <==> a == b
  {
    hide StepN, Xor;
    StepNLinear(a, b, n);
    StepNZero(Xor(a, b), n);
    XorSelf(a, b);
    XorSelf(StepN(a, n), StepN(b, n));
  }

  lemma OrderReturns()
    ensures Returns(32767)
  {
    hide StepN;
    HighPowers();
    FirstPower();
    StepNSum(ONE, 32767, 1);
    StepNSum(ONE, 0, 1);
    StepNNothing(ONE);
    StepNInjective(StepN(ONE, 32767), ONE, 1);
  }

  lemma StepNNothing(c: bv16)
    ensures StepN(c, 0) == c
  {
  }

  lemma ReturnsSum(a: nat, b: nat)
    requires Returns(a)
    ensures Returns(a + b) <==> Returns(b)
  {
    hide StepN;
    StepNSum(ONE, a, b);
  }

  lemma {:induction false} ReturnsTimes(g: nat, k: nat)
    requires Returns(g)
    ensures 0 <= k * g && Returns(k * g)
    decreases k
  {
    hide StepN;
    if k == 0 {
      StepNNothing(ONE);
      assert 0 * g == 0;
    } else {
      ReturnsTimes(g, k - 1);
      assert k * g == g + (k - 1) * g;
      ReturnsSum(g, (k - 1) * g);
    }
  }

  lemma {:induction false} ReturnsGcd(a: nat, b: nat)
    requires Returns(a) && Returns(b)
    ensures ExtendedGcd(a, b).0 >= 0 && Returns(ExtendedGcd(a, b).0)
    decreases b
  {
    hide Returns;
    if b > 0 {
      ReturnsTimes(b, a / b);
      QuotientRemainder(a, b);
      ReturnsSum(a / b * b, a % b);
      ReturnsGcd(b, a % b);
    }
  }

  lemma SmallPrimes()
    ensures IsPrime(7) && IsPrime(31) && IsPrime(151)
  {
  }

  /** A divisor of 32767 = 7 * 31 * 151 below it divides it without one of the primes. */
  lemma ProperDivisor(g: nat)
    requires 0 < g < 32767 && Divides(g, 32767)
    ensures Divides(g, 4681) || Divides(g, 1057) || Divides(g, 217)
  {
    var h := 32767 / g;
    assert h * g == 32767;
    SmallPrimes();
    hide IsPrime, Divides;
    if h % 7 == 0 {
      Cofactor(g, h, 7, 4681);
    } else if h % 31 == 0 {
      Cofactor(g, h, 31, 1057);
    } else if h % 151 == 0 {
      Cofactor(g, h, 151, 217);
    } else {
      PrimeLeft(7, h, g);
      PrimeLeft(31, h, g);
      PrimeLeft(151, h, g);
      AllThree(g);
    }
  }

  lemma PrimeLeft(p: nat, h: nat, g: nat)
    requires IsPrime(p) && h % p != 0 && h * g % p == 0
    ensures g % p == 0
  {
    if g % p != 0 { PrimeProduct(h, g, p); }
  }

  lemma AllThree(g: nat)
    requires g < 32767 && g % 7 == 0 && g % 31 == 0 && g % 151 == 0
    ensures g == 0
  {
    var a, b, c := g / 7, g / 31, g / 151;
    assert g == 7 * a && g == 31 * b && g == 151 * c;
    var u := 9 * b - 2 * a;
    assert g == 217 * u;
    assert g == 32767 * (23 * u - 16 * c);
  }

  lemma Cofactor(g: nat, h: nat, p: nat, m: nat)
    requires g > 0 && p > 0 && h % p == 0 && h * g == p * m
    ensures Divides(g, m)
  {
    var k := h / p;
    assert h == p * k;
    Reassociate(p, k, g);
    assert p * (k * g) == p * m;
    assert k * g == m;
    ModUnique(m, g, k, 0);
  }

  lemma NotBefore(d: nat)
    requires 0 < d < 32767
    ensures !Returns(d)
  {
    if Returns(d) {
      hide Returns, ExtendedGcd, Divides;
      OrderReturns();
      ReturnsGcd(d, 32767);
      GcdDivides(d, 32767);
      var g := ExtendedGcd(d, 32767).0;
      AtMost(g, d);
      ProperDivisor(g);
      if Divides(g, 4681) { MultipleReturns(g, 4681); }
      if Divides(g, 1057) { MultipleReturns(g, 1057); }
      if Divides(g, 217) { MultipleReturns(g, 217); }
      MaximalDivisors();
    }
  }

  /** Main result: the steps that lead back are the multiples of 32767. */
  lemma OrderExactly(d: nat)
    ensures Returns(d) <==> d % 32767 == 0
  {
    hide Returns;
    OrderReturns();
    ReturnsTimes(32767, d / 32767);
    ReturnsSum(d / 32767 * 32767, d % 32767);
    if d % 32767 == 0 { ZeroReturns(); } else { NotBefore(d % 32767); }
  }

  lemma ZeroReturns()
    ensures Returns(0)
  {
  }

  lemma AtMost(g: nat, d: nat)
    requires 0 < g && 0 < d && Divides(g, d)
    ensures g <= d
  {
    DivisorBound(g, d);
  }

  lemma MultipleReturns(g: nat, m: nat)
    requires g > 0 && Returns(g) && Divides(g, m)
    ensures Returns(m)
  {
    hide Returns;
    ReturnsTimes(g, m / g);
    QuotientRemainder(m, g);
  }

  lemma MaximalDivisors()
    ensures !Returns(4681) && !Returns(1057) && !Returns(217)
  {
    hide StepN;
    Power4681();
    Power1057();
    Power217();
  }

  lemma OneReturns(d: nat)
    ensures StepN(1, d) == 1 <==> Returns(d)
  {
    hide StepN;
    Power15();
    StepNSum(ONE, 15, d);
    StepNSum(ONE, d, 15);
    StepNInjective(StepN(ONE, d), ONE, 15);
  }

  // Two flipped bits

  predicate OnlyBits(e: seq<bool>, i: nat, j: nat) {
    i < j < |e| && forall k | 0 <= k < |e| :: e[k] <==> k == i || k == j
  }

  /** Two bits leave the register zero exactly when they are a multiple of 32767 apart. */
  lemma TwoBitsCancelExactly(e: seq<bool>, i: nat, j: nat)
    requires OnlyBits(e, i, j)
    ensures BitRegister(0, e) == 0 <==> (j - i) % 32767 == 0
  {
    hide Step, Xor, BitRegister, StepN;
    var d := j - i;
    var before, between, after := e[..i], e[i + 1..j], e[j + 1..];
    assert e == before + ([true] + (between + ([true] + after)));
    BitRegisterAppend(0, before, [true] + (between + ([true] + after)));
    BitRegisterZeros(0, before);
    StepNZero(0, i);
    BitRegisterAppend(0, [true], between + ([true] + after));
    BitRegisterOne(0, true);
    assert Xor(0, Bit(true)) == 1 by { XorComm(0, 1); XorZero(1); }
    BitRegisterAppend(Step(1), between, [true] + after);
    BitRegisterZeros(Step(1), between);
    StepNFirst(1, d);
    BitRegisterAppend(StepN(1, d), [true], after);
    BitRegisterOne(StepN(1, d), true);
    var c := Xor(StepN(1, d), 1);
    OneReturns(d);
    OrderExactly(d);
    XorSelf(StepN(1, d), 1);
    StepZero(c);
    BitRegisterZeros(Step(c), after);
    StepNZero(Step(c), |after|);
  }

  lemma StepNFirst(c: bv16, n: nat)
    requires n > 0
    ensures StepN(c, n) == StepN(Step(c), n - 1)
  {
  }

  /** Main result: two flipped bits go unseen exactly when they are a multiple of 32767 apart. */
  lemma TwoBitsUnseenExactly(c: bv16, f: seq<octet>, g: seq<octet>, i: nat, j: nat)
    requires |f| == |g| && OnlyBits(XorBits(Bits(f), Bits(g)), i, j)
    ensures Register(c, f) == Register(c, g) <==> (j - i) % 32767 == 0
  {
    hide *;
    UndetectedErrors(c, f, g);
    TwoBitsCancelExactly(XorBits(Bits(f), Bits(g)), i, j);
  }
}
