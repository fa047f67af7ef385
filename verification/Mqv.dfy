/** Menezes-Qu-Vanstone key agreement. */
module Mqv {
  import opened Bytes
  import opened ModArith
  import opened Group
  import opened Wrappers

  // Keys as bytes

  function PrivateLength<T>(G: Params<T>): nat {
    ByteCount(G.q)
  }

  /** The private exponent, then the encoded public element. */
  function EphemeralPrivateKey<T>(G: Params<T>, x: nat): seq<byte> {
    Octets(x, PrivateLength(G)) + G.encode(true, Pow(G, G.g, x))
  }

  // Agreement on decoded keys

  /** `h2` plus the low half of an ephemeral public element. */
  function HalfTag<T>(G: Params<T>, v: T): (t: nat)
    requires G.q > 1
  {
    var h2 := Power2((BitCount(G.q) + 1) / 2);
    h2 + G.toInteger(v) % h2
  }

  /** The implicit exponent of the party with static key `s`, ephemeral key `u` and `v` = g^u. */
  function Implicit<T>(G: Params<T>, s: nat, u: nat, v: T): (e: nat)
    requires G.q > 1
    ensures e < G.q
  {
    Times(HalfTag(G, v), s);
    (HalfTag(G, v) * s + u) % G.q
  }

  /** The agreed element from the own exponents `s` and `u` and element `v`, and the other
      party's elements `w` (static) and `z` (ephemeral). */
  function AgreedElement<T(==)>(option: CofactorOption, G: Params<T>, s: nat, u: nat, v: T, w: T, z: T): Option<T>
    requires G.q > 1
  {
    var e, tt := Implicit(G, s, u, v), HalfTag(G, z);
    if option.NoCofactor? then
      var p := G.mul(Pow(G, w, tt), z);
      if Pow(G, p, G.q) != G.identity || Pow(G, p, e) == G.identity then None else Some(Pow(G, p, e))
    else
      var k := G.cofactor;
      var f := if option.Compatible? then Divide(e, k, G.q) else e;
      var p := G.mul(Pow(G, z, Product(k, f)), Pow(G, w, Product(k, Product(f, tt) % G.q)));
      if p == G.identity then None else Some(p)
  }

  function Agree<T(==)>(option: CofactorOption, G: Params<T>, staticPrivate: seq<byte>, ephemeralPrivate: seq<byte>,
    staticOther: seq<byte>, ephemeralOther: seq<byte>, validate: bool): Option<T>
    requires G.q > 1 && |staticPrivate| >= PrivateLength(G) && |ephemeralPrivate| >= PrivateLength(G)
  {
    var n := PrivateLength(G);
    match (G.decode(staticOther, validate), G.decode(ephemeralOther, true), G.decode(ephemeralPrivate[n..], false))
    case (Some(w), Some(z), Some(v)) =>
      AgreedElement(option, G, BigEndian(staticPrivate[..n]), BigEndian(ephemeralPrivate[..n]), v, w, z)
    case _ => None
  }

  // What two honest parties agree on

  /** The exponent of the agreed element, in the two parties' implicit exponents. */
  function SharedExponent<T>(option: CofactorOption, G: Params<T>, e1: nat, e2: nat): (n: nat)
    requires G.q > 1
  {
    match option
    case NoCofactor => Product(e1, e2)
    case Incompatible => Product(Product(e1, e2), G.cofactor)
    case Compatible => Product(Product(e1, e2), Product(G.cofactor, InverseMod(G.cofactor, G.q)))
  }

  function Element<T(==)>(G: Params<T>, n: nat): Option<T> {
    if Pow(G, G.g, n) == G.identity then None else Some(Pow(G, G.g, n))
  }

  function Public<T>(G: Params<T>, x: nat): T {
    Pow(G, G.g, x)
  }

  /** Main lemma: whoever computes, the result is the generator to the shared exponent. */
  lemma AgreedExactly<T(!new)>(option: CofactorOption, G: Params<T>, s: nat, u: nat, s2: nat, u2: nat)
    requires Valid(G) && G.q > 1
    ensures var e, e2 := Implicit(G, s, u, Public(G, u)), Implicit(G, s2, u2, Public(G, u2));
      AgreedElement(option, G, s, u, Public(G, u), Public(G, s2), Public(G, u2))
      == Element(G, SharedExponent(option, G, e, e2))
  {
    hide Valid, Pow;
    if option.NoCofactor? {
      WithoutCofactor(G, s, u, s2, u2);
    } else {
      WithCofactor(option, G, s, u, s2, u2);
    }
  }

  lemma WithoutCofactor<T(!new)>(G: Params<T>, s: nat, u: nat, s2: nat, u2: nat)
    requires Valid(G) && G.q > 1
    ensures var e, e2 := Implicit(G, s, u, Public(G, u)), Implicit(G, s2, u2, Public(G, u2));
      AgreedElement(NoCofactor, G, s, u, Public(G, u), Public(G, s2), Public(G, u2)) == Element(G, Product(e, e2))
  {
    hide Valid, Pow, Power2, BitCount, IsGroup;
    Generator(G);
    var e, e2 := Implicit(G, s, u, Public(G, u)), Implicit(G, s2, u2, Public(G, u2));
    var tt := HalfTag(G, Public(G, u2));
    var m := Product(s2, tt) + u2;
    PowMul(G, G.g, s2, tt);
    PowAdd(G, G.g, s2 * tt, u2);
    PowMul(G, G.g, m, G.q);
    PowMul(G, G.g, m, e);
    ModUnique(m * G.q, G.q, m, 0);
    OrderExactly(G, m * G.q);
    Commute(s2, tt);
    SameReduced(m, G.q);
    SameProduct(e2, m, e, G.q);
    Commute(e, e2);
    SameExponent(G, m * e, Product(e, e2));
  }

  lemma WithCofactor<T(!new)>(option: CofactorOption, G: Params<T>, s: nat, u: nat, s2: nat, u2: nat)
    requires Valid(G) && G.q > 1 && !option.NoCofactor?
    ensures var e, e2 := Implicit(G, s, u, Public(G, u)), Implicit(G, s2, u2, Public(G, u2));
      AgreedElement(option, G, s, u, Public(G, u), Public(G, s2), Public(G, u2))
      == Element(G, SharedExponent(option, G, e, e2))
  {
    hide Valid, Pow, Power2, BitCount, IsGroup, InverseMod, Same;
    Generator(G);
    var e, e2 := Implicit(G, s, u, Public(G, u)), Implicit(G, s2, u2, Public(G, u2));
    var k, tt := G.cofactor, HalfTag(G, Public(G, u2));
    var f := if option.Compatible? then Divide(e, k, G.q) else e;
    var h := Product(f, tt) % G.q;
    PowMul(G, G.g, u2, Product(k, f));
    PowMul(G, G.g, s2, Product(k, h));
    var n := Product(u2, Product(k, f)) + Product(s2, Product(k, h));
    PowAdd(G, G.g, Product(u2, Product(k, f)), Product(s2, Product(k, h)));
    ExponentWithCofactor(u2, s2, k, f, tt, G.q);
    if option.Compatible? { DividedExponent(e, e2, k, G.q); } else { PlainExponent(e, e2, k); }
    SameTwice(n, Product(e2, Product(k, f)), SharedExponent(option, G, e, e2), G.q);
    SameExponent(G, n, SharedExponent(option, G, e, e2));
  }

  lemma SameTwice(a: int, b: int, c: int, q: nat)
    requires q > 0 && Same(a, b, q) && Same(b, c, q)
    ensures Same(a, c, q)
  {
  }

  lemma ExponentWithCofactor(u: nat, s: nat, k: nat, f: nat, tt: nat, q: nat)
    requires q > 1
    ensures var n := Product(u, Product(k, f)) + Product(s, Product(k, Product(f, tt) % q));
      Same(n, Product((Product(tt, s) + u) % q, Product(k, f)), q)
  {
    var h := (f * tt) % q;
    SameReduced(f * tt, q);
    SameProduct(h, f * tt, s * k, q);
    assert h * (s * k) == s * (k * h) by { Commute(h, s * k); Reassociate(s, k, h); }
    assert f * tt * (s * k) == (tt * s) * (k * f) by { Shuffle(f, tt, s, k); }
    var kf := Product(k, f);
    SameSum(s * (k * h), (tt * s) * kf, u * kf, q);
    assert (tt * s) * kf + u * kf == (tt * s + u) * kf by { Distribute(tt * s, 1, u, kf); }
    SameReduced(tt * s + u, q);
    SameProduct((tt * s + u) % q, tt * s + u, kf, q);
  }

  lemma Shuffle(f: int, t: int, s: int, k: int)
    ensures f * t * (s * k) == (t * s) * (k * f)
  {
    Commute(f, t);
    Commute(k, f);
    Reassociate(t * f, s, k);
    Swap(t, f, s);
    Reassociate(t * s, f, k);
  }

  lemma PlainExponent(e: nat, e2: nat, k: nat)
    ensures Product(e2, Product(k, e)) == Product(Product(e, e2), k)
  {
    Commute(k, e);
    Reassociate(e2, e, k);
    Commute(e2, e);
  }

  lemma DividedExponent(e: nat, e2: nat, k: nat, q: nat)
    requires q > 1
    ensures Same(Product(e2, Product(k, Divide(e, k, q))), Product(Product(e, e2), Product(k, InverseMod(k, q))), q)
  {
    hide InverseMod;
    var i := InverseMod(k, q);
    var f := Divide(e, k, q);
    SameReduced(e * i, q);
    SameProduct(f, e * i, e2 * k, q);
    assert f * (e2 * k) == e2 * (k * f) by { Commute(f, e2 * k); Reassociate(e2, k, f); }
    assert e * i * (e2 * k) == (e * e2) * (k * i) by {
      Shuffle(e, i, e2, k);
      Shuffle(e, e2, i, k);
      Shuffle(e, i, k, e2);
      Commute(k, e2);
      Shuffle(i, e, e2, k);
      Commute(e, i);
      Commute(k, i);
    }
  }

  /** Without cofactor an element is agreed only if its order divides q and it is not the
      identity; with one, only if it is not the identity. */
  lemma AgreedIsChecked<T>(option: CofactorOption, G: Params<T>, s: nat, u: nat, v: T, w: T, z: T)
    requires G.q > 1 && AgreedElement(option, G, s, u, v, w, z).Some?
    ensures AgreedElement(option, G, s, u, v, w, z).value != G.identity
    ensures option.NoCofactor? ==> Pow(G, G.mul(Pow(G, w, HalfTag(G, z)), z), G.q) == G.identity
  {
  }

  // The tags, spelled out

  /** 2^k is the least power of two whose square exceeds q. */
  predicate IsHalf(k: nat, q: nat) {
    k > 0 && Power2(k) * Power2(k) > q && Power2(k - 1) * Power2(k - 1) <= q
  }

  lemma HalfOfBits(q: nat)
    requires q > 1
    ensures IsHalf((BitCount(q) + 1) / 2, q)
  {
    BitCountExact(q);
    var n := BitCount(q);
    var k := (n + 1) / 2;
    Power2Sum(k, k);
    Power2Sum(k - 1, k - 1);
    Power2Monotone(n, k + k);
    Power2Monotone(k - 1 + (k - 1), n - 1);
  }

  lemma HalfIsUnique(k: nat, l: nat, q: nat)
    requires IsHalf(k, q) && IsHalf(l, q)
    ensures k == l
  {
    if k < l { Squares(k, l - 1); }
    if l < k { Squares(l, k - 1); }
  }

  lemma Squares(a: nat, b: nat)
    requires a <= b
    ensures Power2(a) * Power2(a) <= Power2(b) * Power2(b)
  {
    Power2Sum(a, a);
    Power2Sum(b, b);
    Power2Monotone(a + a, b + b);
  }

  /** The tag is the low half of the element's number, with the bit above it set. */
  lemma HalfTagExactly<T>(G: Params<T>, v: T, k: nat)
    requires G.q > 1 && IsHalf(k, G.q)
    ensures var h := Power2(k);
      h <= HalfTag(G, v) < 2 * h && HalfTag(G, v) % h == G.toInteger(v) % h
  {
    hide BitCount, Power2, IsHalf;
    HalfOfBits(G.q);
    HalfIsUnique(k, (BitCount(G.q) + 1) / 2, G.q);
    var h, t := Power2(k), G.toInteger(v) % Power2(k);
    ModUnique(h + t, h, 1, t);
  }

  lemma TagIsDetermined(h: nat, t: nat, c: nat)
    requires h > 0 && h <= t < 2 * h && t % h == c % h
    ensures t == h + c % h
  {
    ModUnique(t, h, 1, t - h);
  }

  /** The implicit exponent by its definition: the tag times the static key, plus the ephemeral. */
  function Definition(h: nat, c: nat, s: nat, u: nat, q: nat): (e: nat)
    requires h > 0 && q > 0
  {
    (Product(h + c % h, s) + u) % q
  }

  lemma ImplicitExactly<T>(G: Params<T>, s: nat, u: nat, v: T, k: nat)
    requires G.q > 1 && IsHalf(k, G.q)
    ensures Implicit(G, s, u, v) == Definition(Power2(k), G.toInteger(v), s, u, G.q)
  {
    hide BitCount, Power2, IsHalf, HalfTag;
    HalfTagExactly(G, v, k);
    TagIsDetermined(Power2(k), HalfTag(G, v), G.toInteger(v));
  }

  /** Main result, without the program's own functions: with 2^k the least power of two whose
      square exceeds q, the agreed element is the generator to the product of the two implicit
      exponents, times the cofactor, or times the cofactor and its inverse. */
  lemma AgreedByDefinition<T(!new)>(option: CofactorOption, G: Params<T>, s: nat, u: nat, s2: nat, u2: nat, k: nat)
    requires Valid(G) && G.q > 1 && IsHalf(k, G.q)
    ensures var (v, v2) := (Pow(G, G.g, u), Pow(G, G.g, u2));
      var e := Definition(Power2(k), G.toInteger(v), s, u, G.q);
      var e2 := Definition(Power2(k), G.toInteger(v2), s2, u2, G.q);
      var n := Product(Product(e, e2), match option
                                       case NoCofactor => 1
                                       case Incompatible => G.cofactor
                                       case Compatible => Product(G.cofactor, InverseMod(G.cofactor, G.q)));
      AgreedElement(option, G, s, u, v, Pow(G, G.g, s2), v2)
      == if Pow(G, G.g, n) == G.identity then None else Some(Pow(G, G.g, n))
  {
    hide Valid, Pow, AgreedElement, Implicit, InverseMod, IsHalf, Power2;
    AgreedExactly(option, G, s, u, s2, u2);
    ImplicitExactly(G, s, u, Public(G, u), k);
    ImplicitExactly(G, s2, u2, Public(G, u2), k);
  }

  function ModuloEleven(): Params<nat> {
    Gfp(11, 5, 3, 4, (s, _) => Some(BigEndian(s)))
  }

  /** In the subgroup of order 5 modulo 11, with all private exponents 1, the agreed element is 4. */
  lemma AgreementModuloEleven()
    ensures AgreedElement(NoCofactor, ModuloEleven(), 1, 1, 3, 3, 3) == Some(4)
  {
    hide AgreedElement, Valid, IsHalf, Pow, ModuloEleven, Power2, Definition;
    var G := ModuloEleven();
    ElevenIsValid();
    HalfOfFive();
    AgreedByDefinition(NoCofactor, G, 1, 1, 1, 1, 2);
    PowReduce(G, 9);
  }

  lemma HalfOfFive()
    ensures IsHalf(2, 5) && Definition(Power2(2), 3, 1, 1, 5) == 3 && Product(Product(3, 3), 1) == 9
  {
    assert Power2(1) == 2 * Power2(0) && Power2(2) == 2 * Power2(1);
  }

  lemma ElevenIsValid()
    ensures var G := ModuloEleven();
      Valid(G) && Pow(G, 3, 1) == 3 && Pow(G, 3, 4) == 4 && G.q == 5 && G.g == 3 && G.identity == 1 &&
      G.toInteger(3) == 3
  {
    var decode := (s, _) => Some(BigEndian(s));
    var G := Gfp(11, 5, 3, 4, decode);
    forall a: nat, check | 0 < a < 11
      ensures var bytes := Octets(a, ByteCount(11)); decode(bytes, check) == Some(a) || decode(bytes, check) == None
    {
      EncodeBack(a, 11);
    }
    assert Pow(G, 3, 0) == 1;
    assert Pow(G, 3, 1) == 3;
    assert Pow(G, 3, 2) == 9;
    assert Pow(G, 3, 3) == 5;
    assert Pow(G, 3, 4) == 4;
    assert Pow(G, 3, 5) == 1;
    GfpIsValid(11, 5, 3, 4, decode);
  }

  /** Both parties get the same element, or neither gets one. */
  lemma BothAgree<T(!new)>(option: CofactorOption, G: Params<T>, s: nat, u: nat, s2: nat, u2: nat)
    requires Valid(G) && G.q > 1
    ensures AgreedElement(option, G, s, u, Public(G, u), Public(G, s2), Public(G, u2))
         == AgreedElement(option, G, s2, u2, Public(G, u2), Public(G, s), Public(G, u))
  {
    hide Valid, Pow, AgreedElement, Implicit;
    AgreedExactly(option, G, s, u, s2, u2);
    AgreedExactly(option, G, s2, u2, s, u);
    var e, e2 := Implicit(G, s, u, Public(G, u)), Implicit(G, s2, u2, Public(G, u2));
    Commute(e, e2);
  }

  /** Neither gets one exactly when an implicit exponent is 0 or, with a cofactor, the cofactor
      is a multiple of the subgroup order. */
  lemma FailsExactly<T(!new)>(option: CofactorOption, G: Params<T>, s: nat, u: nat, s2: nat, u2: nat)
    requires Valid(G) && G.q > 1
    ensures var e, e2 := Implicit(G, s, u, Public(G, u)), Implicit(G, s2, u2, Public(G, u2));
      AgreedElement(option, G, s, u, Public(G, u), Public(G, s2), Public(G, u2)) == None
      <==> e == 0 || e2 == 0 || (!option.NoCofactor? && G.cofactor % G.q == 0)
  {
    hide Valid, Pow, AgreedElement, Implicit;
    AgreedExactly(option, G, s, u, s2, u2);
    PrimeOrder(G);
    var e, e2 := Implicit(G, s, u, Public(G, u)), Implicit(G, s2, u2, Public(G, u2));
    OrderExactly(G, SharedExponent(option, G, e, e2));
    SmallIsReduced(e, G.q);
    SmallIsReduced(e2, G.q);
    ZeroProduct(e, e2, G.q);
    PrimeInverse(G.cofactor, G.q);
    SmallIsReduced(InverseMod(G.cofactor, G.q), G.q);
    ZeroProduct(G.cofactor, InverseMod(G.cofactor, G.q), G.q);
    ZeroProduct(Product(e, e2), G.cofactor, G.q);
    ZeroProduct(Product(e, e2), Product(G.cofactor, InverseMod(G.cofactor, G.q)), G.q);
  }

  lemma ZeroProduct(a: nat, b: nat, q: nat)
    requires IsPrime(q)
    ensures Product(a, b) % q == 0 <==> a % q == 0 || b % q == 0
  {
    if a % q != 0 && b % q != 0 {
      PrimeProduct(a, b, q);
    } else if a % q == 0 {
      ModMul(a, b, q);
      ModUnique(0 * b, q, 0, 0);
    } else {
      ModMul(b, a, q);
      Commute(a, b);
      ModUnique(0 * a, q, 0, 0);
    }
  }

  // What two parties that exchange bytes agree on

  function StaticPublicKey<T>(G: Params<T>, privateKey: seq<byte>): seq<byte>
    requires |privateKey| >= PrivateLength(G)
  {
    G.encode(true, Public(G, BigEndian(privateKey[..PrivateLength(G)])))
  }

  function EphemeralPublicKey<T>(G: Params<T>, privateKey: seq<byte>): seq<byte>
    requires |privateKey| >= PrivateLength(G) + G.elementSize
  {
    privateKey[PrivateLength(G)..PrivateLength(G) + G.elementSize]
  }

  /** An ephemeral private key of bytes holds its exponent and its public key. */
  lemma EphemeralParts<T(!new)>(G: Params<T>, u: nat)
    requires Valid(G) && u <= G.maxExponent
    ensures var key, n := EphemeralPrivateKey(G, u), PrivateLength(G);
      |key| == n + G.elementSize && BigEndian(key[..n]) == u &&
      key[n..] == G.encode(true, Public(G, u)) && EphemeralPublicKey(G, key) == G.encode(true, Public(G, u))
  {
    hide Valid, Pow, BigEndian;
    Exponents(G);
    EncodedSize(G, Public(G, u));
    EncodeBack(u, G.q);
    var key, n := EphemeralPrivateKey(G, u), PrivateLength(G);
    assert key[..n] == Octets(u, n);
  }

  /** What a party computes from its own keys and the bytes of the other's public keys. */
  lemma AgreeOnBytes<T(!new)>(option: CofactorOption, G: Params<T>,
    staticA: seq<byte>, u: nat, staticB: seq<byte>, u2: nat, validate: bool)
    requires Valid(G) && G.q > 1 && u <= G.maxExponent && u2 <= G.maxExponent
    requires |staticA| == |staticB| == PrivateLength(G)
    ensures var ephA, ephB := EphemeralPrivateKey(G, u), EphemeralPrivateKey(G, u2);
      |ephA| == |ephB| == PrivateLength(G) + G.elementSize &&
      (Agree(option, G, staticA, ephA, StaticPublicKey(G, staticB), EphemeralPublicKey(G, ephB), validate)
       == if Refuses(G, staticB, u2, u, validate) then None
          else AgreedElement(option, G, BigEndian(staticA), u, Public(G, u),
               Public(G, BigEndian(staticB)), Public(G, u2)))
  {
    hide Valid, Pow, AgreedElement, BigEndian, EphemeralPrivateKey, EphemeralPublicKey, PrivateLength;
    Exponents(G);
    EphemeralParts(G, u);
    EphemeralParts(G, u2);
    var n := PrivateLength(G);
    assert staticA[..n] == staticA && staticB[..n] == staticB;
    DecodedPublic(G, BigEndian(staticB), validate);
    DecodedPublic(G, u2, true);
    DecodedPublic(G, u, false);
  }

  /** A decoder throws on one of the three keys that a party decodes. */
  predicate Refuses<T>(G: Params<T>, staticOther: seq<byte>, uOther: nat, uOwn: nat, validate: bool) {
    G.decode(G.encode(true, Public(G, BigEndian(staticOther))), validate).None? ||
    G.decode(G.encode(true, Public(G, uOther)), true).None? ||
    G.decode(G.encode(true, Public(G, uOwn)), false).None?
  }

  lemma Exponents<T(!new)>(G: Params<T>)
    requires Valid(G)
    ensures 0 < G.maxExponent < G.q
  {
  }

  lemma EncodedSize<T(!new)>(G: Params<T>, a: T)
    requires Valid(G)
    ensures |G.encode(true, a)| == G.elementSize && |G.encode(false, a)| == G.agreedSize
  {
    hide IsGroup, Encodes;
  }

  lemma DecodedPublic<T(!new)>(G: Params<T>, x: nat, check: bool)
    requires Valid(G)
    ensures var d := G.decode(G.encode(true, Public(G, x)), check); d == Some(Public(G, x)) || d == None
  {
    Generator(G);
    PowMember(G, G.g, x);
    hide IsGroup, Sized;
  }

  /** Main result: two parties that both succeed hold the same element, in every cofactor
      option; and if no decoder refuses a key, one succeeds exactly when the other does. */
  lemma PartiesAgree<T(!new)>(option: CofactorOption, G: Params<T>,
    staticA: seq<byte>, u: nat, staticB: seq<byte>, u2: nat, validate: bool)
    requires Valid(G) && G.q > 1 && u <= G.maxExponent && u2 <= G.maxExponent
    requires |staticA| == |staticB| == PrivateLength(G)
    ensures var ephA, ephB := EphemeralPrivateKey(G, u), EphemeralPrivateKey(G, u2);
      |ephA| == |ephB| == PrivateLength(G) + G.elementSize &&
      var forA := Agree(option, G, staticA, ephA, StaticPublicKey(G, staticB), EphemeralPublicKey(G, ephB), validate);
      var forB := Agree(option, G, staticB, ephB, StaticPublicKey(G, staticA), EphemeralPublicKey(G, ephA), validate);
      (forA.Some? && forB.Some? ==> forA == forB) &&
      (!Refuses(G, staticB, u2, u, validate) && !Refuses(G, staticA, u, u2, validate) ==> forA == forB)
  {
    hide Valid, Agree, AgreedElement, Refuses, Pow;
    AgreeOnBytes(option, G, staticA, u, staticB, u2, validate);
    AgreeOnBytes(option, G, staticB, u2, staticA, u, validate);
    BothAgree(option, G, BigEndian(staticA), u, BigEndian(staticB), u2);
  }

  // The operations, which write byte buffers

  /** `x` is the random exponent. The buffer then holds a number that decodes to it. */
  method GenerateStaticPrivateKey<T(!new)>(G: Params<T>, x: nat, privateKey: array<byte>)
    requires Valid(G) && 1 <= x <= G.maxExponent && privateKey.Length == PrivateLength(G)
    modifies privateKey
    ensures BigEndian(privateKey[..]) == x
  {
    hide Valid, Pow;
    Exponents(G);
    CopyInto(privateKey, 0, Octets(x, PrivateLength(G)));
    EncodeBack(x, G.q);
    assert privateKey[..] == Octets(x, PrivateLength(G));
  }

  method GenerateStaticPublicKey<T(!new)>(G: Params<T>, privateKey: seq<byte>, publicKey: array<byte>)
    requires Valid(G) && |privateKey| >= PrivateLength(G) && publicKey.Length == G.elementSize
    modifies publicKey
    ensures publicKey[..] == StaticPublicKey(G, privateKey)
  {
    hide Valid, Pow;
    var x := BigEndian(privateKey[..PrivateLength(G)]);
    var y := Pow(G, G.g, x);
    EncodedSize(G, y);
    CopyInto(publicKey, 0, G.encode(true, y));
    assert publicKey[..] == G.encode(true, y);
  }

  method GenerateEphemeralPrivateKey<T(!new)>(G: Params<T>, x: nat, privateKey: array<byte>)
    requires Valid(G) && 1 <= x <= G.maxExponent && privateKey.Length == PrivateLength(G) + G.elementSize
    modifies privateKey
    ensures privateKey[..] == EphemeralPrivateKey(G, x)
  {
    hide Valid, Pow;
    var n := PrivateLength(G);
    CopyInto(privateKey, 0, Octets(x, n));
    var y := Pow(G, G.g, x);
    EncodedSize(G, y);
    CopyInto(privateKey, n, G.encode(true, y));
    assert privateKey[..] == Octets(x, n) + G.encode(true, y);
  }

  method GenerateEphemeralPublicKey<T>(G: Params<T>, privateKey: seq<byte>, publicKey: array<byte>)
    requires |privateKey| >= PrivateLength(G) + G.elementSize && publicKey.Length == G.elementSize
    modifies publicKey
    ensures publicKey[..] == EphemeralPublicKey(G, privateKey)
  {
    CopyInto(publicKey, 0, privateKey[PrivateLength(G)..PrivateLength(G) + G.elementSize]);
    assert publicKey[..] == EphemeralPublicKey(G, privateKey);
  }

  method ComputeAgreed<T(==, !new)>(option: CofactorOption, G: Params<T>, agreedValue: array<byte>,
    staticPrivate: seq<byte>, ephemeralPrivate: seq<byte>, staticOther: seq<byte>, ephemeralOther: seq<byte>,
    validate: bool) returns (ok: bool)
    requires Valid(G) && G.q > 1 && agreedValue.Length == G.agreedSize
    requires |staticPrivate| >= PrivateLength(G) && |ephemeralPrivate| >= PrivateLength(G)
    modifies agreedValue
    ensures var v := Agree(option, G, staticPrivate, ephemeralPrivate, staticOther, ephemeralOther, validate);
      ok == v.Some? && agreedValue[..] == if v.Some? then G.encode(false, v.value) else old(agreedValue[..])
  {
    hide Valid, Pow, AgreedElement;
    var v := Agree(option, G, staticPrivate, ephemeralPrivate, staticOther, ephemeralOther, validate);
    if v.None? { return false; }
    EncodedSize(G, v.value);
    CopyInto(agreedValue, 0, G.encode(false, v.value));
    assert agreedValue[..] == G.encode(false, v.value);
    return true;
  }
}
