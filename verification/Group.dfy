/** The groups the discrete-log schemes work in: a cyclic subgroup of prime order. */
module Group {
  import opened Bytes
  import opened ModArith
  import opened Wrappers

  /** `DL_GroupParameters`: what the schemes ask of a group. `decode` gives nothing where
      `DecodeElement` throws; its flag asks for a membership test. */
  datatype Params<!T> = Params(
    q: nat, g: T, identity: T, cofactor: nat, maxExponent: nat, elementSize: nat, agreedSize: nat,
    member: T -> bool,
    mul: (T, T) -> T,
    toInteger: T -> nat,
    encode: (bool, T) -> seq<byte>,
    decode: (seq<byte>, bool) -> Option<T>)

  function Pow<T>(G: Params<T>, a: T, n: nat): T {
    if n == 0 then G.identity else G.mul(a, Pow(G, a, n - 1))
  }

  ghost predicate Closed<T(!new)>(G: Params<T>) {
    G.member(G.identity) && G.member(G.g) &&
    forall a, b {:trigger G.mul(a, b)} | G.member(a) && G.member(b) :: G.member(G.mul(a, b))
  }

  ghost predicate Associative<T(!new)>(G: Params<T>) {
    forall a, b, c {:trigger G.mul(G.mul(a, b), c)} | G.member(a) && G.member(b) && G.member(c) ::
      G.mul(G.mul(a, b), c) == G.mul(a, G.mul(b, c))
  }

  ghost predicate Neutral<T(!new)>(G: Params<T>) {
    forall a {:trigger G.mul(G.identity, a)} {:trigger G.mul(a, G.identity)} | G.member(a) ::
      G.mul(G.identity, a) == a && G.mul(a, G.identity) == a
  }

  /** Elements that are encoded reversibly decode to themselves, if they decode. */
  ghost predicate Encodes<T(!new)>(G: Params<T>) {
    forall a, check {:trigger G.decode(G.encode(true, a), check)} | G.member(a) ::
      G.decode(G.encode(true, a), check) == Some(a) || G.decode(G.encode(true, a), check) == None
  }

  ghost predicate Sized<T(!new)>(G: Params<T>) {
    forall reversible, a :: |G.encode(reversible, a)| == if reversible then G.elementSize else G.agreedSize
  }

  ghost predicate Valid<T(!new)>(G: Params<T>) {
    IsGroup(G) && Encodes(G) && Sized(G) && G.g != G.identity &&
    IsPrime(G.q) && Pow(G, G.g, G.q) == G.identity && 0 < G.maxExponent < G.q
  }

  ghost predicate IsGroup<T(!new)>(G: Params<T>) {
    Closed(G) && Associative(G) && Neutral(G)
  }

  lemma Close<T(!new)>(G: Params<T>, a: T, b: T)
    requires IsGroup(G) && G.member(a) && G.member(b)
    ensures G.member(G.mul(a, b)) && G.member(G.identity) && G.mul(G.identity, a) == a && G.mul(a, G.identity) == a
  {
    hide Associative;
  }

  lemma Associate<T(!new)>(G: Params<T>, a: T, b: T, c: T)
    requires IsGroup(G) && G.member(a) && G.member(b) && G.member(c)
    ensures G.mul(G.mul(a, b), c) == G.mul(a, G.mul(b, c))
  {
    hide Closed, Neutral;
  }

  lemma {:induction false} PowMember<T(!new)>(G: Params<T>, a: T, n: nat)
    requires IsGroup(G) && G.member(a)
    ensures G.member(Pow(G, a, n))
  {
    hide IsGroup;
    Close(G, a, a);
    if n > 0 {
      PowMember(G, a, n - 1);
      Close(G, a, Pow(G, a, n - 1));
    }
  }

  lemma {:induction false} PowAdd<T(!new)>(G: Params<T>, a: T, m: nat, n: nat)
    requires IsGroup(G) && G.member(a)
    ensures Pow(G, a, m + n) == G.mul(Pow(G, a, m), Pow(G, a, n))
  {
    hide IsGroup;
    PowMember(G, a, n);
    if m > 0 {
      PowMember(G, a, m - 1);
      PowAdd(G, a, m - 1, n);
      Associate(G, a, Pow(G, a, m - 1), Pow(G, a, n));
    } else {
      Close(G, Pow(G, a, n), a);
    }
  }

  lemma {:induction false} PowMul<T(!new)>(G: Params<T>, a: T, m: nat, n: nat)
    requires IsGroup(G) && G.member(a)
    ensures 0 <= m * n
    ensures Pow(G, Pow(G, a, m), n) == Pow(G, a, m * n)
    decreases n
  {
    hide IsGroup;
    if n > 0 {
      ProductStep(m, n);
      PowMul(G, a, m, n - 1);
      PowAdd(G, a, m, m * (n - 1));
    } else {
      assert m * 0 == 0;
    }
  }

  lemma ProductStep(m: nat, n: nat)
    requires n > 0
    ensures m * n == m + m * (n - 1) && 0 <= m * (n - 1)
  {
  }

  lemma {:induction false} PowIdentity<T(!new)>(G: Params<T>, n: nat)
    requires IsGroup(G) && G.member(G.identity)
    ensures Pow(G, G.identity, n) == G.identity
  {
    hide IsGroup;
    Close(G, G.identity, G.identity);
    if n > 0 { PowIdentity(G, n - 1); }
  }

  lemma Generator<T(!new)>(G: Params<T>)
    requires Valid(G)
    ensures G.member(G.g) && G.member(G.identity) && IsGroup(G) && G.q > 1 && Pow(G, G.g, G.q) == G.identity
  {
    hide Associative, Neutral, Encodes, Sized;
  }

  lemma PrimeOrder<T(!new)>(G: Params<T>)
    requires Valid(G)
    ensures IsPrime(G.q)
  {
  }

  /** Exponents of the generator count modulo q. */
  lemma PowReduce<T(!new)>(G: Params<T>, n: nat)
    requires Valid(G)
    ensures G.q > 0 && Pow(G, G.g, n) == Pow(G, G.g, n % G.q)
  {
    hide Valid, IsGroup;
    Generator(G);
    var k, r := n / G.q, n % G.q;
    QuotientRemainder(n, G.q);
    Commute(k, G.q);
    PowMul(G, G.g, G.q, k);
    PowIdentity(G, k);
    PowAdd(G, G.g, G.q * k, r);
    PowMember(G, G.g, r);
    Close(G, Pow(G, G.g, r), G.g);
  }

  lemma SameExponent<T(!new)>(G: Params<T>, m: nat, n: nat)
    requires Valid(G) && G.q > 0 && Same(m, n, G.q)
    ensures Pow(G, G.g, m) == Pow(G, G.g, n)
  {
    hide Valid;
    PowReduce(G, m);
    PowReduce(G, n);
  }

  /** `CascadeExponentiate` on two powers of the generator. */
  lemma Cascade<T(!new)>(G: Params<T>, x: nat, m: nat, n: nat)
    requires Valid(G)
    ensures 0 <= x * n
    ensures G.mul(Pow(G, G.g, m), Pow(G, Pow(G, G.g, x), n)) == Pow(G, G.g, m + x * n)
  {
    hide Valid, IsGroup;
    Generator(G);
    PowMul(G, G.g, x, n);
    PowAdd(G, G.g, m, x * n);
  }

  /** The generator has order exactly q. */
  lemma OrderExactly<T(!new)>(G: Params<T>, n: nat)
    requires Valid(G) && G.q > 0
    ensures Pow(G, G.g, n) == G.identity <==> n % G.q == 0
  {
    PowReduce(G, n);
    if n % G.q == 0 {
      assert Pow(G, G.g, 0) == G.identity;
    } else {
      NotIdentity(G, n);
    }
  }

  lemma NotIdentity<T(!new)>(G: Params<T>, n: nat)
    requires Valid(G) && G.q > 0 && n % G.q != 0
    ensures Pow(G, G.g, n) != G.identity
  {
    var i := InverseMod(n, G.q);
    PrimeInverse(n, G.q);
    InverseWorks(n, G.q);
    hide Valid, IsGroup;
    Generator(G);
    PowMul(G, G.g, n, i);
    PowReduce(G, n * i);
    PowIdentity(G, i);
    PowOne(G);
  }

  lemma PowOne<T(!new)>(G: Params<T>)
    requires Valid(G)
    ensures Pow(G, G.g, 1) == G.g && G.g != G.identity
  {
    Generator(G);
    assert Pow(G, G.g, 1) == G.mul(G.g, Pow(G, G.g, 0));
    Close(G, G.g, G.g);
  }

  // Cofactors

  datatype CofactorOption = NoCofactor | Compatible | Incompatible

  lemma Times(a: nat, b: nat)
    ensures 0 <= a * b
  {
  }

  function Product(a: nat, b: nat): (p: nat)
    ensures p == a * b
  {
    Times(a, b);
    a * b
  }

  /** `ModularArithmetic(r).Divide`. */
  function Divide(a: nat, b: nat, q: nat): (r: nat)
    requires q > 1
    ensures r < q
  {
    Product(a, InverseMod(b, q)) % q
  }

  // Sizes and encodings of numbers

  function ByteCount(n: nat): (c: nat) {
    if n == 0 then 0 else 1 + ByteCount(n / 256)
  }

  function BitCount(n: nat): (c: nat) {
    if n == 0 then 0 else 1 + BitCount(n / 2)
  }

  /** The least number of bytes that hold n. */
  lemma {:induction false} ByteCountExact(n: nat)
    ensures n < Pow256(ByteCount(n))
    ensures n > 0 ==> ByteCount(n) > 0 && Pow256(ByteCount(n) - 1) <= n
  {
    if n > 0 { ByteCountExact(n / 256); }
  }

  /** The least number of bits that hold n. */
  lemma {:induction false} BitCountExact(n: nat)
    ensures n < Power2(BitCount(n))
    ensures n > 0 ==> BitCount(n) > 0 && Power2(BitCount(n) - 1) <= n
  {
    if n > 0 { BitCountExact(n / 2); }
  }

  lemma {:induction false} Power2Sum(a: nat, b: nat)
    ensures Power2(a + b) == Power2(a) * Power2(b)
    decreases a
  {
    if a > 0 {
      Power2Sum(a - 1, b);
      Reassociate(2, Power2(a - 1), Power2(b));
    }
  }

  lemma {:induction false} Power2Monotone(a: nat, b: nat)
    requires a <= b
    ensures Power2(a) <= Power2(b)
    decreases b
  {
    if a < b { Power2Monotone(a, b - 1); }
  }

  /** A number below q survives `Encode` in as many bytes as q has. */
  lemma EncodeBack(n: nat, q: nat)
    requires n < q
    ensures BigEndian(Octets(n, ByteCount(q))) == n
  {
    ByteCountExact(q);
    OctetsBigEndian(n, ByteCount(q));
  }

  // Integers modulo a prime

  /** `DL_GroupParameters_GFP`, up to its decoder. */
  function Gfp(p: nat, q: nat, g: nat, maxExponent: nat, decode: (seq<byte>, bool) -> Option<nat>): Params<nat>
    requires p > 0 && q > 0
  {
    Params(q, g, 1, (p - 1) / q, maxExponent, ByteCount(p), ByteCount(p),
      a => 0 < a < p, (a, b) => ReducedProduct(a, b, p), a => a, (_, a) => Octets(a, ByteCount(p)), decode)
  }

  function ReducedProduct(a: nat, b: nat, p: nat): (r: nat)
    requires p > 0
    ensures r < p
  {
    Nonnegative(a, b);
    a * b % p
  }

  lemma Nonnegative(a: nat, b: nat)
    ensures a * b >= 0
  {
  }

  /** Modulo a prime the products of non-zero residues form a group, so a generator of prime
      order makes valid parameters. */
  lemma GfpIsValid(p: nat, q: nat, g: nat, maxExponent: nat, decode: (seq<byte>, bool) -> Option<nat>)
    requires IsPrime(p) && IsPrime(q) && 1 < g < p && 0 < maxExponent < q
    requires Pow(Gfp(p, q, g, maxExponent, decode), g, q) == 1
    requires forall a: nat, check | 0 < a < p ::
      var bytes := Octets(a, ByteCount(p)); decode(bytes, check) == Some(a) || decode(bytes, check) == None
    ensures Valid(Gfp(p, q, g, maxExponent, decode))
  {
    hide IsPrime;
    var G := Gfp(p, q, g, maxExponent, decode);
    PrimeAboveOne(p);
    GfpIsGroup(p, q, g, maxExponent, decode);
    assert Encodes(G) && Sized(G);
  }

  lemma GfpIsGroup(p: nat, q: nat, g: nat, maxExponent: nat, decode: (seq<byte>, bool) -> Option<nat>)
    requires IsPrime(p) && q > 0 && 0 < g < p
    ensures IsGroup(Gfp(p, q, g, maxExponent, decode))
  {
    hide IsPrime, ReducedProduct;
    var G := Gfp(p, q, g, maxExponent, decode);
    PrimeAboveOne(p);
    assert Closed(G) by {
      forall a, b | G.member(a) && G.member(b) ensures G.member(G.mul(a, b)) { ResidueProduct(a, b, p); }
    }
    assert Associative(G) by {
      forall a, b, c | G.member(a) && G.member(b) && G.member(c)
        ensures G.mul(G.mul(a, b), c) == G.mul(a, G.mul(b, c))
      {
        ResidueAssociative(a, b, c, p);
      }
    }
    assert Neutral(G) by {
      forall a | G.member(a) ensures G.mul(1, a) == a && G.mul(a, 1) == a { ResidueOne(a, p); }
    }
  }

  lemma ResidueOne(a: nat, p: nat)
    requires a < p
    ensures ReducedProduct(1, a, p) == a && ReducedProduct(a, 1, p) == a
  {
    SmallIsReduced(a, p);
  }

  lemma PrimeAboveOne(p: nat)
    requires IsPrime(p)
    ensures p > 1
  {
  }

  lemma ResidueProduct(a: nat, b: nat, p: nat)
    requires IsPrime(p) && 0 < a < p && 0 < b < p
    ensures 0 < ReducedProduct(a, b, p)
  {
    SmallIsReduced(a, p);
    SmallIsReduced(b, p);
    PrimeProduct(a, b, p);
  }

  lemma ResidueAssociative(a: nat, b: nat, c: nat, p: nat)
    requires p > 0
    ensures ReducedProduct(ReducedProduct(a, b, p), c, p) == ReducedProduct(a, ReducedProduct(b, c, p), p)
  {
    ModMul(a * b, c, p);
    ModMul(b * c, a, p);
    Commute(a, b * c % p);
    Commute(a, b * c);
    Reassociate(a, b, c);
  }

  /** There are such parameters: the subgroup of order 3 modulo 7. */
  lemma SmallGroup()
    ensures Valid(Gfp(7, 3, 2, 2, (s, _) => Some(BigEndian(s))))
  {
    var decode := (s, _) => Some(BigEndian(s));
    var G := Gfp(7, 3, 2, 2, decode);
    forall a: nat, check | 0 < a < 7
      ensures var bytes := Octets(a, ByteCount(7)); decode(bytes, check) == Some(a) || decode(bytes, check) == None
    {
      EncodeBack(a, 7);
    }
    assert Pow(G, 2, 0) == 1;
    assert Pow(G, 2, 1) == 2;
    assert Pow(G, 2, 2) == 4;
    assert Pow(G, 2, 3) == 1;
    GfpIsValid(7, 3, 2, 2, decode);
  }
}
