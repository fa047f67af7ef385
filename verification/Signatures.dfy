/** Discrete-log signatures, after section 4 of FIPS 186-3 (GDSA) and Nyberg-Rueppel (NR). */
module Signatures {
  import opened Bytes
  import opened ModArith
  import opened Group
  import opened Wrappers

  datatype Scheme = Gdsa | Nr

  /** `MakePublicKey`. */
  function PublicElement<T>(G: Params<T>, x: nat): T {
    Pow(G, G.g, x)
  }

  /** `CascadeExponentiateBaseAndPublicElement`. */
  function CascadeBaseAndPublic<T>(G: Params<T>, y: T, baseExp: nat, publicExp: nat): T {
    G.mul(Pow(G, G.g, baseExp), Pow(G, y, publicExp))
  }

  /** The r and s that the private key `x` and the nonce `k` give the representative `e`. */
  function Signed<T>(scheme: Scheme, G: Params<T>, x: nat, k: nat, e: nat): (sig: (nat, nat))
    requires G.q > 1
    ensures sig.0 < G.q && sig.1 < G.q
  {
    var c := G.toInteger(Pow(G, G.g, k));
    match scheme
    case Gdsa =>
      var r := c % G.q;
      (r, InverseMod(k, G.q) * (x * r + e) % G.q)
    case Nr =>
      var r := (c + e) % G.q;
      (r, (k - x * r) % G.q)
  }

  function Verify<T>(scheme: Scheme, G: Params<T>, y: T, e: nat, r: nat, s: nat): bool
    requires G.q > 1
  {
    match scheme
    case Gdsa =>
      if r >= G.q || r < 1 || s >= G.q || s < 1 then false
      else
        var w := InverseMod(s, G.q);
        var u1, u2 := Reduce(e, w, G.q), Reduce(r, w, G.q);
        r == G.toInteger(CascadeBaseAndPublic(G, y, u1, u2)) % G.q
    case Nr =>
      if r >= G.q || r < 1 || s >= G.q then false
      else r == (G.toInteger(CascadeBaseAndPublic(G, y, s, r)) + e) % G.q
  }

  function Reduce(a: int, b: int, q: nat): (r: nat)
    requires q > 0
    ensures r < q
  {
    a * b % q
  }

  lemma Regroup(a: int, b: int, c: int)
    ensures a * b * c == a * c * b && a * b * c == (b * a) * c && a * b * c == b * c * a
  {
    Swap(a, b, c);
    Commute(a, b);
    Reassociate(a, b, c);
    Commute(a, b * c);
  }

  /** Where s comes from: s k is x r + e modulo q, for an invertible nonce. */
  lemma NonceTimesS(k: nat, m: int, q: nat)
    requires q > 1 && InverseMod(k, q) != 0
    ensures Same(Reduce(InverseMod(k, q), m, q) * k, m, q)
  {
    var i := InverseMod(k, q);
    InverseWorks(k, q);
    hide InverseMod;
    var s := Reduce(i, m, q);
    SameReduced(i * m, q);
    SameProduct(s, i * m, k, q);
    ModUnique(1, q, 0, 1);
    SameProduct(k * i, 1, m, q);
    Regroup(i, m, k);
    Regroup(k, i, m);
  }

  /** Without one s is 0. */
  lemma NoInverseNoS(k: nat, m: int, q: nat)
    requires q > 1
    ensures InverseMod(k, q) == 0 ==> Reduce(InverseMod(k, q), m, q) == 0
  {
    if InverseMod(k, q) == 0 { ModUnique(InverseMod(k, q) * m, q, 0, 0); }
  }

  /** The exponents that verification computes add up to the nonce. */
  lemma GdsaExponents(x: nat, k: nat, e: nat, r: nat, s: nat, q: nat)
    requires IsPrime(q) && 0 < s < q && s == Reduce(InverseMod(k, q), x * r + e, q)
    ensures var w := InverseMod(s, q); Same(Reduce(e, w, q) + x * Reduce(r, w, q), k, q)
  {
    hide IsPrime, Reduce, Same;
    var m, w := x * r + e, InverseMod(s, q);
    NoInverseNoS(k, m, q);
    NonceTimesS(k, m, q);
    AcceptedExponents(x, k, e, r, s, q);
  }

  /** A GDSA s is 0 exactly when the nonce is a multiple of q or x r + e is. */
  lemma ZeroSExactly<T(!new)>(G: Params<T>, x: nat, k: nat, e: nat)
    requires Valid(G) && G.q > 1
    ensures var (r, s) := Signed(Gdsa, G, x, k, e);
      s == 0 <==> k % G.q == 0 || (x * r + e) % G.q == 0
  {
    hide Valid, Pow;
    PrimeOrder(G);
    hide IsPrime;
    var q, i := G.q, InverseMod(k, G.q);
    var r := Signed(Gdsa, G, x, k, e).0;
    var m := x * r + e;
    PrimeInverse(k, q);
    if i == 0 {
      ModUnique(i * m, q, 0, 0);
    } else if m % q == 0 {
      ModMul(m, i, q);
      Commute(m, i);
      ModUnique(0 * i, q, 0, 0);
    } else {
      SmallIsReduced(i, q);
      PrimeProduct(i, m, q);
    }
  }

  lemma SIsInvertible(s: nat, q: nat)
    requires IsPrime(q) && 0 < s < q
    ensures Same(s * InverseMod(s, q), 1, q)
  {
    SmallIsReduced(s, q);
    PrimeInverse(s, q);
    InverseWorks(s, q);
    ModUnique(1, q, 0, 1);
  }

  lemma SameChain(a: int, b: int, c: int, d: int, n: nat)
    requires n > 0 && Same(a, b, n) && Same(c, b, n) && Same(c, 1 * d, n)
    ensures Same(a, d, n)
  {
  }

  lemma CombineExponents(x: nat, e: nat, r: nat, w: nat, q: nat)
    requires q > 0
    ensures Same(Reduce(e, w, q) + x * Reduce(r, w, q), (x * r + e) * w, q)
  {
    var u1, u2 := Reduce(e, w, q), Reduce(r, w, q);
    SameReduced(e * w, q);
    SameReduced(r * w, q);
    SameProduct(u2, r * w, x, q);
    SameSum(u1, e * w, x * u2, q);
    SameSum(u2 * x, r * w * x, e * w, q);
    Commute(u2, x);
    Regroup(r, w, x);
    assert r * x * w == x * r * w by { Regroup(r, x, w); }
    assert e * w + x * r * w == (x * r + e) * w by { Distribute(x * r, 1, e, w); }
  }

  lemma NrExponents(x: nat, k: nat, r: nat, q: nat)
    requires q > 0
    ensures Same((k - x * r) % q + x * r, k, q)
  {
    ModAdd(k - x * r, x * r, q);
  }

  /** Main result: `Verify` accepts what `RawSign` computes exactly when r is not 0 and, for
      GDSA, s is not 0, for every key, nonce and representative. */
  lemma SignedVerifies<T(!new)>(scheme: Scheme, G: Params<T>, x: nat, k: nat, e: nat)
    requires Valid(G) && G.q > 1
    ensures var (r, s) := Signed(scheme, G, x, k, e);
      Verify(scheme, G, PublicElement(G, x), e, r, s) <==> r != 0 && (scheme.Gdsa? ==> s != 0)
  {
    hide Valid;
    var (r, s) := Signed(scheme, G, x, k, e);
    if r != 0 && (scheme.Gdsa? ==> s != 0) {
      match scheme
      case Gdsa => GdsaVerifies(G, x, k, e);
      case Nr => NrVerifies(G, x, k, e);
    }
  }

  lemma GdsaVerifies<T(!new)>(G: Params<T>, x: nat, k: nat, e: nat)
    requires Valid(G) && G.q > 1
    requires Signed(Gdsa, G, x, k, e).0 != 0 && Signed(Gdsa, G, x, k, e).1 != 0
    ensures var (r, s) := Signed(Gdsa, G, x, k, e); Verify(Gdsa, G, PublicElement(G, x), e, r, s)
  {
    hide Valid, Pow;
    var (r, s) := Signed(Gdsa, G, x, k, e);
    PrimeOrder(G);
    GdsaExponents(x, k, e, r, s, G.q);
    var w := InverseMod(s, G.q);
    var u1, u2 := Reduce(e, w, G.q), Reduce(r, w, G.q);
    Cascade(G, x, u1, u2);
    SameExponent(G, u1 + x * u2, k);
  }

  lemma NrVerifies<T(!new)>(G: Params<T>, x: nat, k: nat, e: nat)
    requires Valid(G) && G.q > 1 && Signed(Nr, G, x, k, e).0 != 0
    ensures var (r, s) := Signed(Nr, G, x, k, e); Verify(Nr, G, PublicElement(G, x), e, r, s)
  {
    hide Valid, Pow, InverseMod, Same;
    var (r, s) := Signed(Nr, G, x, k, e);
    NrExponents(x, k, r, G.q);
    Cascade(G, x, s, r);
    SameExponent(G, s + x * r, k);
  }

  /** Main result: what `Verify` accepts. Any r and s in range stand for a nonce, the k with
      s k = x r + e (for NR, s + x r = k); they are accepted exactly when r is what that nonce's
      element gives, so forged pairs are rejected unless they hit it. */
  lemma VerifiesExactly<T(!new)>(scheme: Scheme, G: Params<T>, x: nat, k: nat, e: nat, r: nat, s: nat)
    requires Valid(G) && G.q > 1 && 0 < r < G.q && s < G.q
    requires scheme.Gdsa? ==> 0 < s && Same(s * k, x * r + e, G.q)
    requires scheme.Nr? ==> Same(s + x * r, k, G.q)
    ensures var c := G.toInteger(Pow(G, G.g, k));
      Verify(scheme, G, PublicElement(G, x), e, r, s)
      <==> r == (if scheme.Gdsa? then c else c + e) % G.q
  {
    hide Valid, Pow, Same;
    match scheme
    case Gdsa =>
      PrimeOrder(G);
      AcceptedExponents(x, k, e, r, s, G.q);
      var w := InverseMod(s, G.q);
      var u1, u2 := Reduce(e, w, G.q), Reduce(r, w, G.q);
      Cascade(G, x, u1, u2);
      SameExponent(G, u1 + x * u2, k);
    case Nr =>
      Cascade(G, x, s, r);
      SameExponent(G, s + x * r, k);
  }

  lemma AcceptedExponents(x: nat, k: nat, e: nat, r: nat, s: nat, q: nat)
    requires IsPrime(q) && 0 < s < q && Same(s * k, x * r + e, q)
    ensures var w := InverseMod(s, q); Same(Reduce(e, w, q) + x * Reduce(r, w, q), k, q)
  {
    hide IsPrime, Reduce, Same;
    var m, w := x * r + e, InverseMod(s, q);
    SIsInvertible(s, q);
    SameProduct(s * k, m, w, q);
    SameProduct(s * w, 1, k, q);
    Regroup(s, k, w);
    CombineExponents(x, e, r, w, q);
    SameChain(Reduce(e, w, q) + x * Reduce(r, w, q), m * w, s * w * k, k, q);
  }

  /** Outside the range nothing is accepted. */
  lemma OutOfRange<T>(scheme: Scheme, G: Params<T>, y: T, e: nat, r: nat, s: nat)
    requires G.q > 1 && (r == 0 || r >= G.q || s >= G.q || (scheme.Gdsa? && s == 0))
    ensures !Verify(scheme, G, y, e, r, s)
  {
  }

  /** An NR signature is accepted for one representative only, counted modulo q. */
  lemma NrBindsRepresentative<T>(G: Params<T>, y: T, e: nat, f: nat, r: nat, s: nat)
    requires G.q > 1 && Verify(Nr, G, y, e, r, s)
    ensures Verify(Nr, G, y, f, r, s) <==> Same(e, f, G.q)
  {
    var c := G.toInteger(CascadeBaseAndPublic(G, y, s, r));
    if Same(e, f, G.q) {
      SameSum(e, f, c, G.q);
    } else if (c + f) % G.q == r {
      SameSum(c + e, c + f, -c, G.q);
    }
  }

  /** So modulo 7 with the key 1, r = s = 1 is no signature for the representative 0. */
  lemma PairRejected()
    ensures !Verify(Gdsa, Gfp(7, 3, 2, 2, (s, _) => Some(BigEndian(s))), 2, 0, 1, 1)
  {
    var G := Gfp(7, 3, 2, 2, (s, _) => Some(BigEndian(s)));
    SmallGroup();
    assert Pow(G, 2, 1) == 2 by { assert Pow(G, 2, 0) == 1; }
    hide Valid, Pow, Verify;
    VerifiesExactly(Gdsa, G, 1, 1, 0, 1, 1);
  }

  // Signatures as bytes

  /** r and s, each in as many bytes as the subgroup order has. */
  function SignatureBytes<T>(G: Params<T>, r: nat, s: nat): (bytes: seq<byte>) {
    var n := ByteCount(G.q);
    Octets(r, n) + Octets(s, n)
  }

  /** r comes first, then s, both most significant byte first. */
  lemma SignatureLayout<T>(G: Params<T>, r: nat, s: nat)
    requires r < G.q && s < G.q
    ensures var bytes, n := SignatureBytes(G, r, s), ByteCount(G.q);
      |bytes| == 2 * n && BigEndian(bytes[..n]) == r && BigEndian(bytes[n..]) == s
  {
    var n := ByteCount(G.q);
    EncodeBack(r, G.q);
    EncodeBack(s, G.q);
    assert SignatureBytes(G, r, s)[..n] == Octets(r, n) && SignatureBytes(G, r, s)[n..] == Octets(s, n);
  }

  function VerifyBytes<T>(scheme: Scheme, G: Params<T>, y: T, e: nat, bytes: seq<byte>): bool
    requires G.q > 1 && |bytes| == 2 * ByteCount(G.q)
  {
    var n := ByteCount(G.q);
    Verify(scheme, G, y, e, BigEndian(bytes[..n]), BigEndian(bytes[n..]))
  }

  /** The byte form of a signature is accepted exactly when the numbers are. */
  lemma BytesVerify<T(!new)>(scheme: Scheme, G: Params<T>, x: nat, k: nat, e: nat)
    requires Valid(G) && G.q > 1
    ensures var (r, s) := Signed(scheme, G, x, k, e);
      VerifyBytes(scheme, G, PublicElement(G, x), e, SignatureBytes(G, r, s))
      <==> r != 0 && (scheme.Gdsa? ==> s != 0)
  {
    hide Valid, Verify, Signed, SignatureBytes;
    var (r, s) := Signed(scheme, G, x, k, e);
    SignedVerifies(scheme, G, x, k, e);
    SignedBelowOrder(scheme, G, x, k, e);
    SignatureLayout(G, r, s);
  }

  lemma SignedBelowOrder<T>(scheme: Scheme, G: Params<T>, x: nat, k: nat, e: nat)
    requires G.q > 1
    ensures Signed(scheme, G, x, k, e).0 < G.q && Signed(scheme, G, x, k, e).1 < G.q
  {
  }

  // The algorithms, which assign r and s

  /** `r` comes in as the converted element. The pair that goes out solves the scheme's signing
      equation for the private key, and if the element was the nonce's, `Verify` accepts it. */
  method Sign<T(!new)>(scheme: Scheme, G: Params<T>, x: nat, k: nat, e: nat, r0: nat) returns (r: nat, s: nat)
    requires Valid(G) && G.q > 1
    ensures r < G.q && s < G.q
    ensures scheme.Gdsa? ==> Same(r, r0, G.q) && if k % G.q == 0 then s == 0 else Same(s * k, x * r + e, G.q)
    ensures scheme.Nr? ==> Same(r, r0 + e, G.q) && Same(s + x * r, k, G.q)
    ensures r0 == G.toInteger(Pow(G, G.g, k)) ==>
      (r, s) == Signed(scheme, G, x, k, e) &&
      (Verify(scheme, G, PublicElement(G, x), e, r, s) <==> r != 0 && (scheme.Gdsa? ==> s != 0))
  {
    hide Valid, Verify;
    SignedVerifies(scheme, G, x, k, e);
    match scheme
    case Gdsa =>
      r := r0 % G.q;
      var kInv := InverseMod(k, G.q);
      s := kInv * (x * r + e) % G.q;
      GdsaEquation(G, x, k, e, r0);
    case Nr =>
      r := (r0 + e) % G.q;
      s := (k - x * r) % G.q;
      SameReduced(r0 + e, G.q);
      NrExponents(x, k, r, G.q);
  }

  lemma GdsaEquation<T(!new)>(G: Params<T>, x: nat, k: nat, e: nat, r0: nat)
    requires Valid(G) && G.q > 1
    ensures var q, r := G.q, r0 % G.q;
      var s := Reduce(InverseMod(k, q), x * r + e, q);
      Same(r, r0, q) && if k % q == 0 then s == 0 else Same(s * k, x * r + e, q)
  {
    hide Valid;
    PrimeOrder(G);
    hide IsPrime;
    SameReduced(r0, G.q);
    PrimeInverse(k, G.q);
    NoInverseNoS(k, x * (r0 % G.q) + e, G.q);
    if k % G.q != 0 { NonceTimesS(k, x * (r0 % G.q) + e, G.q); }
  }

  /** What is signed verifies, unless a zero came out. */
  method RawSign<T(!new)>(scheme: Scheme, G: Params<T>, x: nat, k: nat, e: nat) returns (r: nat, s: nat)
    requires Valid(G) && G.q > 1
    ensures (r, s) == Signed(scheme, G, x, k, e)
    ensures Verify(scheme, G, PublicElement(G, x), e, r, s) <==> r != 0 && (scheme.Gdsa? ==> s != 0)
  {
    hide Valid, Verify;
    r := G.toInteger(Pow(G, G.g, k));
    r, s := Sign(scheme, G, x, k, e, r);
  }
}
