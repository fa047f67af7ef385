/** ElGamal encryption over the integers modulo a prime, with its non-standard padding. */
module ElGamal {
  import opened Bytes
  import opened ModArith
  import opened Group
  import opened Wrappers

  // Diffie-Hellman agreement

  function AgreeWithEphemeral<T>(option: CofactorOption, G: Params<T>, y: T, x: nat): T {
    Pow(G, y, if option.Incompatible? then Product(x, G.cofactor) else x)
  }

  /** `fast`: a fast subgroup check is available; `accepted`: it accepts the element. */
  function AgreeWithStatic<T(==)>(option: CofactorOption, G: Params<T>, z: T, x: nat,
    validate: bool, fast: bool, accepted: bool): Option<T>
    requires G.q > 1
  {
    match option
    case Compatible => Some(Pow(G, z, Product(Divide(x, G.cofactor, G.q), G.cofactor)))
    case Incompatible => Some(Pow(G, z, Product(x, G.cofactor)))
    case NoCofactor =>
      if validate && (if fast then !accepted else Pow(G, z, G.q) != G.identity) then None
      else Some(Pow(G, z, x))
  }

  /** What the holder of the static key answers to any element: with validation and without a
      cofactor, nothing exactly if the fast check refuses it or, without one, its order does not
      divide q; otherwise the power of it. */
  lemma StaticExactly<T>(G: Params<T>, z: T, x: nat, validate: bool, fast: bool, accepted: bool)
    requires G.q > 1
    ensures AgreeWithStatic(NoCofactor, G, z, x, validate, fast, accepted)
         == if validate && ((fast && !accepted) || (!fast && Pow(G, z, G.q) != G.identity)) then None
            else Some(Pow(G, z, x))
  {
  }

  /** What the holder of the ephemeral key computes: the generator to both exponents. */
  lemma EphemeralExactly<T(!new)>(option: CofactorOption, G: Params<T>, x: nat, u: nat)
    requires Valid(G)
    ensures AgreeWithEphemeral(option, G, Pow(G, G.g, x), u)
         == Pow(G, G.g, Product(x, if option.Incompatible? then Product(u, G.cofactor) else u))
  {
    hide Valid, Pow, IsGroup;
    Generator(G);
    PowMul(G, G.g, x, if option.Incompatible? then Product(u, G.cofactor) else u);
  }

  /** The two sides of an agreement get the same element exactly when no fast check refuses the
      ephemeral key without cofactor, and, with a compatible cofactor, unless the cofactor is a
      multiple of the subgroup order while the shared exponent is not. */
  lemma AgreementExactly<T(!new)>(option: CofactorOption, G: Params<T>, x: nat, u: nat,
    validate: bool, fast: bool, accepted: bool)
    requires Valid(G) && G.q > 1
    ensures AgreeWithStatic(option, G, Pow(G, G.g, u), x, validate, fast, accepted)
         == Some(AgreeWithEphemeral(option, G, Pow(G, G.g, x), u))
       <==> match option
            case NoCofactor => !validate || !fast || accepted
            case Compatible => G.cofactor % G.q != 0 || Product(x, u) % G.q == 0
            case Incompatible => true
  {
    hide Valid, Pow, IsGroup;
    Generator(G);
    match option
    case NoCofactor =>
      PowMul(G, G.g, u, x);
      PowMul(G, G.g, x, u);
      Commute(x, u);
      PowMul(G, G.g, u, G.q);
      ModUnique(u * G.q, G.q, u, 0);
      OrderExactly(G, u * G.q);
    case Incompatible =>
      var k := G.cofactor;
      PowMul(G, G.g, u, Product(x, k));
      PowMul(G, G.g, x, Product(u, k));
      assert u * (x * k) == x * (u * k) by { Reassociate(u, x, k); Commute(u, x); Reassociate(x, u, k); }
    case Compatible =>
      CompatibleAgreement(G, x, u);
  }

  /** The last exception is real: the subgroup of order 3 modulo 19 has the cofactor 6. */
  lemma CompatibleCanFail()
    ensures var G := Gfp(19, 3, 7, 2, (s, _) => Some(BigEndian(s)));
      Valid(G) && G.cofactor % G.q == 0 &&
      AgreeWithStatic(Compatible, G, Pow(G, G.g, 1), 1, true, false, true)
        != Some(AgreeWithEphemeral(Compatible, G, Pow(G, G.g, 1), 1))
  {
    var G := Gfp(19, 3, 7, 2, (s, _) => Some(BigEndian(s)));
    ModuloNineteen();
    hide Valid, Pow;
    AgreementExactly(Compatible, G, 1, 1, true, false, true);
  }

  lemma ModuloNineteen()
    ensures Valid(Gfp(19, 3, 7, 2, (s, _) => Some(BigEndian(s))))
  {
    var decode := (s, _) => Some(BigEndian(s));
    var G := Gfp(19, 3, 7, 2, decode);
    forall a: nat, check | 0 < a < 19
      ensures var bytes := Octets(a, ByteCount(19)); decode(bytes, check) == Some(a) || decode(bytes, check) == None
    {
      EncodeBack(a, 19);
    }
    assert Pow(G, 7, 0) == 1;
    assert Pow(G, 7, 1) == 7;
    assert Pow(G, 7, 2) == 11;
    assert Pow(G, 7, 3) == 1;
    GfpIsValid(19, 3, 7, 2, decode);
  }

  lemma CompatibleAgreement<T(!new)>(G: Params<T>, x: nat, u: nat)
    requires Valid(G) && G.q > 1
    ensures Pow(G, Pow(G, G.g, u), Product(Divide(x, G.cofactor, G.q), G.cofactor)) == Pow(G, Pow(G, G.g, x), u)
       <==> G.cofactor % G.q != 0 || Product(x, u) % G.q == 0
  {
    hide Valid, Pow, IsGroup;
    Generator(G);
    var q, k := G.q, G.cofactor;
    var d := Product(Divide(x, k, q), k);
    PowMul(G, G.g, u, d);
    PowMul(G, G.g, x, u);
    OrderExactly(G, x * u);
    PrimeOrder(G);
    hide IsPrime;
    PrimeInverse(k, q);
    if k % q != 0 {
      DivideBack(x, k, q);
      SameProduct(d, x, u, q);
      Commute(d, u);
      SameExponent(G, u * d, x * u);
    } else {
      DivideZero(x, k, q);
      assert u * d == 0;
      ModUnique(0, q, 0, 0);
      OrderExactly(G, u * d);
    }
  }

  lemma DivideZero(a: nat, b: nat, q: nat)
    requires q > 1 && InverseMod(b, q) == 0
    ensures Product(Divide(a, b, q), b) == 0
  {
    ModUnique(a * 0, q, 0, 0);
  }

  lemma DivideBack(a: nat, b: nat, q: nat)
    requires q > 1 && InverseMod(b, q) != 0
    ensures Same(Product(Divide(a, b, q), b), a, q)
  {
    hide InverseMod;
    var i := InverseMod(b, q);
    InverseWorks(b, q);
    SameReduced(a * i, q);
    SameProduct(Divide(a, b, q), a * i, b, q);
    ModUnique(1, q, 0, 1);
    SameProduct(b * i, 1, a, q);
    assert a * i * b == b * i * a by { Commute(a * i, b); Reassociate(b, a, i); Swap(b, a, i); }
  }

  // Padding

  /** The subtraction is of 32-bit unsigned numbers. */
  function MaxPlaintextLength(p: nat, cipherLength: nat): (n: nat)
    ensures n <= 255
  {
    var len := ByteCount(p);
    if cipherLength == len then
      var room := (len - 3) % 0x1_0000_0000;
      if room < 255 then room else 255
    else 0
  }

  /** The limit: three bytes less than the modulus has, but at most 255; for other lengths of
      ciphertext nothing. */
  lemma MaxPlaintextExactly(p: nat, cipherLength: nat)
    requires 3 <= ByteCount(p) < 0x1_0000_0000
    ensures MaxPlaintextLength(p, cipherLength)
         == if cipherLength != ByteCount(p) then 0 else if ByteCount(p) < 258 then ByteCount(p) - 3 else 255
  {
  }

  /** Where the limit wraps below zero, for moduli of one or two bytes, it admits texts that
      the block has no room for; otherwise none. */
  lemma RoomExactly(p: nat, n: nat)
    requires n <= MaxPlaintextLength(p, ByteCount(p))
    ensures n + 2 <= ByteCount(p) <==> ByteCount(p) >= 3 || (ByteCount(p) == 2 && n == 0)
  {
  }

  /** So modulo 251, of one byte, even the empty text is admitted without room. */
  lemma NoRoomIsReachable()
    ensures MaxPlaintextLength(251, ByteCount(251)) == 255 && ByteCount(251) < 2
  {
    assert ByteCount(251) == 1 + ByteCount(0);
  }

  function Block(pad: seq<byte>, plain: seq<byte>): seq<byte>
    requires |plain| <= 255
  {
    pad + plain + [|plain|]
  }

  /** Padding, text and length as one number, times the key modulo p. */
  function SymmetricCiphertext(p: nat, key: seq<byte>, pad: seq<byte>, plain: seq<byte>): seq<byte>
    requires p > 0 && |plain| <= 255
  {
    Octets(Product(BigEndian(key), BigEndian(Block(pad, plain))) % p, ByteCount(p))
  }

  function CiphertextLength(p: nat, plainLength: nat): nat {
    if plainLength <= MaxPlaintextLength(p, ByteCount(p)) then ByteCount(p) else 0
  }

  /** The length announced is the ciphertext's exactly for texts within the limit. */
  lemma CiphertextLengthExactly(p: nat, key: seq<byte>, pad: seq<byte>, plain: seq<byte>)
    requires p > 0 && |plain| <= 255
    ensures |SymmetricCiphertext(p, key, pad, plain)| == CiphertextLength(p, |plain|)
       <==> |plain| <= MaxPlaintextLength(p, ByteCount(p))
    ensures |plain| > MaxPlaintextLength(p, ByteCount(p)) ==> CiphertextLength(p, |plain|) == 0
  {
    ByteCountExact(p);
  }

  function SymmetricPlaintext(p: nat, key: seq<byte>, cipher: seq<byte>): Option<seq<byte>>
    requires p > 1
  {
    if |cipher| != ByteCount(p) then None
    else
      var m := Product(BigEndian(cipher), InverseMod(BigEndian(key), p)) % p;
      var n := m % 256;
      if n > MaxPlaintextLength(p, ByteCount(p)) then None
      else Some(Octets(m / 256, n))
  }

  /** The ciphertext is the key times padding, text and length as one number. */
  lemma CiphertextExactly(p: nat, key: seq<byte>, pad: seq<byte>, plain: seq<byte>)
    requires p > 0 && |plain| <= 255
    ensures var c := SymmetricCiphertext(p, key, pad, plain);
      |c| == ByteCount(p) && BigEndian(c) == Product(BigEndian(key), BigEndian(pad + plain + [|plain|])) % p
  {
    hide BigEndian, Octets;
    var c := Product(BigEndian(key), BigEndian(Block(pad, plain))) % p;
    EncodeBack(c, p);
    OctetsLength(c, ByteCount(p));
  }

  /** Main result: with an invertible key any number m below the modulus is recovered; it is taken
      for a text exactly when its low byte is within the limit, and then for as many bytes above
      that one. Ciphertexts of other lengths are refused. */
  lemma DecryptsExactly(p: nat, key: seq<byte>, m: nat)
    requires p > 1 && m < p && InverseMod(BigEndian(key), p) != 0
    ensures SymmetricPlaintext(p, key, Octets(Product(BigEndian(key), m) % p, ByteCount(p)))
         == if m % 256 > MaxPlaintextLength(p, ByteCount(p)) then None else Some(Octets(m / 256, m % 256))
    ensures forall c: seq<byte> | |c| != ByteCount(p) :: SymmetricPlaintext(p, key, c) == None
  {
    hide BigEndian, InverseMod, MaxPlaintextLength;
    var c := Product(BigEndian(key), m) % p;
    MultiplyBack(BigEndian(key), m, p);
    EncodeBack(c, p);
    OctetsLength(c, ByteCount(p));
  }

  lemma {:induction false} LowOctets(a: seq<byte>, b: seq<byte>)
    ensures Octets(BigEndian(a + b), |b|) == b
    decreases |b|
  {
    if b != [] {
      var init, last := b[..|b| - 1], b[|b| - 1];
      assert (a + b)[..|a + b| - 1] == a + init;
      LowOctets(a, init);
      assert BigEndian(a + b) / 256 == BigEndian(a + init) && BigEndian(a + b) % 256 == last;
    } else {
      assert a + b == a;
    }
  }

  /** The length byte and the right-aligned text come back from one number. */
  lemma UnpadBlock(pad: seq<byte>, plain: seq<byte>)
    requires |plain| <= 255
    ensures var m := BigEndian(Block(pad, plain)); m % 256 == |plain| && Octets(m / 256, |plain|) == plain
  {
    hide BigEndian, Octets;
    LastByte(pad + plain, |plain|);
    LowOctets(pad, plain);
  }

  lemma LastByte(a: seq<byte>, b: byte)
    ensures BigEndian(a + [b]) % 256 == b && BigEndian(a + [b]) / 256 == BigEndian(a)
  {
    assert (a + [b])[..|a|] == a;
  }

  /** The padded block is below the modulus. */
  lemma BlockBelowModulus(p: nat, block: seq<byte>)
    requires p > 0 && |block| == ByteCount(p) - 1
    ensures BigEndian(block) < p
  {
    BigEndianBound(block);
    ByteCountExact(p);
  }

  lemma MultiplyBack(key: nat, m: nat, p: nat)
    requires p > 1 && m < p
    ensures Product(Product(key, m) % p, InverseMod(key, p)) % p == if InverseMod(key, p) != 0 then m else 0
  {
    hide InverseMod;
    var i := InverseMod(key, p);
    InverseWorks(key, p);
    ModMul(key * m, i, p);
    if i != 0 {
      ModUnique(1, p, 0, 1);
      SameProduct(key * i, 1, m, p);
      Swap(key, m, i);
      SmallIsReduced(m, p);
    } else {
      ModUnique(key * m * i, p, 0, 0);
    }
  }

  /** Main result: for every modulus, every text within the limit that the block has room for
      and every padding, decryption gives the text back exactly when the key is invertible or
      there is no text. */
  lemma SymmetricRoundTrip(p: nat, key: seq<byte>, pad: seq<byte>, plain: seq<byte>)
    requires |plain| <= MaxPlaintextLength(p, ByteCount(p))
    requires |pad| + |plain| + 2 == ByteCount(p)
    ensures p > 1
    ensures SymmetricPlaintext(p, key, SymmetricCiphertext(p, key, pad, plain)) == Some(plain)
       <==> InverseMod(BigEndian(key), p) != 0 || plain == []
  {
    hide BigEndian, InverseMod, Octets;
    ByteCountExact(p);
    MoreThanOne(p);
    var block := Block(pad, plain);
    var k, m := BigEndian(key), BigEndian(block);
    BlockBelowModulus(p, block);
    UnpadBlock(pad, plain);
    MultiplyBack(k, m, p);
    var c := Product(k, m) % p;
    EncodeBack(c, p);
    NoOctets();
  }

  lemma NoOctets()
    ensures forall n: nat :: Octets(n, 0) == []
  {
  }

  lemma MoreThanOne(p: nat)
    requires ByteCount(p) >= 2
    ensures p > 1
  {
  }

  // The whole scheme

  /** The ephemeral element, then the text under the key derived from the agreement. */
  function Encrypted(G: Params<nat>, p: nat, y: nat, u: nat, pad: seq<byte>, plain: seq<byte>): seq<byte>
    requires p > 0 && |plain| <= 255
  {
    var z := AgreeWithEphemeral(NoCofactor, G, y, u);
    G.encode(true, Pow(G, G.g, u)) + SymmetricCiphertext(p, Octets(z, ByteCount(p)), pad, plain)
  }

  function Decrypted(G: Params<nat>, p: nat, x: nat, cipher: seq<byte>,
    fast: bool, accepted: nat -> bool): Option<seq<byte>>
    requires p > 1 && G.q > 1 && |cipher| >= G.elementSize
  {
    match G.decode(cipher[..G.elementSize], true)
    case None => None
    case Some(q) =>
      match AgreeWithStatic(NoCofactor, G, q, x, true, fast, accepted(q))
      case None => None
      case Some(z) => SymmetricPlaintext(p, Octets(z, ByteCount(p)), cipher[G.elementSize..])
  }

  /** Main result: every message is decrypted, for every prime modulus, key pair, ephemeral
      exponent and padding, exactly when the ephemeral element passes the checks on elements. */
  lemma EncryptThenDecrypt(p: nat, q: nat, g: nat, maxExponent: nat, decode: (seq<byte>, bool) -> Option<nat>,
    x: nat, u: nat, pad: seq<byte>, plain: seq<byte>, fast: bool, accepted: nat -> bool)
    requires IsPrime(p) && q > 1 && Valid(Gfp(p, q, g, maxExponent, decode))
    requires |plain| <= MaxPlaintextLength(p, ByteCount(p))
    requires |pad| + |plain| + 2 == ByteCount(p)
    ensures var G := Gfp(p, q, g, maxExponent, decode);
      var cipher := Encrypted(G, p, Pow(G, g, x), u, pad, plain);
      var element := Pow(G, g, u);
      |cipher| >= G.elementSize &&
      (Decrypted(G, p, x, cipher, fast, accepted) == Some(plain)
       <==> decode(G.encode(true, element), true).Some? && (fast ==> accepted(element)))
  {
    hide Valid, Pow, SymmetricPlaintext, SymmetricCiphertext, IsPrime, ByteCount, InverseMod, Encodes, Sized;
    var G := Gfp(p, q, g, maxExponent, decode);
    var element := Pow(G, g, u);
    var head := G.encode(true, element);
    var cipher := Encrypted(G, p, Pow(G, g, x), u, pad, plain);
    DecodedElement(G, u);
    var sealed := cipher[|head|..];
    assert cipher[..|head|] == head;
    var z := AgreeWithEphemeral(NoCofactor, G, Pow(G, g, x), u);
    AgreementExactly(NoCofactor, G, x, u, true, fast, accepted(element));
    AgreedIsUnit(p, q, g, maxExponent, decode, x, u);
    var key := Octets(z, ByteCount(p));
    EncodeBack(z, p);
    assert sealed == SymmetricCiphertext(p, key, pad, plain);
    SymmetricRoundTrip(p, key, pad, plain);
  }

  /** The encoded ephemeral element comes first; the rest is under the agreed element as key. */
  lemma EncryptedLayout(p: nat, q: nat, g: nat, maxExponent: nat, decode: (seq<byte>, bool) -> Option<nat>,
    x: nat, u: nat, pad: seq<byte>, plain: seq<byte>)
    requires p > 1 && q > 1 && Valid(Gfp(p, q, g, maxExponent, decode)) && |plain| <= 255
    ensures var G := Gfp(p, q, g, maxExponent, decode);
      var cipher := Encrypted(G, p, Pow(G, g, x), u, pad, plain);
      |cipher| == 2 * ByteCount(p) && cipher[..ByteCount(p)] == G.encode(true, Pow(G, g, u)) &&
      cipher[ByteCount(p)..] == SymmetricCiphertext(p, Octets(Pow(G, g, Product(x, u)), ByteCount(p)), pad, plain)
  {
    hide Valid, Pow, SymmetricCiphertext, IsGroup;
    var G := Gfp(p, q, g, maxExponent, decode);
    EphemeralExactly(NoCofactor, G, x, u);
    var z := AgreeWithEphemeral(NoCofactor, G, Pow(G, g, x), u);
    CiphertextExactly(p, Octets(z, ByteCount(p)), pad, plain);
    OctetsLength(Pow(G, g, u), ByteCount(p));
  }

  lemma DecodedElement(G: Params<nat>, u: nat)
    requires Valid(G)
    ensures var e := Pow(G, G.g, u);
      |G.encode(true, e)| == G.elementSize &&
      (G.decode(G.encode(true, e), true) == Some(e) || G.decode(G.encode(true, e), true) == None)
  {
    Generator(G);
    PowMember(G, G.g, u);
    hide IsGroup;
  }

  /** The agreed element is a non-zero residue, so it has an inverse. */
  lemma AgreedIsUnit(p: nat, q: nat, g: nat, maxExponent: nat, decode: (seq<byte>, bool) -> Option<nat>,
    x: nat, u: nat)
    requires IsPrime(p) && q > 1 && Valid(Gfp(p, q, g, maxExponent, decode))
    ensures var G := Gfp(p, q, g, maxExponent, decode);
      var z := AgreeWithEphemeral(NoCofactor, G, Pow(G, g, x), u);
      0 < z < p && InverseMod(z, p) != 0
  {
    hide Valid, Pow, IsGroup;
    var G := Gfp(p, q, g, maxExponent, decode);
    Generator(G);
    PowMember(G, g, x);
    PowMember(G, Pow(G, g, x), u);
    var z := AgreeWithEphemeral(NoCofactor, G, Pow(G, g, x), u);
    assert G.member(z);
    SmallIsReduced(z, p);
    PrimeInverse(z, p);
  }

  // The operations on buffers

  /** `inside` is false where the block has no room for the text and its length. */
  method SymmetricEncrypt(p: nat, key: seq<byte>, pad: seq<byte>, plain: seq<byte>, cipher: array<byte>)
    returns (inside: bool)
    requires |plain| <= MaxPlaintextLength(p, ByteCount(p)) && |key| == cipher.Length == ByteCount(p)
    requires |plain| + 2 <= ByteCount(p) ==> |pad| + |plain| + 2 == ByteCount(p)
    modifies cipher
    ensures inside <==> |plain| + 2 <= ByteCount(p)
    ensures !inside ==> cipher[..] == old(cipher[..])
    ensures inside ==> p > 1 && cipher[..] == SymmetricCiphertext(p, key, pad, plain)
    ensures inside && InverseMod(BigEndian(key), p) != 0 ==>
      SymmetricPlaintext(p, key, cipher[..]) == Some(plain)
  {
    hide BigEndian, InverseMod, Octets, SymmetricPlaintext;
    var len := ByteCount(p);
    if |plain| + 2 > len { return false; }
    MoreThanOne(p);
    var block := new byte[len - 1];
    forall i | 0 <= i < len - 2 - |plain| { block[i] := pad[i]; }
    forall i | 0 <= i < |plain| { block[len - 2 - |plain| + i] := plain[i]; }
    block[len - 2] := |plain|;
    assert block[..] == Block(pad, plain);
    Times(BigEndian(key), BigEndian(block[..]));
    var c: nat := BigEndian(key) * BigEndian(block[..]) % p;
    var bytes := Octets(c, len);
    OctetsLength(c, len);
    forall i | 0 <= i < len { cipher[i] := bytes[i]; }
    assert cipher[..] == bytes;
    SymmetricRoundTrip(p, key, pad, plain);
    return true;
  }

  lemma OctetsLength(n: nat, k: nat)
    ensures |Octets(n, k)| == k
  {
  }

  /** The first byte of the output is overwritten even when the length in it is refused. */
  method SymmetricDecrypt(p: nat, key: seq<byte>, cipher: seq<byte>, plain: array<byte>) returns (length: Option<nat>)
    requires p > 1 && |key| == ByteCount(p) && plain.Length >= 1 && plain.Length >= MaxPlaintextLength(p, ByteCount(p))
    modifies plain
    ensures length.Some? <==> SymmetricPlaintext(p, key, cipher).Some?
    ensures length.Some? ==>
      length.value <= plain.Length && SymmetricPlaintext(p, key, cipher) == Some(plain[..length.value])
    ensures plain[if length.Some? && length.value > 0 then length.value else 1..]
         == old(plain[..])[if length.Some? && length.value > 0 then length.value else 1..]
  {
    hide BigEndian, InverseMod, Octets, ByteCount;
    if |cipher| != ByteCount(p) { return None; }
    Times(BigEndian(cipher), InverseMod(BigEndian(key), p));
    var m: nat := BigEndian(cipher) * InverseMod(BigEndian(key), p) % p;
    plain[0] := m % 256;
    var n := plain[0];
    if n > MaxPlaintextLength(p, ByteCount(p)) { return None; }
    m := m / 256;
    var bytes := Octets(m, n);
    OctetsLength(m, n);
    forall i | 0 <= i < n { plain[i] := bytes[i]; }
    assert plain[..n] == bytes;
    return Some(n);
  }
}
