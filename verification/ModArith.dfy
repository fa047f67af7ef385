/** Arithmetic modulo n, with a remainder that is never negative. */
module ModArith {

  predicate IsPrime(p: nat) {
    p > 1 && forall d | 1 < d < p :: p % d != 0
  }

  /** `a` and `b` leave the same remainder. */
  predicate Same(a: int, b: int, n: nat)
    requires n > 0
  {
    a % n == b % n
  }

  /** Quotient and remainder are determined. */
  lemma ModUnique(a: int, n: nat, k: int, r: nat)
    requires r < n && a == k * n + r
    ensures a % n == r
  {
    var d := k - a / n;
    assert d * n == a % n - r by { Difference(k, a / n, n, a, r, a % n); }
    if d > 0 { MulLower(d, n); } else if d < 0 { MulLower(-d, n); Negate(n, d); Commute(n, d); }
  }

  lemma Difference(k: int, l: int, n: nat, a: int, r: int, s: int)
    requires a == k * n + r && a == l * n + s
    ensures (k - l) * n == s - r
  {
  }

  lemma {:induction false} MulLower(d: nat, n: nat)
    requires d > 0
    ensures d * n >= n
    decreases d
  {
    if d > 1 {
      MulLower(d - 1, n);
      Difference(d, 1, n, d * n, 0, d * n - n);
    }
  }

  lemma ModShift(a: int, k: int, n: nat)
    requires n > 0
    ensures (a + k * n) % n == a % n
  {
    var l := a / n;
    assert a + k * n == (l + k) * n + a % n by {
      assert a == l * n + a % n;
      assert l * n + k * n == (l + k) * n;
    }
    ModUnique(a + k * n, n, l + k, a % n);
  }

  /** Sums and products may be reduced before or after. */
  lemma ModAdd(a: int, b: int, n: nat)
    requires n > 0
    ensures (a % n + b) % n == (a + b) % n
  {
    assert a == a / n * n + a % n;
    ModShift(a % n + b, a / n, n);
    assert a % n + b + a / n * n == a + b;
  }

  lemma ModMul(a: int, b: int, n: nat)
    requires n > 0
    ensures (a % n) * b % n == a * b % n
  {
    var k, r := a / n, a % n;
    assert a == k * n + r;
    ModShift(r * b, k * b, n);
    assert r * b + (k * b) * n == (k * n + r) * b by { Distribute(k, n, r, b); }
  }

  lemma Distribute(k: int, n: int, r: int, b: int)
    ensures r * b + (k * b) * n == (k * n + r) * b
  {
  }

  lemma SameProduct(a: int, b: int, c: int, n: nat)
    requires n > 0 && Same(a, b, n)
    ensures Same(a * c, b * c, n)
  {
    ModMul(a, c, n);
    ModMul(b, c, n);
  }

  lemma SameSum(a: int, b: int, c: int, n: nat)
    requires n > 0 && Same(a, b, n)
    ensures Same(a + c, b + c, n)
  {
    ModAdd(a, c, n);
    ModAdd(b, c, n);
  }

  lemma SameReduced(a: int, n: nat)
    requires n > 0
    ensures Same(a % n, a, n)
  {
    ModAdd(a, 0, n);
  }

  lemma SmallIsReduced(a: nat, n: nat)
    requires a < n
    ensures a % n == a
  {
  }

  /** The greatest common divisor with its two multipliers. */
  function ExtendedGcd(a: nat, b: nat): (r: (nat, int, int))
    ensures a * r.1 + b * r.2 == r.0
    decreases b
  {
    if b == 0 then (a, 1, 0)
    else
      var (g, x, y) := ExtendedGcd(b, a % b);
      BezoutStep(a, b, x, y);
      (g, y, x - a / b * y)
  }

  lemma BezoutStep(a: nat, b: nat, x: int, y: int)
    requires b > 0
    ensures a * y + b * (x - a / b * y) == b * x + a % b * y
  {
    var k, r := a / b, a % b;
    assert a == k * b + r;
    assert (k * b + r) * y + b * (x - k * y) == b * x + r * y;
  }

  predicate Divides(g: nat, a: int)
    requires g > 0
  {
    a % g == 0
  }

  lemma DividesSum(g: nat, a: int, b: int, k: int)
    requires g > 0 && Divides(g, a) && Divides(g, b)
    ensures Divides(g, k * a + b)
  {
    ModMul(a, k, g);
    assert a * k == k * a;
    ModAdd(k * a, b, g);
  }

  lemma QuotientRemainder(a: int, b: nat)
    requires b > 0
    ensures a / b * b + a % b == a
  {
  }

  lemma DividesItself(a: nat)
    requires a > 0
    ensures Divides(a, a) && Divides(a, 0)
  {
    ModUnique(a, a, 1, 0);
  }

  lemma {:induction false} GcdDivides(a: nat, b: nat)
    requires a > 0 || b > 0
    ensures var g := ExtendedGcd(a, b).0; g > 0 && Divides(g, a) && Divides(g, b)
    decreases b
  {
    hide Divides;
    if b == 0 {
      DividesItself(a);
    } else {
      GcdDivides(b, a % b);
      var g := ExtendedGcd(b, a % b).0;
      DividesSum(g, b, a % b, a / b);
      QuotientRemainder(a, b);
    }
  }

  lemma Reassociate(a: int, b: int, c: int)
    ensures a * (b * c) == (a * b) * c
  {
  }

  /** The inverse below n, or 0 when there is none. */
  function InverseMod(a: int, n: nat): (r: nat)
    requires n > 1
    ensures r < n
  {
    var (g, x, _) := ExtendedGcd(a % n, n);
    if g == 1 then x % n else 0
  }

  /** The Bezout multiplier of a number prime to n is its inverse. */
  lemma BezoutInverse(a: int, n: nat)
    requires n > 1 && ExtendedGcd(a % n, n).0 == 1
    ensures InverseMod(a, n) != 0 && a * InverseMod(a, n) % n == 1
  {
    var c := a % n;
    var x, y := ExtendedGcd(c, n).1, ExtendedGcd(c, n).2;
    MultiplierInverts(a, n, c, x, y);
  }

  lemma MultiplierInverts(a: int, n: nat, c: nat, x: int, y: int)
    requires n > 1 && c == a % n && c * x + n * y == 1
    ensures x % n != 0 && a * (x % n) % n == 1
  {
    assert c * x == 1 + (-y) * n by { Negate(n, y); }
    ModShift(1, -y, n);
    ModUnique(1, n, 0, 1);
    ModMul(a, x, n);
    ModMul(x, a, n);
    Commute(x, a);
    Commute(x % n, a);
    ZeroFactor(a, x % n, n);
  }

  lemma ZeroFactor(a: int, b: int, n: nat)
    requires n > 0
    ensures b == 0 ==> a * b % n == 0
  {
    if b == 0 { ModUnique(a * b, n, 0, 0); }
  }

  lemma Negate(n: int, y: int)
    ensures (-y) * n == -(n * y)
  {
  }

  lemma Commute(a: int, b: int)
    ensures a * b == b * a
  {
  }

  /** The result is an inverse exactly when it is not 0. */
  lemma InverseWorks(a: int, n: nat)
    requires n > 1
    ensures InverseMod(a, n) != 0 <==> a * InverseMod(a, n) % n == 1
  {
    if ExtendedGcd(a % n, n).0 == 1 {
      BezoutInverse(a, n);
    } else {
      assert a * 0 == 0;
    }
  }

  /** No number is an inverse when the result is 0. */
  lemma InverseComplete(a: int, b: int, n: nat)
    requires n > 1 && a * b % n == 1
    ensures InverseMod(a, n) != 0
  {
    var c := a % n;
    ModMul(a, b, n);
    var g := ExtendedGcd(c, n).0;
    GcdDivides(c, n);
    // g divides c * b and n, and so the 1 that is left of c * b
    var k := c * b / n;
    DividesSum(g, c, 0, b);
    Commute(c, b);
    DividesSum(g, n, c * b, -k);
    Negate(n, k);
    Commute(n, k);
    assert -k * n + c * b == 1;
    if g > 1 { ModUnique(1, g, 0, 1); }
    BezoutInverse(a, n);
  }

  /** Modulo a prime exactly the multiples of it have no inverse. */
  lemma PrimeInverse(a: int, p: nat)
    requires IsPrime(p)
    ensures InverseMod(a, p) != 0 <==> a % p != 0
  {
    var c := a % p;
    if c != 0 {
      GcdDivides(c, p);
      var g := ExtendedGcd(c, p).0;
      DivisorBound(g, c);
      if g == 1 { BezoutInverse(a, p); }
    } else {
      InverseWorks(a, p);
      ModMul(a, InverseMod(a, p), p);
      assert c * InverseMod(a, p) == 0;
    }
  }

  lemma DivisorBound(g: nat, c: nat)
    requires 0 < g && 0 < c && c % g == 0
    ensures g <= c
  {
  }

  /** A prime divides a product only by dividing a factor. */
  lemma PrimeProduct(a: int, b: int, p: nat)
    requires IsPrime(p) && a % p != 0 && b % p != 0
    ensures a * b % p != 0
  {
    PrimeInverse(a, p);
    InverseWorks(a, p);
    hide IsPrime, InverseMod;
    var i := InverseMod(a, p);
    // (a * i) * b leaves what b does, and (a * b) * i would leave 0
    ModUnique(1, p, 0, 1);
    SameProduct(a * i, 1, b, p);
    Swap(a, i, b);
    ModMul(a * b, i, p);
    ZeroFactor(i, a * b % p, p);
    Commute(i, a * b % p);
  }

  lemma Swap(a: int, b: int, c: int)
    ensures a * b * c == a * c * b
  {
  }
}
