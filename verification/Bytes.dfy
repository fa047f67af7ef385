/** Bytes, big-endian numbers, and the 16-bit fields of a little-endian host. */
module Bytes {

  type byte = b: int | 0 <= b < 256

  function Pow256(n: nat): (p: nat)
    ensures p > 0
  {
    if n == 0 then 1 else 256 * Pow256(n - 1)
  }

  /** The number that `s` writes, most significant byte first. */
  function BigEndian(s: seq<byte>): (v: nat) {
    if s == [] then 0 else BigEndian(s[..|s| - 1]) * 256 + s[|s| - 1]
  }

  /** The `k` low base-256 digits of `n`, most significant first. */
  function Octets(n: nat, k: nat): (s: seq<byte>)
    ensures |s| == k
  {
    if k == 0 then [] else Octets(n / 256, k - 1) + [n % 256]
  }

  lemma {:induction false} OctetsBigEndian(n: nat, k: nat)
    requires n < Pow256(k)
    ensures BigEndian(Octets(n, k)) == n
  {
    if k > 0 {
      var s := Octets(n, k);
      assert s[..k - 1] == Octets(n / 256, k - 1);
      assert s[k - 1] == n % 256;
      QuotientBound(n, Pow256(k - 1));
      OctetsBigEndian(n / 256, k - 1);
    }
  }

  lemma QuotientBound(n: nat, p: nat)
    requires n < 256 * p
    ensures n / 256 < p && n / 256 * 256 + n % 256 == n
  {
  }

  lemma {:induction false} BigEndianBound(s: seq<byte>)
    ensures BigEndian(s) < Pow256(|s|)
  {
    if s != [] { BigEndianBound(s[..|s| - 1]); }
  }

  lemma {:induction false} Pow256Monotone(a: nat, b: nat)
    requires a <= b
    ensures Pow256(a) <= Pow256(b)
    decreases b
  {
    if a < b { Pow256Monotone(a, b - 1); }
  }

  function Power2(n: nat): (p: nat)
    ensures p > 0
  {
    if n == 0 then 1 else 2 * Power2(n - 1)
  }

  /** A 16-bit field as the host stores it. */
  function Stored(n: nat): (s: seq<byte>)
    requires n < 0x1_0000
    ensures |s| == 2
  {
    [n % 256, n / 256]
  }

  function Loaded(s: seq<byte>, at: nat): (n: nat)
    requires at + 2 <= |s|
    ensures n < 0x1_0000
  {
    s[at] as int + 256 * (s[at + 1] as int)
  }

  lemma StoredLoaded(a: seq<byte>, n: nat, b: seq<byte>)
    requires n < 0x1_0000
    ensures Loaded(a + Stored(n) + b, |a|) == n
  {
  }

  /** Copies `bytes` to offset `at`. */
  method CopyInto(buffer: array<byte>, at: nat, bytes: seq<byte>)
    requires at + |bytes| <= buffer.Length
    modifies buffer
    ensures buffer[..at + |bytes|] == old(buffer[..at]) + bytes
    ensures buffer[at + |bytes|..] == old(buffer[at + |bytes|..])
  {
    forall i | 0 <= i < |bytes| { buffer[at + i] := bytes[i]; }
    assert buffer[..at + |bytes|] == old(buffer[..at]) + bytes;
  }

  function Concat(q: seq<seq<byte>>): seq<byte> {
    if q == [] then [] else q[0] + Concat(q[1..])
  }

  lemma {:induction false} ConcatAppend(q: seq<seq<byte>>, s: seq<byte>)
    ensures Concat(q + [s]) == Concat(q) + s
    decreases |q|
  {
    if q == [] {
      assert [s][1..] == [];
      assert Concat([s]) == s + Concat([]) == s;
      assert q + [s] == [s];
    } else {
      assert (q + [s])[1..] == q[1..] + [s];
      ConcatAppend(q[1..], s);
    }
  }
}
