/** Binary-coded decimals: two digits a byte, least significant byte first. */
module Bcd {
  import opened Bytes
  import opened ModArith

  const WORD := 0x1_0000_0000

  function BinToBcd(bin: byte): byte {
    if bin > 99 then 0 else bin / 10 * 16 + bin % 10
  }

  function BcdToBin(bcd: byte): (bin: byte)
    ensures bin <= 99
  {
    if bcd / 16 > 9 || bcd % 16 > 9 then 0 else bcd / 16 * 10 + bcd % 16
  }

  predicate IsBcd(b: byte) {
    b / 16 <= 9 && b % 16 <= 9
  }

  /** A byte is its two halves. */
  lemma Halves(hi: nat, lo: nat, base: nat)
    requires lo < base && 0 < base
    ensures (hi * base + lo) / base == hi && (hi * base + lo) % base == lo
  {
    ModUnique(hi * base + lo, base, hi, lo);
    var q := (hi * base + lo) / base;
    assert (q - hi) * base == 0;
  }

  /** Each direction undoes the other exactly on two decimal digits. */
  lemma ByteRoundTrips(b: byte)
    ensures BcdToBin(BinToBcd(b)) == b <==> b <= 99
    ensures BinToBcd(BcdToBin(b)) == b <==> IsBcd(b)
    ensures (b > 99 ==> BinToBcd(b) == 0) && (!IsBcd(b) ==> BcdToBin(b) == 0)
  {
    if b <= 99 { Halves(b / 10, b % 10, 16); }
    if IsBcd(b) { Halves(b / 16, b % 16, 10); }
  }

  predicate IsInvalid(buf: seq<byte>, invalid: byte) {
    exists n | 0 <= n < |buf| :: buf[n] == invalid || buf[n] == 0xee
  }

  /** The number that the bytes write in base 100. */
  function Hundreds(buf: seq<byte>): (v: nat) {
    if buf == [] then 0 else BcdToBin(buf[0]) + 100 * Hundreds(buf[1..])
  }

  function Pow100(n: nat): (p: nat)
    ensures p > 0
  {
    if n == 0 then 1 else 100 * Pow100(n - 1)
  }

  lemma {:induction false} HundredsBound(buf: seq<byte>)
    ensures Hundreds(buf) < Pow100(|buf|)
  {
    if buf != [] { HundredsBound(buf[1..]); }
  }

  /** The 32-bit sum is the number written, always for four bytes; five bytes can exceed it. */
  lemma NoWrap(buf: seq<byte>)
    ensures Hundreds(buf) % WORD == Hundreds(buf) <==> Hundreds(buf) < WORD
    ensures |buf| <= 4 ==> Hundreds(buf) < 100000000 < WORD
  {
    HundredsBound(buf);
    if |buf| <= 4 {
      Pow100Monotone(|buf|, 4);
      assert Pow100(4) == 100 * (100 * (100 * (100 * Pow100(0))));
    }
  }

  lemma {:induction false} Pow100Monotone(a: nat, b: nat)
    requires a <= b
    ensures Pow100(a) <= Pow100(b)
    decreases b
  {
    if a < b { Pow100Monotone(a, b - 1); }
  }

  lemma FiveBytesWrap()
    ensures Hundreds([0x99, 0x99, 0x99, 0x99, 0x99]) >= WORD
  {
    assert Hundreds([0x99]) == 99 + 100 * Hundreds([]);
    assert [0x99, 0x99][1..] == [0x99];
    assert [0x99, 0x99, 0x99][1..] == [0x99, 0x99];
    assert [0x99, 0x99, 0x99, 0x99][1..] == [0x99, 0x99, 0x99];
    assert [0x99, 0x99, 0x99, 0x99, 0x99][1..] == [0x99, 0x99, 0x99, 0x99];
  }

  /** The sum as the program takes it, from the last byte down, each step in 32 bits. */
  method SumHundreds(buf: seq<byte>) returns (value: nat)
    ensures value == Hundreds(buf) % WORD
  {
    value := 0;
    var n := |buf|;
    assert buf[n..] == [];
    while n > 0
      invariant 0 <= n <= |buf|
      invariant value < WORD && value == Pow100(n) * Hundreds(buf[n..]) % WORD
    {
      n := n - 1;
      var pow := 1;
      var m := 0;
      while m < n
        invariant 0 <= m <= n && pow < WORD && pow == Pow100(m) % WORD
      {
        ModMul(Pow100(m), 100, WORD);
        pow := pow * 100 % WORD;
        m := m + 1;
      }
      SumStep(buf, n, value, pow);
      value := (value + BcdToBin(buf[n]) * pow) % WORD;
    }
    assert buf[0..] == buf;
  }

  lemma SumStep(buf: seq<byte>, n: nat, value: nat, pow: nat)
    requires n < |buf| && value == Pow100(n + 1) * Hundreds(buf[n + 1..]) % WORD && pow == Pow100(n) % WORD
    ensures (value + BcdToBin(buf[n]) * pow) % WORD == Pow100(n) * Hundreds(buf[n..]) % WORD
  {
    var d, p, h := BcdToBin(buf[n]) as int, Pow100(n), Hundreds(buf[n + 1..]);
    assert buf[n..][1..] == buf[n + 1..];
    ModMul(p, d, WORD);
    ModAdd(100 * p * h, d * pow, WORD);
    ModAdd(p * d, 100 * p * h, WORD);
    assert pow * d == d * pow;
    ModAdd(d * pow, 100 * p * h, WORD);
    assert p * (d + 100 * h) == p * d + 100 * p * h by { Multiply(p, d, h); }
  }

  lemma Multiply(p: nat, d: nat, h: nat)
    ensures p * (d + 100 * h) == p * d + 100 * p * h
  {
  }

  function Pow10(n: nat): (p: real)
    ensures p > 0.0
  {
    if n == 0 then 1.0 else Pow10(n - 1) * 10.0
  }

  /** `d` is the number with its decimal point that many digits from the right. */
  predicate AtPoint(d: real, number: nat, point: int) {
    if point >= 0 then d * Pow10(point) == number as real else d == number as real * Pow10(-point)
  }

  lemma DivideBack(number: nat, point: nat)
    ensures AtPoint(number as real / Pow10(point), number, point)
  {
    hide Pow10;
    Quotient(number as real, Pow10(point));
  }

  lemma Quotient(v: real, p: real)
    requires p > 0.0
    ensures v / p * p == v
  {
  }

  method TenToThe(n: nat) returns (pow: real)
    ensures pow == Pow10(n)
  {
    pow := 1.0;
    var m := 0;
    while m < n
      invariant 0 <= m <= n && pow == Pow10(m)
    {
      pow := pow * 10.0;
      m := m + 1;
    }
  }

  /** `bcd_to_bin` with a decimal point; the program's divisions are of doubles. */
  method BcdToDecimal(buf: seq<byte>, point: int, invalid: byte) returns (d: real)
    ensures |buf| > 5 || point > 10 ==> d == 0.0
    ensures |buf| <= 5 && point <= 10 && IsInvalid(buf, invalid) ==> d == -10.0
    ensures |buf| <= 5 && point <= 10 && !IsInvalid(buf, invalid) ==> AtPoint(d, Hundreds(buf) % WORD, point)
  {
    hide Hundreds, IsInvalid, Pow10;
    if |buf| > 5 || point > 10 { return 0.0; }
    var bad := FindInvalid(buf, invalid);
    if bad { return -10.0; }
    var value := SumHundreds(buf);
    var pow := TenToThe(if point >= 0 then point else -1 * point);
    if point >= 0 {
      DivideBack(value, point);
      return value as real / pow;
    }
    return value as real * pow;
  }

  /** `bcd_to_bin` to an integer. */
  method BcdToInt(buf: seq<byte>, invalid: byte) returns (v: int)
    ensures v == if |buf| > 4 then 0 else if IsInvalid(buf, invalid) then -10 else Hundreds(buf)
  {
    if |buf| > 4 { return 0; }
    var bad := FindInvalid(buf, invalid);
    if bad { return -10; }
    v := SumHundreds(buf);
    NoWrap(buf);
  }

  method FindInvalid(buf: seq<byte>, invalid: byte) returns (found: bool)
    ensures found == IsInvalid(buf, invalid)
  {
    var n := 0;
    while n < |buf|
      invariant 0 <= n <= |buf|
      invariant forall i | 0 <= i < n :: buf[i] != invalid && buf[i] != 0xee
    {
      if buf[n] == invalid || buf[n] == 0xee { return true; }
      n := n + 1;
    }
    return false;
  }

  /** The bytes with the last one shifted left, in eight bits. */
  function Shifted(buf: seq<byte>, point: nat): (s: seq<byte>)
    ensures |s| == |buf|
  {
    if buf == [] then [] else buf[|buf| - 1 := buf[|buf| - 1] * Power2(point) % 256]
  }

  /** `check_bcd`: two digits in every byte, or 0xee. */
  predicate CheckBcd(buf: seq<byte>, point: nat) {
    point <= 8 && forall i | 0 <= i < |buf| :: Shifted(buf, point)[i] == 0xee || IsBcd(Shifted(buf, point)[i])
  }

  /** A shift by four bits leaves the low digit of the last byte to be tested, one by eight
      nothing; larger shifts are refused. */
  lemma ShiftsExactly(b: byte)
    ensures CheckBcd([b], 4) <==> b % 16 <= 9
    ensures CheckBcd([b], 8) && !CheckBcd([b], 9)
  {
    assert Power2(0) == 1;
    assert Power2(1) == 2 * Power2(0) && Power2(2) == 2 * Power2(1) && Power2(3) == 2 * Power2(2);
    assert Power2(4) == 2 * Power2(3) && Power2(5) == 2 * Power2(4) && Power2(6) == 2 * Power2(5);
    assert Power2(7) == 2 * Power2(6) && Power2(8) == 2 * Power2(7);
    assert (b as int) * 16 % 256 == b % 16 * 16 by { assert b == b / 16 * 16 + b % 16; }
    ModUnique((b as int) * 256, 256, b, 0);
    var s := Shifted([b], 4);
    assert s[0] == b % 16 * 16;
    Halves(b % 16, 0, 16);
    assert Shifted([b], 8)[0] == 0;
  }

  method TestBcd(buf: seq<byte>, point: nat) returns (ok: bool)
    requires buf != []
    ensures ok == CheckBcd(buf, point)
  {
    if point > 8 { return false; }
    var tmp := Shifted(buf, point);
    var i := 0;
    while i < |tmp|
      invariant 0 <= i <= |tmp|
      invariant forall j | 0 <= j < i :: tmp[j] == 0xee || IsBcd(tmp[j])
    {
      var b1, b0 := tmp[i] / 16, tmp[i] % 16;
      if !(b0 == 0x0e && b1 == 0x0e) && (b0 > 9 || b1 > 9) { return false; }
      i := i + 1;
    }
    return true;
  }

  // Format 3: seven digits, a sign and a multiplier of one or one thousand

  /** What formatting writes from the least significant digits up. */
  function Written(value: nat): (s: seq<byte>) {
    if value == 0 then [] else [BinToBcd(value % 100)] + Written(value / 100)
  }

  function Over(before: seq<byte>, bytes: seq<byte>): (s: seq<byte>)
    requires |bytes| <= |before|
    ensures |s| == |before|
  {
    bytes + before[|bytes|..]
  }

  /** `b | bit` for a power of two. */
  function WithBit(b: byte, bit: nat): (c: byte)
    requires bit == 16 || bit == 64
  {
    if b / bit % 2 == 1 then b else
      assert bit == 16 ==> b == b / 16 * 16 + b % 16;
      assert bit == 64 ==> b == b / 64 * 64 + b % 64;
      b + bit
  }

  function Magnitude(v: int): nat {
    if v < 0 then -v else v
  }

  predicate IsThousands(v: int) {
    v != 0 && v % 1000 == 0
  }

  /** The number whose digits are written: multiples of a thousand lose three of them. */
  function Scaled(v: int): nat {
    if IsThousands(Magnitude(v)) then Magnitude(v) / 1000 else Magnitude(v)
  }

  /** `format_sg_3` into a buffer that holds `before`. */
  function Sg3(before: seq<byte>, v: int): (s: seq<byte>)
    requires |before| >= 4 && |Written(Scaled(v))| <= |before|
    ensures |s| == |before|
  {
    var s := Over(before, Written(Scaled(v)));
    var signed := if v < 0 then WithBit(s[3], 16) else s[3];
    s[3 := if IsThousands(Magnitude(v)) then WithBit(signed, 64) else signed]
  }

  /** Zeros in the four bytes that are read back. */
  predicate Zeroed(before: seq<byte>) {
    |before| >= 4 && forall i | 0 <= i < 4 :: before[i] == 0
  }

  /** The number whose digits are written, with the sign. */
  function Kept(v: int): int {
    if v < 0 then 0 - Scaled(v) else Scaled(v)
  }

  datatype Reading = Rejected | Reads(d: int)

  /** `parse_sg_3`. An invalid field reads as -10; the multiplier bit is not looked at. */
  function ParseSg3(buf: seq<byte>): (r: Reading) {
    if |buf| < 4 then Rejected
    else if IsInvalid(buf[..4], 0xee) then Reads(-10)
    else if !CheckBcd(buf[..4], 0) then Rejected
    else
      var tmp := buf[..3] + [buf[3] % 16];
      var d := if IsInvalid(tmp, 0xee) then -10 else Hundreds(tmp) as int;
      Reads(if buf[3] / 16 % 2 == 1 then -d else d)
  }

  function Zeros(n: nat): (s: seq<byte>)
    ensures |s| == n
  {
    seq(n, _ => 0)
  }

  /** The digits written, padded with zeros, write the number. */
  lemma {:induction false} DigitsBack(m: nat, k: nat)
    requires m < Pow100(k)
    ensures |Written(m)| <= k && Hundreds(Written(m) + Zeros(k - |Written(m)|)) == m
    ensures forall i | 0 <= i < |Written(m)| :: IsBcd(Written(m)[i])
    decreases k
  {
    if m == 0 {
      ZerosAreNothing(k);
      assert Written(0) + Zeros(k) == Zeros(k);
    } else {
      DigitsBack(m / 100, k - 1);
      LowDigits(m);
      var more := Written(m / 100);
      var digits := Written(m) + Zeros(k - |Written(m)|);
      assert digits[1..] == more + Zeros(k - 1 - |more|);
    }
  }

  lemma LowDigits(m: nat)
    ensures IsBcd(BinToBcd(m % 100)) && BcdToBin(BinToBcd(m % 100)) == m % 100
  {
    ByteRoundTrips(m % 100);
  }

  lemma {:induction false} ZerosAreNothing(n: nat)
    ensures Hundreds(Zeros(n)) == 0
  {
    if n > 0 {
      ZerosAreNothing(n - 1);
      assert Zeros(n)[1..] == Zeros(n - 1);
    }
  }

  lemma FourBytes(s: seq<byte>)
    requires |s| == 4
    ensures Hundreds(s) == BcdToBin(s[0]) + 100 * (BcdToBin(s[1]) + 100 * (BcdToBin(s[2]) + 100 * BcdToBin(s[3])))
  {
    hide BcdToBin;
    var r1 := s[1..];
    var r2 := r1[1..];
    var r3 := r2[1..];
    assert r1[0] == s[1] && r2[0] == s[2] && r3[0] == s[3] && r3[1..] == [];
    assert Hundreds(r3) == BcdToBin(s[3]) + 100 * Hundreds([]);
    assert Hundreds(r2) == BcdToBin(s[2]) + 100 * Hundreds(r3);
    assert Hundreds(r1) == BcdToBin(s[1]) + 100 * Hundreds(r2);
  }

  /** A byte below 10 takes both flags in its free half and gives them back. */
  lemma Flags(b: byte, signed: bool, thousands: bool)
    requires b <= 9
    ensures var c := if signed then WithBit(b, 16) else b;
      var d := if thousands then WithBit(c, 64) else c;
      d == b + (if signed then 16 else 0) + (if thousands then 64 else 0) &&
      d % 16 == b && (d / 16 % 2 == 1 <==> signed) && IsBcd(d) && d != 0xee
  {
  }

  /** Formatting a number of at most seven digits into zeros. */
  lemma FormattedBytes(before: seq<byte>, v: int)
    requires Zeroed(before) && Scaled(v) < 10000000
    ensures |Written(Scaled(v))| <= 4
    ensures var s := Sg3(before, v);
      var tmp := s[..3] + [s[3] % 16];
      (forall i | 0 <= i < 4 :: IsBcd(s[i]) && IsBcd(tmp[i])) && Hundreds(tmp) == Scaled(v) &&
      (s[3] / 16 % 2 == 1 <==> v < 0)
  {
    hide BcdToBin, Hundreds, Written, WithBit;
    var m := Scaled(v);
    HundredMillion();
    DigitsBack(m, 4);
    var w := Written(m);
    var o := Over(before, w);
    assert o[..4] == w + Zeros(4 - |w|);
    FourBytes(o[..4]);
    forall i | 0 <= i < 4 ensures IsBcd(o[i]) { if i >= |w| { assert o[i] == 0; } else { assert o[i] == w[i]; } }
    TopDigit(o[..4]);
    Flags(o[3], v < 0, IsThousands(Magnitude(v)));
    var s := Sg3(before, v);
    assert s[..3] + [s[3] % 16] == o[..4];
  }

  lemma HundredMillion()
    ensures Pow100(4) == 100000000 && Pow100(5) == 10000000000
  {
    assert Pow100(4) == 100 * (100 * (100 * (100 * Pow100(0))));
  }

  lemma TopDigit(s: seq<byte>)
    requires |s| == 4 && IsBcd(s[3]) && Hundreds(s) < 10000000
    ensures s[3] <= 9
  {
    FourBytes(s);
  }

  lemma ReadsBack(before: seq<byte>, v: int)
    requires Zeroed(before) && Scaled(v) < 10000000
    ensures |Written(Scaled(v))| <= 4
    ensures ParseSg3(Sg3(before, v)) == Reads(Kept(v))
  {
    hide Written, Hundreds, BcdToBin, WithBit, Scaled;
    FormattedBytes(before, v);
    var s := Sg3(before, v);
    PlainDigits(s[..4]);
    PlainDigits(s[..3] + [s[3] % 16]);
  }

  lemma PlainDigits(s: seq<byte>)
    requires |s| == 4 && forall i | 0 <= i < 4 :: IsBcd(s[i])
    ensures !IsInvalid(s, 0xee) && CheckBcd(s, 0)
  {
    assert Power2(0) == 1;
    assert s[3 := s[3] % 256] == s;
  }

  lemma ParseBound(buf: seq<byte>)
    ensures var r := ParseSg3(buf); r.Reads? ==> -10000000 < r.d < 10000000
  {
    if |buf| >= 4 {
      FourBytes(buf[..3] + [buf[3] % 16]);
    }
  }

  /** The fourth byte has the top digit, the sign in bit 4 and the multiplier in bit 6. */
  lemma FourthByte(before: seq<byte>, v: int)
    requires Zeroed(before) && Scaled(v) < 10000000
    ensures |Written(Scaled(v))| <= 4
    ensures Sg3(before, v)[3]
         == Scaled(v) / 1000000 + (if v < 0 then 16 else 0) + (if v != 0 && v % 1000 == 0 then 64 else 0)
  {
    hide Hundreds, Written, WithBit, Scaled;
    var m := Scaled(v);
    HundredMillion();
    DigitsBack(m, 4);
    var w := Written(m);
    var o := Over(before, w);
    assert o[..4] == w + Zeros(4 - |w|);
    FourBytes(o[..4]);
    forall i | 0 <= i < 4 ensures IsBcd(o[i]) { if i >= |w| { assert o[i] == 0; } else { assert o[i] == w[i]; } }
    TopDigit(o[..4]);
    Flags(o[3], v < 0, IsThousands(Magnitude(v)));
    SameThousands(v);
  }

  /** Four bytes of two digits each, but for the flags in the last, read as the number they write,
      with its sign; the multiplier changes nothing. */
  lemma ReadingExactly(buf: seq<byte>)
    requires |buf| == 4 && forall i | 0 <= i < 4 :: IsBcd(buf[i])
    ensures var (b0, b1, b2, b3) := (buf[0] as int, buf[1] as int, buf[2] as int, buf[3] as int);
            var n := b0 % 16 + 10 * (b0 / 16) + 100 * (b1 % 16) + 1000 * (b1 / 16)
              + 10000 * (b2 % 16) + 100000 * (b2 / 16) + 1000000 * (b3 % 16);
            ParseSg3(buf) == Reads(if buf[3] / 16 % 2 == 1 then 0 - n else n)
  {
    hide Hundreds;
    var tmp := buf[..3] + [buf[3] % 16];
    assert buf[..4] == buf;
    PlainDigits(buf);
    PlainDigits(tmp);
    FourBytes(tmp);
  }

  /** What else there is to read: -10 for a byte of 0xee, and otherwise nothing. */
  lemma OtherReadings(buf: seq<byte>)
    ensures |buf| < 4 ==> ParseSg3(buf) == Rejected
    ensures |buf| >= 4 && (exists i | 0 <= i < 4 :: buf[i] == 0xee) ==> ParseSg3(buf) == Reads(-10)
    ensures |buf| >= 4 && (forall i | 0 <= i < 4 :: buf[i] != 0xee) && (exists i | 0 <= i < 4 :: !IsBcd(buf[i])) ==>
      ParseSg3(buf) == Rejected
  {
    hide Hundreds;
    if |buf| >= 4 {
      var s := buf[..4];
      assert Power2(0) == 1;
      assert s[3 := s[3] % 256] == s;
      if CheckBcd(s, 0) {
        forall i | 0 <= i < 4 && buf[i] != 0xee ensures IsBcd(buf[i]) { assert Shifted(s, 0)[i] == buf[i]; }
      }
    }
  }

  /** Main result, for every 32-bit number but the least: what is formatted into zeros reads as
      the number exactly when it has at most seven digits and is 0 or no multiple of a thousand. */
  lemma Sg3RoundTripExactly(before: seq<byte>, v: int)
    requires -0x8000_0000 < v < 0x8000_0000
    requires Zeroed(before) && |Written(Scaled(v))| <= |before|
    ensures ParseSg3(Sg3(before, v)) == Reads(v) <==> Magnitude(v) < 10000000 && !IsThousands(v)
  {
    hide Written, ParseSg3, Sg3;
    SameThousands(v);
    ParseBound(Sg3(before, v));
    if Scaled(v) < 10000000 { ReadsBack(before, v); }
  }

  lemma SameThousands(v: int)
    ensures IsThousands(Magnitude(v)) <==> IsThousands(v)
    ensures IsThousands(v) ==> v / 1000 == if v < 0 then -(Magnitude(v) / 1000) else Magnitude(v) / 1000
  {
  }

  /** The other multiples of a thousand read as a thousandth of themselves. */
  lemma ThousandsReadDivided(before: seq<byte>, v: int)
    requires -0x8000_0000 < v < 0x8000_0000 && IsThousands(v)
    requires Zeroed(before)
    ensures |Written(Scaled(v))| <= 4
    ensures ParseSg3(Sg3(before, v)) == Reads(v / 1000)
  {
    SameThousands(v);
    ReadsBack(before, v);
  }

  /** What formatting comes to: its return value, a write past the buffer, or a negation that
      overflows, of the least number. */
  datatype Formatting = Returned(length: nat) | Overrun | Overflow

  /** Writes the fourth byte in any case, and one byte for every two digits. */
  method FormatSg3(v: int, buffer: array<byte>, offset: nat) returns (r: Formatting)
    requires -0x8000_0000 <= v < 0x8000_0000
    modifies buffer
    ensures r == if v == -0x8000_0000 then Overflow
                 else if offset + 4 > buffer.Length || offset + |Written(Scaled(v))| > buffer.Length then Overrun
                 else Returned(4)
    ensures r.Returned? ==>
      buffer[..offset] == old(buffer[..offset]) && buffer[offset..] == Sg3(old(buffer[offset..]), v)
    ensures !r.Returned? ==> buffer[..] == old(buffer[..])
  {
    if v == -0x8000_0000 { return Overflow; }
    var value, s, g := v, 0, 0;
    if value < 0 {
      s := 1;
      value := 0 - value;
    }
    if value % 1000 == 0 && value != 0 {
      g := 1;
      value := value / 1000;
    }
    if offset + 4 > buffer.Length || offset + |Written(value)| > buffer.Length { return Overrun; }
    ghost var before := buffer[offset..];
    WriteDigits(value, buffer, offset);
    if s == 1 { buffer[offset + 3] := WithBit(buffer[offset + 3], 16); }
    if g == 1 { buffer[offset + 3] := WithBit(buffer[offset + 3], 64); }
    assert buffer[offset..] == Sg3(before, v);
    return Returned(4);
  }

  method WriteDigits(number: nat, buffer: array<byte>, offset: nat)
    requires offset + |Written(number)| <= buffer.Length
    modifies buffer
    ensures buffer[..offset] == old(buffer[..offset])
    ensures buffer[offset..] == Over(old(buffer[offset..]), Written(number))
  {
    ghost var before, head, all := buffer[offset..], buffer[..offset], Written(number);
    var value, n := number, 0;
    while value > 0
      invariant 0 <= n <= |all| && value >= 0
      invariant all[n..] == Written(value)
      invariant buffer[..offset] == head
      invariant buffer[offset..offset + n] == all[..n]
      invariant buffer[offset + n..] == before[n..]
      decreases value
    {
      WriteStep(all, n, value);
      ghost var done, rest := buffer[offset..offset + n], buffer[offset + n..];
      buffer[offset + n] := BinToBcd(value % 100);
      assert buffer[offset..offset + n + 1] == done + [BinToBcd(value % 100)];
      assert buffer[offset + n + 1..] == rest[1..];
      value := value / 100;
      n := n + 1;
    }
    assert all[..n] == all;
    assert buffer[offset..] == buffer[offset..offset + n] + buffer[offset + n..];
  }

  lemma WriteStep(all: seq<byte>, n: nat, value: nat)
    requires n <= |all| && value > 0 && all[n..] == Written(value)
    ensures n < |all| && all[n + 1..] == Written(value / 100) && all[..n + 1] == all[..n] + [BinToBcd(value % 100)]
  {
    assert all[n..][0] == all[n] && all[n..][1..] == all[n + 1..];
  }

  /** Returns 0 for a rejected buffer, which leaves `d` as it came in. */
  method ParseSg3Into(buf: seq<byte>, d0: real) returns (length: nat, d: real)
    ensures length == if ParseSg3(buf).Rejected? then 0 else 4
    ensures d == if ParseSg3(buf).Rejected? then d0 else ParseSg3(buf).d as real
  {
    if |buf| < 4 { return 0, d0; }
    var bad := FindInvalid(buf[..4], 0xee);
    if bad { return 4, -10.0; }
    var ok := TestBcd(buf[..4], 0);
    if !ok { return 0, d0; }
    var s := buf[3] / 16 % 2;
    var tmp := buf[..3] + [buf[3] % 16];
    d := BcdToDecimal(tmp, 0, 0xee);
    NoWrap(tmp);
    assert Pow10(0) == 1.0;
    if s == 1 { d := 0.0 - d; }
    return 4, d;
  }
}
