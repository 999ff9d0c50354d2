/** The number/byte conversions of the key exchange, which go through hexadecimal text,
    and the auth key that both ends of the exchange compute. */
module AuthKey {
  import opened Bytes
  import opened NumberTheory

  ghost predicate AreDigits(s: seq<nat>) {
    forall i :: 0 <= i < |s| ==> s[i] < 16
  }

  /** `value.toString(16)`, digit by digit. */
  function HexDigits(v: nat): (s: seq<nat>)
    ensures s != [] && AreDigits(s)
  {
    if v < 16 then [v] else HexDigits(v / 16) + [v % 16]
  }

  function HexValue(s: seq<nat>): nat {
    if s == [] then 0 else 16 * HexValue(s[..|s| - 1]) + s[|s| - 1]
  }

  function Zeros(n: nat): (s: seq<nat>)
    ensures |s| == n && AreDigits(s)
  {
    seq(n, _ => 0)
  }

  function PadStart(s: seq<nat>, n: nat): seq<nat> {
    if |s| >= n then s else Zeros(n - |s|) + s
  }

  /** `Buffer.from(s, 'hex')`, which ignores an unpaired last digit. */
  function FromHex(s: seq<nat>): (b: seq<byte>)
    requires AreDigits(s)
    ensures |b| == |s| / 2
  {
    if |s| < 2 then [] else [ByteOf(16 * s[0] + s[1])] + FromHex(s[2..])
  }

  /** `buf.toString('hex')` */
  function ToHex(b: seq<byte>): (s: seq<nat>)
    ensures |s| == 2 * |b|
  {
    if b == [] then [] else [b[0] as int / 16, b[0] as int % 16] + ToHex(b[1..])
  }

  function BytesToBigint(b: seq<byte>): nat {
    if b == [] then 0 else HexValue(ToHex(b))
  }

  /** The digits, with a zero in front when their number is odd. */
  function EvenDigits(v: nat): (s: seq<nat>)
    ensures |s| % 2 == 0 && |s| >= 2 && AreDigits(s)
  {
    var hex := HexDigits(v);
    if |hex| % 2 == 0 then hex else Zeros(1) + hex
  }

  function BigintToBytes(v: nat): seq<byte> {
    if v == 0 then [0] else FromHex(EvenDigits(v))
  }

  function BigintToFixedBuffer(v: nat, length: nat): seq<byte> {
    FromHex(PadStart(HexDigits(v), length * 2))
  }

  // ------------------------------------------------------------- round trips

  lemma {:induction false} ToHexFromHex(s: seq<nat>)
    requires AreDigits(s)
    ensures ToHex(FromHex(s)) == s[..|s| - |s| % 2]
  {
    hide ToHex, ByteOf;
    HexOfNothing();
    if |s| >= 2 {
      var t := s[2..];
      ToHexFromHex(t);
      HexOfByte(s[0], s[1], FromHex(t));
      EvenPart(s);
    }
  }

  lemma EvenPart(s: seq<nat>)
    requires |s| >= 2
    ensures s[..|s| - |s| % 2] == [s[0], s[1]] + s[2..][..|s[2..]| - |s[2..]| % 2]
  {}

  lemma HexOfByte(hi: nat, lo: nat, rest: seq<byte>)
    requires hi < 16 && lo < 16
    ensures ToHex([ByteOf(16 * hi + lo)] + rest) == [hi, lo] + ToHex(rest)
  {
    var b := [ByteOf(16 * hi + lo)] + rest;
    assert b[1..] == rest;
    DivModUnique(16 * hi + lo, hi, lo, 16);
  }

  lemma {:induction false} HexValueOfDigits(v: nat)
    ensures HexValue(HexDigits(v)) == v
  {
    var s := HexDigits(v);
    if v < 16 {
      assert s[..0] == [] && HexValue([]) == 0;
    } else {
      HexValueOfDigits(v / 16);
      assert s[..|s| - 1] == HexDigits(v / 16);
    }
  }

  lemma {:induction false} LeadingZeros(n: nat, s: seq<nat>)
    ensures HexValue(Zeros(n) + s) == HexValue(s)
    decreases |s|, n
  {
    var t := Zeros(n) + s;
    if s != [] {
      LeadingZeros(n, s[..|s| - 1]);
      assert t[..|t| - 1] == Zeros(n) + s[..|s| - 1];
    } else if n > 0 {
      LeadingZeros(n - 1, s);
      assert t[..|t| - 1] == Zeros(n - 1) + s;
    }
  }

  lemma {:induction false} HexLength(v: nat, k: nat)
    requires k >= 1
    ensures |HexDigits(v)| <= k <==> v < Pow(16, k)
  {
    assert Pow(16, k) == 16 * Pow(16, k - 1);
    if k == 1 {
      assert Pow(16, 0) == 1;
      if v >= 16 { assert |HexDigits(v / 16)| >= 1; }
    } else if v >= 16 {
      HexLength(v / 16, k - 1);
    } else {
      PowPositive(16, k - 1);
    }
  }

  lemma {:induction false} BytePowers(k: nat)
    ensures Power256(k) == Pow(16, 2 * k) == Pow(2, 8 * k)
  {
    if k > 0 {
      BytePowers(k - 1);
      PowAdd(16, 2, 2 * (k - 1));
      PowAdd(2, 8, 8 * (k - 1));
      assert Pow(16, 2) == 16 * Pow(16, 1) == 256;
      assert Pow(2, 8) == 2 * 2 * 2 * 2 * Pow(2, 4) && Pow(2, 4) == 2 * 2 * 2 * Pow(2, 1) == 16;
    }
  }

  lemma DecodeHex(s: seq<nat>)
    requires AreDigits(s) && |s| >= 2
    ensures BytesToBigint(FromHex(s)) == HexValue(if |s| % 2 == 0 then s else s[..|s| - 1])
  {
    hide ToHex, FromHex, HexValue;
    ToHexFromHex(s);
    assert s[..|s|] == s;
  }

  lemma EvenDigitsValue(v: nat)
    ensures HexValue(EvenDigits(v)) == v
    ensures v > 0 ==> 16 * EvenDigits(v)[0] + EvenDigits(v)[1] > 0
  {
    HexValueOfDigits(v);
    LeadingZeros(1, HexDigits(v));
    if v > 0 { FirstDigit(v); }
  }

  /** The minimal encoding decodes to the same number and has no leading zero byte. */
  lemma MinimalRoundTrip(v: nat)
    ensures BytesToBigint(BigintToBytes(v)) == v
    ensures v > 0 ==> BigintToBytes(v)[0] != 0
  {
    var s := EvenDigits(v);
    EvenDigitsValue(v);
    DecodeHex(s);
    assert v > 0 ==> BigintToBytes(v) == FromHex(s);
    if v == 0 {
      assert FromHex(s) == [0] by {
        assert s == [0, 0];
        ByteOfInt(0);
        assert FromHex(s[2..]) == [];
      }
    } else {
      assert FromHex(s)[0] == ByteOf(16 * s[0] + s[1]);
    }
  }

  lemma {:induction false} FirstDigit(v: nat)
    requires v > 0
    ensures HexDigits(v)[0] != 0
  {
    if v >= 16 { FirstDigit(v / 16); }
  }

  /** Most significant byte first. */
  lemma BigEndian(b: seq<byte>, last: byte)
    ensures BytesToBigint(b + [last]) == 256 * BytesToBigint(b) + last as int
  {
    hide ToHex, HexValue;
    var hi, lo := last as int / 16, last as int % 16;
    ToHexSnoc(b, last);
    HexValueSnoc(ToHex(b) + [hi], lo);
    HexValueSnoc(ToHex(b), hi);
    assert ToHex(b) + [hi, lo] == ToHex(b) + [hi] + [lo];
    HexOfNothing();
  }

  lemma HexOfNothing()
    ensures ToHex([]) == [] && HexValue([]) == 0
  {}

  lemma HexValueSnoc(s: seq<nat>, d: nat)
    ensures HexValue(s + [d]) == 16 * HexValue(s) + d
  {
    assert (s + [d])[..|s|] == s;
  }

  lemma {:induction false} ToHexSnoc(b: seq<byte>, last: byte)
    ensures ToHex(b + [last]) == ToHex(b) + [last as int / 16, last as int % 16]
  {
    hide ToHex;
    HexOfNothing();
    if b == [] {
      assert b + [last] == [last] + [];
      ToHexCons(last, []);
    } else {
      ToHexSnoc(b[1..], last);
      assert b + [last] == [b[0]] + (b[1..] + [last]) && b == [b[0]] + b[1..];
      ToHexCons(b[0], b[1..] + [last]);
      ToHexCons(b[0], b[1..]);
    }
  }

  lemma ToHexCons(first: byte, b: seq<byte>)
    ensures ToHex([first] + b) == [first as int / 16, first as int % 16] + ToHex(b)
  {
    assert ([first] + b)[1..] == b;
  }

  /** The fixed-length encoding has that length and decodes back exactly when the number fits. */
  lemma FixedRoundTrip(v: nat, length: nat)
    requires length >= 1
    ensures (|BigintToFixedBuffer(v, length)| == length && BytesToBigint(BigintToFixedBuffer(v, length)) == v)
       <==> v < Power256(length)
  {
    hide HexDigits, HexValue, FromHex, ToHex, Pow, Power256;
    var hex := HexDigits(v);
    HexLength(v, 2 * length);
    BytePowers(length);
    DecodeHex(PadStart(hex, length * 2));
    HexValueOfDigits(v);
    if |hex| <= 2 * length {
      PadStartValue(hex, 2 * length);
    } else if |hex| % 2 == 1 {
      HexLength(v, 1);
      assert Pow(16, 1) == 16 by { OneFactor(); }
      DropLastDigit(v);
    }
  }

  lemma PadStartValue(s: seq<nat>, n: nat)
    requires |s| <= n
    ensures |PadStart(s, n)| == n && HexValue(PadStart(s, n)) == HexValue(s)
  {
    LeadingZeros(n - |s|, s);
  }

  lemma OneFactor()
    ensures Pow(16, 1) == 16
  {}

  lemma DropLastDigit(v: nat)
    requires v >= 16
    ensures HexValue(HexDigits(v)[..|HexDigits(v)| - 1]) < v
  {
    HexValueOfDigits(v / 16);
    var s := HexDigits(v);
    assert s[..|s| - 1] == HexDigits(v / 16);
  }

  // ------------------------------------------------------------- the auth key

  /** What the client computes from the server's g_a and its own b, and the server from
      the client's g_b and its own a: `modPow(peer, secret, p)` in 256 bytes. */
  function SharedKey(peer: int, secret: nat, p: int): seq<byte>
    requires p > 0
  {
    BigintToFixedBuffer(Pow(peer, secret) % p, 256)
  }

  /** Client and server hold the same 256-byte key, which decodes to g^(ab) mod p. */
  lemma AuthKeysAgree(g: int, a: nat, b: nat, p: int)
    requires 0 < p < Pow(2, 2048)
    ensures var client := SharedKey(Pow(g, a) % p, b, p);
            && client == SharedKey(Pow(g, b) % p, a, p)
            && |client| == 256
            && a * b >= 0 && BytesToBigint(client) == Pow(g, a * b) % p
  {
    PowMod(Pow(g, a), b, p);
    PowMod(Pow(g, b), a, p);
    PowPow(g, a, b);
    PowPow(g, b, a);
    assert a * b == b * a;
    BytePowers(256);
    FixedRoundTrip(Pow(g, a * b) % p, 256);
  }
}
