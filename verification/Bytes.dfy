/** Bytes, and the fixed-width little-endian integers of Node's Buffer. */
module Bytes {
  import opened NumberTheory

  type byte = bv8

  lemma ShiftIn(h: byte, bit: byte)
    requires h < 128 && bit <= 1
    ensures ((h << 1) | bit) as int == 2 * (h as int) + bit as int
  {}

  lemma SameValue(a: byte, b: byte)
    requires a as int == b as int
    ensures a == b
  {
    assert a == (a as int) as bv8;
  }

  lemma BelowAsInt(a: byte, n: byte)
    requires (a as int) < n as int
    ensures a < n
  {}

  lemma XorTwice(a: byte, b: byte)
    ensures (a ^ b) ^ b == a
  {}

  /** The byte with value `n`, built from its binary digits. */
  function ByteOf(n: nat): (b: byte)
    requires n < 256
    ensures b as int == n
  {
    if n == 0 then 0 else
      var h, bit := ByteOf(n / 2), if n % 2 == 1 then 1 else 0;
      BelowAsInt(h, 128);
      ShiftIn(h, bit);
      (h << 1) | bit
  }

  lemma ByteOfInt(b: byte)
    ensures 0 <= b as int < 256 && ByteOf(b as int) == b
  {
    SameValue(ByteOf(b as int), b);
  }

  function Power256(k: nat): (r: nat)
    ensures r >= 1
  {
    if k == 0 then 1 else 256 * Power256(k - 1)
  }

  lemma Widths()
    ensures Power256(3) == 0x100_0000
    ensures Power256(4) == 0x1_0000_0000
    ensures Power256(8) == 0x1_0000_0000_0000_0000
  {
    assert Power256(4) == 256 * Power256(3);
    assert Power256(8) == 256 * 256 * 256 * 256 * Power256(4) by {
      assert Power256(6) == 256 * 256 * Power256(4);
    }
  }

  /** The low `k` bytes of `n`, least significant first. */
  function PutLE(n: nat, k: nat): (s: seq<byte>)
    ensures |s| == k
  {
    if k == 0 then [] else [ByteOf(n % 256)] + PutLE(n / 256, k - 1)
  }

  function GetLE(s: seq<byte>): (n: nat) {
    if s == [] then 0 else s[0] as int + 256 * GetLE(s[1..])
  }

  lemma {:induction false} GetLEBound(s: seq<byte>)
    ensures GetLE(s) < Power256(|s|)
  {
    if s != [] { GetLEBound(s[1..]); }
  }

  lemma PutLEStep(lo: byte, hi: nat, k: nat)
    ensures PutLE(lo as int + 256 * hi, k + 1) == [lo] + PutLE(hi, k)
  {
    DivModUnique(lo as int + 256 * hi, hi, lo as int, 256);
    ByteOfInt(lo);
  }

  lemma {:induction false} GetPut(n: nat, k: nat)
    requires n < Power256(k)
    ensures GetLE(PutLE(n, k)) == n
  {
    if k > 0 {
      GetPut(n / 256, k - 1);
      assert PutLE(n, k)[1..] == PutLE(n / 256, k - 1);
    }
  }

  lemma GetLECons(b: byte, t: seq<byte>)
    ensures GetLE([b] + t) == b as int + 256 * GetLE(t)
  {
    assert ([b] + t)[1..] == t;
  }

  lemma Empties()
    ensures GetLE([]) == 0 && PutLE(0, 0) == []
  {}

  /** Four bytes, least significant first. */
  lemma FourValues(a: byte, b: byte, c: byte, d: byte)
    ensures GetLE([a, b, c, d]) == a as int + 0x100 * (b as int) + 0x1_0000 * (c as int) + 0x100_0000 * (d as int)
  {
    assert [a, b, c, d] == [a] + [b, c, d] && [b, c, d] == [b] + [c, d] && [c, d] == [c] + [d];
    GetLECons(a, [b, c, d]);
    GetLECons(b, [c, d]);
    GetLECons(c, [d]);
    assert [d] == [d] + [];
    GetLECons(d, []);
    Empties();
  }

  lemma EightValues(s: seq<byte>)
    requires |s| == 8
    ensures GetLE(s) == GetLE(s[..4]) + 0x1_0000_0000 * GetLE(s[4..])
  {
    hide GetLE;
    var t := s[4..];
    assert s == [s[0]] + ([s[1]] + ([s[2]] + ([s[3]] + t))) && s[..4] == [s[0], s[1], s[2], s[3]];
    FourValues(s[0], s[1], s[2], s[3]);
    GetLECons(s[3], t);
    GetLECons(s[2], [s[3]] + t);
    GetLECons(s[1], [s[2]] + ([s[3]] + t));
    GetLECons(s[0], [s[1]] + ([s[2]] + ([s[3]] + t)));
  }

  lemma {:induction false} PutGet(s: seq<byte>)
    ensures PutLE(GetLE(s), |s|) == s
  {
    hide PutLE;
    hide GetLE;
    if s == [] {
      Empties();
    } else {
      var b, t := s[0], s[1..];
      assert s == [b] + t;
      GetLECons(b, t);
      PutLEStep(b, GetLE(t), |t|);
      PutGet(t);
    }
  }

  /** Four bytes are the same as the word they spell. */
  lemma WordBytes(s: seq<byte>)
    requires |s| == 4
    ensures PutLE(s[0] as int + 0x100 * (s[1] as int) + 0x1_0000 * (s[2] as int) + 0x100_0000 * (s[3] as int), 4) == s
    ensures (forall t :: |t| == 4 ==> (GetLE(t) == GetLE(s) <==> t == s))
  {
    hide PutLE, GetLE;
    assert s == [s[0], s[1], s[2], s[3]];
    FourValues(s[0], s[1], s[2], s[3]);
    PutGet(s);
    forall t | |t| == 4
      ensures GetLE(t) == GetLE(s) <==> t == s
    {
      PutGet(t);
    }
  }

  // -------------------------------------------------------------- subarrays

  function Clamp(i: int, n: nat): (r: nat)
    ensures r <= n
  {
    if i > n then n else if i >= 0 then i else if n + i >= 0 then n + i else 0
  }

  /** `buf.subarray(from, to)`: bounds are clamped to the buffer, and negative ones count
      from its end. */
  function Subarray(s: seq<byte>, from: int, to: int): (r: seq<byte>)
    ensures |r| <= |s|
    ensures 0 <= from <= to <= |s| ==> r == s[from..to]
  {
    var lo, hi := Clamp(from, |s|), Clamp(to, |s|);
    if lo <= hi then s[lo..hi] else []
  }

  // ------------------------------------------------------- signed integers

  /** The integers that a signed word of `k` bytes can hold. */
  predicate Fits(v: int, k: nat) {
    0 <= 2 * v + Power256(k) && 2 * v < Power256(k)
  }

  lemma FitsMeans(v: int)
    ensures Fits(v, 4) <==> -0x8000_0000 <= v < 0x8000_0000
    ensures Fits(v, 8) <==> -0x8000_0000_0000_0000 <= v < 0x8000_0000_0000_0000
  {
    Widths();
  }

  /** Two's complement; Node throws a RangeError when `v` does not fit. */
  function PutInt(v: int, k: nat): (s: seq<byte>)
    requires Fits(v, k)
    ensures |s| == k
  {
    PutLE(if v < 0 then v + Power256(k) else v, k)
  }

  function GetInt(s: seq<byte>): (v: int)
    ensures Fits(v, |s|)
    ensures v == GetLE(s) || v == GetLE(s) - Power256(|s|)
  {
    GetLEBound(s);
    var w, m := GetLE(s), Power256(|s|);
    if 2 * w < m then w else w - m
  }

  lemma GetPutInt(v: int, k: nat)
    requires Fits(v, k)
    ensures GetInt(PutInt(v, k)) == v
  {
    GetPut(if v < 0 then v + Power256(k) else v, k);
  }

  lemma PutGetInt(s: seq<byte>)
    ensures PutInt(GetInt(s), |s|) == s
  {
    hide PutLE;
    GetLEBound(s);
    PutGet(s);
  }
}
