/** The CRC-32 of the Full transport (IEEE 802.3, section 3.2.9): the table-driven loop,
    the bit-by-bit division it stands for, and why it catches every four-byte burst.
    A word is the natural number whose binary digits are the word's bits. */
module Crc32 {
  import opened Bytes
  import opened NumberTheory

  // ------------------------------------------------------------- exclusive or

  function Xor(a: nat, b: nat): nat
    decreases a + b
  {
    if a == 0 && b == 0 then 0
    else 2 * Xor(a / 2, b / 2) + (if a % 2 != b % 2 then 1 else 0)
  }

  lemma XorParts(a: nat, b: nat)
    ensures Xor(a, b) / 2 == Xor(a / 2, b / 2)
    ensures Xor(a, b) % 2 == if a % 2 != b % 2 then 1 else 0
  {}

  lemma {:induction false} XorComm(a: nat, b: nat)
    ensures Xor(a, b) == Xor(b, a)
    decreases a + b
  {
    if a + b > 0 { XorComm(a / 2, b / 2); }
  }

  lemma {:induction false} XorZero(a: nat)
    ensures Xor(a, 0) == a && Xor(0, a) == a
  {
    if a > 0 { XorZero(a / 2); }
  }

  lemma {:induction false} XorAssoc(a: nat, b: nat, c: nat)
    ensures Xor(Xor(a, b), c) == Xor(a, Xor(b, c))
    decreases a + b + c
  {
    if a + b + c > 0 {
      XorAssoc(a / 2, b / 2, c / 2);
      XorParts(a, b);
      XorParts(b, c);
      XorParts(Xor(a, b), c);
      XorParts(a, Xor(b, c));
    }
  }

  lemma {:induction false} XorCancels(a: nat, b: nat)
    ensures Xor(a, b) == 0 <==> a == b
    decreases a + b
  {
    if a + b > 0 { XorCancels(a / 2, b / 2); }
  }

  lemma XorTwice(a: nat, b: nat)
    ensures Xor(Xor(a, b), b) == a
  {
    XorAssoc(a, b, b);
    XorCancels(b, b);
    XorZero(a);
  }

  lemma XorSwap(a: nat, b: nat, c: nat, d: nat)
    ensures Xor(Xor(a, b), Xor(c, d)) == Xor(Xor(a, c), Xor(b, d))
  {
    XorAssoc(a, b, Xor(c, d));
    XorAssoc(b, c, d);
    XorComm(b, c);
    XorAssoc(c, b, d);
    XorAssoc(a, c, Xor(b, d));
  }

  function Power2(k: nat): (p: nat)
    ensures p >= 1
  {
    if k == 0 then 1 else 2 * Power2(k - 1)
  }

  lemma {:induction false} XorBound(a: nat, b: nat, k: nat)
    requires a < Power2(k) && b < Power2(k)
    ensures Xor(a, b) < Power2(k)
  {
    if k > 0 { XorBound(a / 2, b / 2, k - 1); XorParts(a, b); }
  }

  /** Bits above and below position k do not meet. */
  lemma {:induction false} XorDisjoint(h: nat, l: nat, k: nat)
    requires l < Power2(k)
    ensures h * Power2(k) >= 0 && Xor(h * Power2(k), l) == h * Power2(k) + l
  {
    if k == 0 {
      XorZero(h);
    } else {
      var p := Power2(k - 1);
      assert h * (2 * p) == 2 * (h * p);
      XorDisjoint(h, l / 2, k - 1);
      XorParts(2 * (h * p), l);
    }
  }

  /** An unsigned 32-bit word. */
  predicate IsWord(c: nat) {
    c < 0x1_0000_0000
  }

  lemma Powers()
    ensures Power2(8) == 256 && Power2(32) == 0x1_0000_0000
  {
    assert Power2(4) == 16 && Power2(8) == 16 * Power2(4);
    assert Power2(12) == 16 * Power2(8) && Power2(16) == 16 * Power2(12);
    assert Power2(20) == 16 * Power2(16) && Power2(24) == 16 * Power2(20);
    assert Power2(28) == 16 * Power2(24) && Power2(32) == 16 * Power2(28);
  }

  lemma XorOfWords(a: nat, b: nat)
    requires IsWord(a) && IsWord(b)
    ensures IsWord(Xor(a, b))
  {
    Powers();
    XorBound(a, b, 32);
  }

  lemma BitAndRest(b: nat)
    ensures Xor(b % 2, 2 * (b / 2)) == b
  {
    XorDisjoint(b / 2, b % 2, 1);
    assert Power2(1) == 2;
    XorComm(b % 2, b / 2 * 2);
  }

  lemma ByteAndRest(b: nat, h: nat)
    requires b < 256
    ensures Xor(b, 256 * h) == b + 256 * h == Xor(256 * h, b)
  {
    hide Xor;
    hide Power2;
    Powers();
    XorDisjoint(h, b, 8);
    XorComm(b, h * 256);
  }

  // ------------------------------------------------------------ one bit at a time

  const POLYNOMIAL: nat := 0xedb8_8320
  const ONES: nat := 0xffff_ffff

  function Tap(c: nat): nat {
    if c % 2 == 1 then POLYNOMIAL else 0
  }

  /** One division step of the reflected register. */
  function Bit(c: nat): nat {
    Xor(c / 2, Tap(c))
  }

  function Bits(c: nat, n: nat): nat
    decreases n
  {
    if n == 0 then c else Bits(Bit(c), n - 1)
  }

  /** The reference: message bits enter the register one by one, least significant first. */
  function FeedBits(c: nat, b: nat, n: nat): nat
    decreases n
  {
    if n == 0 then c else FeedBits(Bit(Xor(c, b % 2)), b / 2, n - 1)
  }

  function BitwiseRegister(data: seq<byte>): nat {
    if data == [] then ONES
    else FeedBits(BitwiseRegister(data[..|data| - 1]), data[|data| - 1] as int, 8)
  }

  /** The CRC by bitwise division. */
  function BitwiseCrc(data: seq<byte>): nat {
    Xor(BitwiseRegister(data), ONES)
  }

  lemma BitLinear(c: nat, d: nat)
    ensures Bit(Xor(c, d)) == Xor(Bit(c), Bit(d))
  {
    XorParts(c, d);
    XorSwap(c / 2, d / 2, Tap(c), Tap(d));
    XorZero(POLYNOMIAL);
    XorZero(0);
    XorCancels(POLYNOMIAL, POLYNOMIAL);
    assert Tap(Xor(c, d)) == Xor(Tap(c), Tap(d));
  }

  lemma {:induction false} BitsLinear(c: nat, d: nat, n: nat)
    ensures Bits(Xor(c, d), n) == Xor(Bits(c, n), Bits(d, n))
    decreases n
  {
    hide Xor;
    if n > 0 {
      BitLinear(c, d);
      BitsLinear(Bit(c), Bit(d), n - 1);
    }
  }

  lemma {:induction false} BitsAdd(c: nat, m: nat, n: nat)
    ensures Bits(c, m + n) == Bits(Bits(c, m), n)
    decreases m
  {
    if m > 0 { BitsAdd(Bit(c), m - 1, n); }
  }

  lemma {:induction false} ZeroBits(h: nat, n: nat)
    ensures h * Power2(n) >= 0 && Bits(h * Power2(n), n) == h
  {
    hide Bit;
    if n > 0 {
      var p := Power2(n - 1);
      ZeroBits(h, n - 1);
      assert h * (2 * p) == 2 * (h * p);
      BitOfDouble(h * p);
    }
  }

  lemma BitOfDouble(c: nat)
    ensures Bit(2 * c) == c
  {
    XorZero(c);
  }

  lemma NoBits(c: nat)
    ensures Bits(c, 0) == c
  {}

  lemma ByteOfZeros(h: nat)
    ensures Bits(256 * h, 8) == h
  {
    hide Bits;
    hide Power2;
    Powers();
    ZeroBits(h, 8);
  }

  /** No word is lost: the division step is injective on words. */
  lemma BitInjective(c: nat, d: nat)
    requires IsWord(c) && IsWord(d) && Bit(c) == Bit(d)
    ensures c == d
  {
    var e := Xor(c, d);
    XorOfWords(c, d);
    BitLinear(c, d);
    XorCancels(Bit(c), Bit(d));
    XorCancels(e / 2, Tap(e));
    XorCancels(c, d);
  }

  lemma BitOfWord(c: nat)
    requires IsWord(c)
    ensures IsWord(Bit(c))
  {
    XorOfWords(c / 2, Tap(c));
  }

  lemma {:induction false} BitsInjective(c: nat, d: nat, n: nat)
    requires IsWord(c) && IsWord(d)
    ensures IsWord(Bits(c, n)) && IsWord(Bits(d, n))
    ensures Bits(c, n) == Bits(d, n) ==> c == d
    decreases n
  {
    if n > 0 {
      BitOfWord(c);
      BitOfWord(d);
      BitsInjective(Bit(c), Bit(d), n - 1);
      if Bit(c) == Bit(d) { BitInjective(c, d); }
    }
  }

  // ----------------------------------------------------- one byte at a time

  /** The register after one byte. */
  function Feed(c: nat, b: byte): nat {
    Bits(Xor(c, b as int), 8)
  }

  function Register(c: nat, data: seq<byte>): nat {
    if data == [] then c else Feed(Register(c, data[..|data| - 1]), data[|data| - 1])
  }

  function Crc(data: seq<byte>): nat {
    Xor(Register(ONES, data), ONES)
  }

  /** Feeding n bits serially is the same as adding them all first. */
  lemma {:induction false} SerialIsParallel(c: nat, b: nat, n: nat)
    requires b < Power2(n)
    ensures FeedBits(c, b, n) == Bits(Xor(c, b), n)
    decreases n
  {
    hide Xor;
    if n == 0 {
      XorZero(c);
    } else {
      var high, low := b / 2, b % 2;
      BitAndRest(b);
      XorAssoc(c, low, 2 * high);
      BitLinear(Xor(c, low), 2 * high);
      XorZero(high);
      assert 2 * high / 2 == high && Tap(2 * high) == 0;
      SerialIsParallel(Bit(Xor(c, low)), high, n - 1);
    }
  }

  lemma {:induction false} RegisterIsBitwise(data: seq<byte>)
    ensures Register(ONES, data) == BitwiseRegister(data)
  {
    if data != [] {
      var b := data[|data| - 1];
      RegisterIsBitwise(data[..|data| - 1]);
      Powers();
      SerialIsParallel(Register(ONES, data[..|data| - 1]), b as int, 8);
    }
  }

  lemma XorQuarter(a: nat, b: nat)
    ensures Xor(a, b) / 4 == Xor(a / 4, b / 4)
  {
    hide Xor;
    XorParts(a, b);
    XorParts(a / 2, b / 2);
    Halves(a);
    Halves(b);
    Halves(Xor(a, b));
  }

  lemma Halves(n: nat)
    ensures n / 2 / 2 == n / 4
  {}

  lemma Quarters(n: nat)
    ensures n / 4 / 4 == n / 16 && n / 16 / 4 == n / 64 && n / 64 / 4 == n / 256
  {}

  lemma XorShift(a: nat, b: nat)
    ensures Xor(a, b) / 256 == Xor(a / 256, b / 256)
  {
    hide Xor;
    Quarters(a);
    Quarters(b);
    Quarters(Xor(a, b));
    XorQuarter(a, b);
    XorQuarter(a / 4, b / 4);
    XorQuarter(a / 16, b / 16);
    XorQuarter(a / 64, b / 64);
  }

  /** The step of the table-driven loop. */
  lemma TableStep(c: nat, b: byte)
    ensures Feed(c, b) == Xor(c / 256, Bits(Xor(c, b as int) % 256, 8))
  {
    hide Xor;
    hide Bits;
    var x := Xor(c, b as int);
    XorShift(c, b as int);
    XorZero(c / 256);
    ByteAndRest(x % 256, x / 256);
    BitsLinear(256 * (x / 256), x % 256, 8);
    ByteOfZeros(x / 256);
  }

  // --------------------------------------------------------------- the code

  /** Entry i of the table holds eight division steps of i. */
  ghost predicate IsTable(table: seq<nat>) {
    |table| == 256 && forall i :: 0 <= i < 256 ==> table[i] == Bits(i, 8)
  }

  method BuildTable() returns (table: array<nat>)
    ensures fresh(table) && IsTable(table[..])
  {
    hide Xor;
    table := new nat[256];
    for i := 0 to 256
      invariant forall k :: 0 <= k < i ==> table[k] == Bits(k, 8)
    {
      ghost var entry := Bits(i, 8);
      var crc: nat := i;
      for j := 0 to 8
        invariant Bits(crc, 8 - j) == entry
        invariant forall k :: 0 <= k < i ==> table[k] == Bits(k, 8)
      {
        BitByParity(crc);
        ghost var next := Bit(crc);
        assert Bits(crc, 8 - j) == Bits(next, 7 - j);
        if crc % 2 == 1 {
          crc := Xor(crc / 2, POLYNOMIAL);
        } else {
          crc := crc / 2;
        }
        assert crc == next;
      }
      NoBits(crc);
      table[i] := crc;
    }
  }

  lemma BitByParity(c: nat)
    ensures Bit(c) == if c % 2 == 1 then Xor(c / 2, POLYNOMIAL) else c / 2
  {
    XorZero(c / 2);
  }

  /** Equals the bit-by-bit division on every buffer. */
  method ComputeCrc(table: array<nat>, data: seq<byte>) returns (result: nat)
    requires IsTable(table[..])
    ensures result == Crc(data) == BitwiseCrc(data)
  {
    var crc := ONES;
    for i := 0 to |data|
      invariant crc == Register(ONES, data[..i])
    {
      TableStep(crc, data[i]);
      var index := Xor(crc, data[i] as int) % 256;
      assert table[..][index] == table[index];
      crc := Xor(crc / 256, table[index]);
      assert data[..i + 1][..i] == data[..i];
    }
    assert data[..|data|] == data;
    RegisterIsBitwise(data);
    return Xor(crc, ONES);
  }

  // -------------------------------------------------------------- known values

  /** The powers of x in the generator of IEEE 802.3, x^32 apart, with x^0 as the top bit. */
  lemma PolynomialOfTheStandard()
    ensures POLYNOMIAL == Power2(31 - 0) + Power2(31 - 1) + Power2(31 - 2) + Power2(31 - 4) + Power2(31 - 5)
                        + Power2(31 - 7) + Power2(31 - 8) + Power2(31 - 10) + Power2(31 - 11) + Power2(31 - 12)
                        + Power2(31 - 16) + Power2(31 - 22) + Power2(31 - 23) + Power2(31 - 26)
  {
    assert Power2(5) == 32 && Power2(8) == 256 && Power2(9) == 512;
    assert Power2(15) == 64 * Power2(9);
    assert Power2(19) == 16 * Power2(15) && Power2(20) == 2 * Power2(19) && Power2(21) == 2 * Power2(20);
    assert Power2(23) == 4 * Power2(21) && Power2(24) == 2 * Power2(23);
    assert Power2(26) == 4 * Power2(24) && Power2(27) == 2 * Power2(26);
    assert Power2(29) == 4 * Power2(27) && Power2(30) == 2 * Power2(29) && Power2(31) == 2 * Power2(30);
  }

  /** Exclusive or with k ones is the complement. */
  lemma {:induction false} XorOnes(a: nat, k: nat)
    requires a < Power2(k)
    ensures Xor(a, Power2(k) - 1) == Power2(k) - 1 - a
  {
    if k == 0 {
      XorZero(0);
    } else {
      XorOnes(a / 2, k - 1);
      XorParts(a, Power2(k) - 1);
    }
  }

  lemma XorAllOnes(a: nat)
    requires IsWord(a)
    ensures Xor(a, ONES) == 0xffff_ffff - a == Xor(ONES, a)
  {
    Powers();
    XorOnes(a, 32);
    XorComm(a, ONES);
  }

  /** Two buffers whose CRC comes out by hand: one leaves an empty register, the other a
      single bit that meets the polynomial in the last step. */
  lemma KnownValues()
    ensures Crc([0xff, 0xff, 0xff, 0xff]) == BitwiseCrc([0xff, 0xff, 0xff, 0xff]) == 0xffff_ffff
    ensures Crc([0xff, 0xff, 0xff, 0x7f]) == BitwiseCrc([0xff, 0xff, 0xff, 0x7f]) == 0x1247_7cdf
  {
    hide Xor, Bits, Register, BitwiseRegister, GetLE;
    var v: seq<byte>, w: seq<byte> := [0xff, 0xff, 0xff, 0xff], [0xff, 0xff, 0xff, 0x7f];
    FourValues(0xff, 0xff, 0xff, 0xff);
    FourValues(0xff, 0xff, 0xff, 0x7f);
    RegisterOfWord(ONES, v);
    RegisterOfWord(ONES, w);
    XorAllOnes(0xffff_ffff);
    XorAllOnes(0x7fff_ffff);
    LastBit();
    XorAllOnes(0);
    XorAllOnes(POLYNOMIAL);
    RegisterIsBitwise(v);
    RegisterIsBitwise(w);
  }

  lemma LastBit()
    ensures Bits(0x8000_0000, 32) == POLYNOMIAL && Bits(0, 32) == 0
  {
    hide Bits, Power2, Bit, Xor;
    HalfOfPower();
    ZeroBits(1, 31);
    ZeroBits(0, 32);
    BitsAdd(0x8000_0000, 31, 1);
    OneBit(1);
    BitByParity(1);
    XorZero(POLYNOMIAL);
  }

  lemma HalfOfPower()
    ensures Power2(31) == 0x8000_0000
  {
    Powers();
    assert Power2(32) == 2 * Power2(31);
  }

  lemma OneBit(c: nat)
    ensures Bits(c, 1) == Bit(c)
  {
    NoBits(Bit(c));
  }

  // ---------------------------------------------------------- burst detection

  lemma {:induction false} RegisterConcat(c: nat, a: seq<byte>, b: seq<byte>)
    ensures Register(c, a + b) == Register(Register(c, a), b)
  {
    if b == [] {
      assert a + b == a;
    } else {
      var n := |b| - 1;
      assert (a + b)[..|a + b| - 1] == a + b[..n];
      RegisterConcat(c, a, b[..n]);
    }
  }

  lemma FeedInjective(r: nat, t: nat, b: byte)
    requires IsWord(r) && IsWord(t)
    ensures IsWord(Feed(r, b)) && (Feed(r, b) == Feed(t, b) ==> r == t)
  {
    XorOfWords(r, b as int);
    XorOfWords(t, b as int);
    BitsInjective(Xor(r, b as int), Xor(t, b as int), 8);
    XorTwice(r, b as int);
    XorTwice(t, b as int);
  }

  /** Equal bytes keep different registers different. */
  lemma {:induction false} RegisterInjective(c: nat, d: nat, data: seq<byte>)
    requires IsWord(c) && IsWord(d)
    ensures IsWord(Register(c, data)) && IsWord(Register(d, data))
    ensures Register(c, data) == Register(d, data) ==> c == d
  {
    if data != [] {
      var n := |data| - 1;
      RegisterInjective(c, d, data[..n]);
      FeedInjective(Register(c, data[..n]), Register(d, data[..n]), data[n]);
      FeedInjective(Register(d, data[..n]), Register(c, data[..n]), data[n]);
    }
  }

  /** k bytes enter the register as one little-endian word. */
  lemma {:induction false} RegisterOfWord(c: nat, w: seq<byte>)
    ensures Register(c, w) == Bits(Xor(c, GetLE(w)), 8 * |w|)
    decreases w
  {
    hide Xor;
    hide Bits;
    if w == [] {
      XorZero(c);
      NoBits(c);
    } else {
      var b, rest := w[0] as int, w[1..];
      var h := GetLE(rest);
      assert w == [w[0]] + rest;
      RegisterConcat(c, [w[0]], rest);
      assert [w[0]][..0] == [];
      RegisterOfWord(Feed(c, w[0]), rest);
      ByteAndRest(b, h);
      XorAssoc(c, b, 256 * h);
      BitsLinear(Xor(c, b), 256 * h, 8);
      ByteOfZeros(h);
      BitsAdd(Xor(c, b + 256 * h), 8, 8 * |rest|);
    }
  }

  /** The frame ends with the little-endian CRC of what comes before. */
  ghost predicate EndsWithCrc(frame: seq<byte>)
    requires |frame| >= 4
  {
    GetLE(frame[|frame| - 4..]) == Crc(frame[..|frame| - 4])
  }

  lemma FourBytes(w: seq<byte>)
    requires |w| == 4
    ensures IsWord(GetLE(w))
  {
    GetLEBound(w);
    Widths();
  }

  lemma XorSolve(r: nat, w: nat, x: nat)
    ensures Xor(r, w) == x <==> w == Xor(r, x)
  {
    XorComm(r, w);
    XorTwice(w, r);
    XorComm(x, r);
    XorTwice(x, r);
  }

  /** The CRC is right exactly when the whole frame leaves one fixed register. */
  lemma FixedResidue(frame: seq<byte>)
    requires |frame| >= 4
    ensures EndsWithCrc(frame) <==> Register(ONES, frame) == Bits(ONES, 32)
  {
    hide Register, Bits, Xor, GetLE, IsWord;
    var body, tail := frame[..|frame| - 4], frame[|frame| - 4..];
    assert frame == body + tail;
    RegisterConcat(ONES, body, tail);
    AllOnesIsWord();
    RegisterInjective(ONES, ONES, body);
    WordFixesRegister(Register(ONES, body), tail);
  }

  lemma AllOnesIsWord()
    ensures IsWord(ONES)
  {}

  /** A word takes the register to the fixed one exactly when it is the complement. */
  lemma WordFixesRegister(r: nat, w: seq<byte>)
    requires IsWord(r) && |w| == 4
    ensures Register(r, w) == Bits(ONES, 32) <==> GetLE(w) == Xor(r, ONES)
  {
    hide Register, Bits, Xor, GetLE, IsWord;
    AllOnesIsWord();
    RegisterOfWord(r, w);
    FourBytes(w);
    XorOfWords(r, GetLE(w));
    BitsInjective(Xor(r, GetLE(w)), ONES, 32);
    XorSolve(r, GetLE(w), ONES);
  }

  /** The same length, and the same bytes outside [i, i + 4). */
  ghost predicate DifferWithin(f: seq<byte>, g: seq<byte>, i: nat) {
    && i + 4 <= |f| == |g|
    && f[..i] == g[..i]
    && f[i + 4..] == g[i + 4..]
  }

  lemma WindowSplit(f: seq<byte>, i: nat)
    requires i + 4 <= |f|
    ensures Register(ONES, f) == Register(Register(Register(ONES, f[..i]), f[i..i + 4]), f[i + 4..])
  {
    hide Register;
    assert f == f[..i] + f[i..i + 4] + f[i + 4..];
    RegisterConcat(ONES, f[..i] + f[i..i + 4], f[i + 4..]);
    RegisterConcat(ONES, f[..i], f[i..i + 4]);
  }

  /** Different four-byte words take one register to different ones. */
  lemma WordInjective(r: nat, v: seq<byte>, w: seq<byte>)
    requires IsWord(r) && |v| == |w| == 4
    ensures Register(r, v) == Register(r, w) ==> v == w
  {
    hide Xor;
    hide Bits;
    RegisterOfWord(r, v);
    RegisterOfWord(r, w);
    FourBytes(v);
    FourBytes(w);
    XorOfWords(r, GetLE(v));
    XorOfWords(r, GetLE(w));
    BitsInjective(Xor(r, GetLE(v)), Xor(r, GetLE(w)), 32);
    XorSolve(r, GetLE(v), Xor(r, GetLE(w)));
    XorSolve(r, GetLE(w), Xor(r, GetLE(w)));
    PutGet(v);
    PutGet(w);
  }

  /** Any change confined to four consecutive bytes is detected. */
  lemma BurstIsDetected(f: seq<byte>, g: seq<byte>, i: nat)
    requires |f| >= 4 && EndsWithCrc(f) && DifferWithin(f, g, i) && f != g
    ensures !EndsWithCrc(g)
  {
    hide Register;
    hide Xor;
    hide Bits;
    var v, w, r := f[i..i + 4], g[i..i + 4], Register(ONES, f[..i]);
    FixedResidue(f);
    FixedResidue(g);
    WindowSplit(f, i);
    WindowSplit(g, i);
    RegisterInjective(ONES, ONES, f[..i]);
    RegisterInjective(r, r, v);
    RegisterInjective(r, r, w);
    RegisterInjective(Register(r, v), Register(r, w), f[i + 4..]);
    WordInjective(r, v, w);
    assert f == f[..i] + v + f[i + 4..];
    assert g == g[..i] + w + g[i + 4..];
  }
}
