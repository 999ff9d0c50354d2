/** The AES-CTR obfuscation around a transport (counter mode: NIST SP 800-38A, section 6.5)
    and the 64-byte init that carries its keys. AES itself is a parameter: the bytes that a
    key and an IV produce. */
module Obfuscation {
  import opened Buffers
  import opened Bytes
  import opened Framing
  import opened Options
  import opened Transports
  import FramingTheorems

  type Keystream = nat -> byte

  /** `data` under the keystream from position `pos` on. */
  function Xored(ks: Keystream, pos: nat, data: seq<byte>): (r: seq<byte>)
    ensures |r| == |data|
  {
    seq(|data|, i requires 0 <= i < |data| => data[i] ^ ks(pos + i))
  }

  lemma XoredTwice(ks: Keystream, pos: nat, data: seq<byte>)
    ensures Xored(ks, pos, Xored(ks, pos, data)) == data
  {
    var once := Xored(ks, pos, data);
    var twice := Xored(ks, pos, once);
    forall i | 0 <= i < |data|
      ensures twice[i] == data[i]
    {
      XorTwice(data[i], ks(pos + i));
    }
  }

  lemma XoredConcat(ks: Keystream, pos: nat, a: seq<byte>, b: seq<byte>)
    ensures Xored(ks, pos, a + b) == Xored(ks, pos, a) + Xored(ks, pos + |a|, b)
  {}

  /** One cipher object: separate positions for the two directions. */
  class AesCtr {
    const ks: Keystream
    var encrypted: nat
    var decrypted: nat

    constructor (ks: Keystream)
      ensures this.ks == ks && encrypted == 0 && decrypted == 0
    {
      this.ks := ks;
      encrypted, decrypted := 0, 0;
    }

    method Encrypt(data: seq<byte>) returns (r: seq<byte>)
      modifies this`encrypted
      ensures r == Xored(ks, old(encrypted), data) && encrypted == old(encrypted) + |data|
      ensures forall i :: 0 <= i < |data| ==> r[i] == data[i] ^ ks(old(encrypted) + i)
    {
      r := Xored(ks, encrypted, data);
      encrypted := encrypted + |data|;
    }

    method Decrypt(data: seq<byte>) returns (r: seq<byte>)
      modifies this`decrypted
      ensures r == Xored(ks, old(decrypted), data) && decrypted == old(decrypted) + |data|
      ensures forall i :: 0 <= i < |data| ==> r[i] == data[i] ^ ks(old(decrypted) + i)
    {
      r := Xored(ks, decrypted, data);
      decrypted := decrypted + |data|;
    }
  }

  // ----------------------------------------------------------------- the init

  /** The words listed as banned first bytes. */
  const BANNED: set<nat> := {
    0x4441_4548, 0x5453_4f50, 0x2054_4547, 0x4954_504f, 0xdddd_dddd, 0xeeee_eeee, 0x0201_0316
  }

  function Reverse(s: seq<byte>): (r: seq<byte>)
    ensures |r| == |s|
  {
    if s == [] then [] else Reverse(s[1..]) + [s[0]]
  }

  /** readUInt32BE */
  function GetBE(s: seq<byte>): nat {
    GetLE(Reverse(s))
  }

  /** Whether a draw is tried again. */
  predicate Rejected(b: seq<byte>)
    requires |b| == 64
  {
    b[0] == 0xef || GetBE(b[..4]) in BANNED || GetLE(b[4..8]) == 0
  }

  lemma ReverseFour(a: byte, b: byte, c: byte, d: byte)
    ensures Reverse([a, b, c, d]) == [d, c, b, a]
  {
    assert [d][1..] == [] && Reverse([d]) == [d];
    assert [c, d][1..] == [d] && Reverse([c, d]) == [d, c];
    assert [b, c, d][1..] == [c, d] && Reverse([b, c, d]) == [d, c, b];
    assert [a, b, c, d][1..] == [b, c, d];
  }

  function Word(a: byte, b: byte, c: byte, d: byte): nat {
    a as int + 0x100 * (b as int) + 0x1_0000 * (c as int) + 0x100_0000 * (d as int)
  }

  lemma BytesOfWord(a: byte, b: byte, c: byte, d: byte)
    ensures PutLE(Word(a, b, c, d), 4) == [a, b, c, d]
    ensures GetBE([a, b, c, d]) == Word(d, c, b, a)
  {
    hide PutLE, GetLE, Reverse;
    FourValues(a, b, c, d);
    PutGet([a, b, c, d]);
    ReverseFour(a, b, c, d);
    FourValues(d, c, b, a);
  }

  lemma BytesOfBanned(w: nat)
    requires w in BANNED
    ensures GetBE(PutLE(w, 4)) in BANNED <==> w == 0xdddd_dddd || w == 0xeeee_eeee
    ensures PutLE(w, 4)[0] != 0xef
  {
    hide PutLE, GetBE;
    BytesOfWord(0x48, 0x45, 0x41, 0x44);  // HEAD
    BytesOfWord(0x50, 0x4f, 0x53, 0x54);  // POST
    BytesOfWord(0x47, 0x45, 0x54, 0x20);  // GET
    BytesOfWord(0x4f, 0x50, 0x54, 0x49);  // OPTI
    BytesOfWord(0x16, 0x03, 0x01, 0x02);  // a TLS record
    BytesOfWord(0xdd, 0xdd, 0xdd, 0xdd);
    BytesOfWord(0xee, 0xee, 0xee, 0xee);
  }

  /** The listed words spell HEAD, POST, GET, OPTI and a TLS record when their bytes are
      taken least significant first, but the test reads the draw most significant first.
      So of the prefixes the list is meant to ban only the two whose bytes are all equal
      are; a draw that starts with HEAD is sent. */
  lemma OnlyPalindromesAreBanned(w: nat, rest: seq<byte>)
    requires w in BANNED && |rest| == 60 && GetLE(rest[..4]) != 0
    ensures Rejected(PutLE(w, 4) + rest) <==> w == 0xdddd_dddd || w == 0xeeee_eeee
  {
    hide PutLE, GetLE, GetBE;
    var b := PutLE(w, 4) + rest;
    assert b[..4] == PutLE(w, 4) && b[4..8] == rest[..4];
    BytesOfBanned(w);
  }

  lemma {:induction false} ReverseAt(s: seq<byte>, i: nat)
    requires i < |s|
    ensures Reverse(s)[i] == s[|s| - 1 - i]
  {
    if i < |s| - 1 { ReverseAt(s[1..], i); }
  }

  lemma {:induction false} ReverseConcat(a: seq<byte>, b: seq<byte>)
    ensures Reverse(a + b) == Reverse(b) + Reverse(a)
  {
    if a == [] {
      assert a + b == b;
    } else {
      ReverseConcat(a[1..], b);
      assert (a + b)[1..] == a[1..] + b;
    }
  }

  lemma ReverseSplit(a: seq<byte>, b: seq<byte>)
    ensures Reverse(a + b)[..|b|] == Reverse(b) && Reverse(a + b)[|b|..] == Reverse(a)
  {
    hide Reverse;
    ReverseConcat(a, b);
    InFrontAndBehind(Reverse(b), Reverse(a));
  }

  lemma InFrontAndBehind(a: seq<byte>, b: seq<byte>)
    ensures (a + b)[..|a|] == a && (a + b)[|a|..] == b
  {}

  /** The first four bytes of the draws that the list rejects, in the order they are sent. */
  const BANNED_STARTS: set<seq<byte>> := {
    [0x44, 0x41, 0x45, 0x48], [0x54, 0x53, 0x4f, 0x50], [0x20, 0x54, 0x45, 0x47], [0x49, 0x54, 0x50, 0x4f],
    [0xdd, 0xdd, 0xdd, 0xdd], [0xee, 0xee, 0xee, 0xee], [0x02, 0x01, 0x03, 0x16]
  }

  /** A draw is tried again when it looks like the Abridged marker, starts with one of these
      words, or has four zero bytes behind the first word. */
  lemma RejectedMeans(b: seq<byte>)
    requires |b| == 64
    ensures Rejected(b) <==> b[0] == 0xef || b[..4] in BANNED_STARTS || b[4..8] == [0, 0, 0, 0]
  {
    hide GetLE, GetBE;
    StartIs(b[..4], 0x44, 0x41, 0x45, 0x48);
    StartIs(b[..4], 0x54, 0x53, 0x4f, 0x50);
    StartIs(b[..4], 0x20, 0x54, 0x45, 0x47);
    StartIs(b[..4], 0x49, 0x54, 0x50, 0x4f);
    StartIs(b[..4], 0xdd, 0xdd, 0xdd, 0xdd);
    StartIs(b[..4], 0xee, 0xee, 0xee, 0xee);
    StartIs(b[..4], 0x02, 0x01, 0x03, 0x16);
    WordIs(b[4..8], 0, 0, 0, 0);
  }

  lemma StartIs(t: seq<byte>, a: byte, b: byte, c: byte, d: byte)
    requires |t| == 4
    ensures GetBE(t) == Word(d, c, b, a) <==> t == [a, b, c, d]
  {
    hide GetLE, Reverse;
    assert t == [t[0], t[1], t[2], t[3]];
    ReverseFour(t[0], t[1], t[2], t[3]);
    WordIs([t[3], t[2], t[1], t[0]], d, c, b, a);
  }

  lemma WordIs(t: seq<byte>, a: byte, b: byte, c: byte, d: byte)
    requires |t| == 4
    ensures GetLE(t) == Word(a, b, c, d) <==> t == [a, b, c, d]
  {
    hide GetLE, PutLE;
    FourValues(a, b, c, d);
    PutGet(t);
    PutGet([a, b, c, d]);
  }

  /** What the init leaves behind: the 64 bytes to send and the two ciphers. */
  datatype Init = Init(initBytes: array<byte>, encryptor: AesCtr, decryptor: AesCtr)

  /** `draws` are the random 64-byte blocks in the order drawn, `aes` the keystream of a key
      and an IV. None when every draw is rejected. */
  method GenerateObfuscatedInit(magic: nat, draws: seq<seq<byte>>, aes: (seq<byte>, seq<byte>) -> Keystream)
    returns (r: Option<Init>)
    requires magic < 0x1_0000_0000
    requires forall d :: d in draws ==> |d| == 64
    ensures r.None? <==> forall d :: d in draws ==> Rejected(d)
    ensures r.Some? ==> exists i :: 0 <= i < |draws| && !Rejected(draws[i]) && (forall j :: 0 <= j < i ==> Rejected(draws[j]))
                                    && InitFrom(magic, draws[i], aes, r.value.initBytes[..]) && KeyedFrom(draws[i], aes, r.value)
    ensures (r.Some? ==>
             var sent, enc, dec := r.value.initBytes[..], r.value.encryptor, r.value.decryptor;
             && |sent| == 64 && enc.encrypted == 64 && dec.decrypted == 0
             && enc.ks == aes(sent[8..40], sent[40..56])
             && dec.ks == aes(Reverse(sent[24..56]), Reverse(sent[8..24]))
             && forall j :: 0 <= j < 4 ==> sent[56 + j] == PutLE(magic, 4)[j] ^ enc.ks(56 + j))
  {
    hide GetLE, Rejected, PutLE, Reverse, Xored;
    var i := 0;
    while i < |draws|
      invariant i <= |draws|
      invariant forall j :: 0 <= j < i ==> Rejected(draws[j])
    {
      if !Rejected(draws[i]) { break; }
      i := i + 1;
    }
    if i == |draws| { return None; }

    var draw := draws[i];
    var initBytes := new byte[64];
    CopyInto(draw, initBytes, 0);
    assert initBytes[..] == draw;
    assert initBytes[8..40] == draw[8..40] && initBytes[40..56] == draw[40..56] && initBytes[8..56] == draw[8..56];
    var encryptKey, encryptIv := initBytes[8..40], initBytes[40..56];
    var reversed := Reverse(initBytes[8..56]);
    var encryptor := new AesCtr(aes(encryptKey, encryptIv));
    var decryptor := new AesCtr(aes(reversed[..32], reversed[32..]));
    CopyInto(PutLE(magic, 4), initBytes, 56);
    ghost var plain := initBytes[..];
    assert plain == draw[..56] + PutLE(magic, 4) + draw[60..] by {
      assert draw[56 + 4..] == draw[60..];
    }
    var encrypted := encryptor.Encrypt(initBytes[..]);
    CopyInto(encrypted[56..64], initBytes, 56);
    assert initBytes[..] == draw[..56] + encrypted[56..64];
    assert InitFrom(magic, draws[i], aes, initBytes[..]);
    KeysInTheInit(magic, draw, aes, initBytes[..]);
    return Some(Init(initBytes, encryptor, decryptor));
  }

  /** The ciphers are keyed from the draw, one way and reversed, and the encryptor has moved
      past the init. */
  ghost predicate KeyedFrom(draw: seq<byte>, aes: (seq<byte>, seq<byte>) -> Keystream, init: Init)
    requires |draw| == 64
    reads init.encryptor, init.decryptor
  {
    var reversed := Reverse(draw[8..56]);
    && init.encryptor.ks == aes(draw[8..40], draw[40..56])
    && init.decryptor.ks == aes(reversed[..32], reversed[32..])
    && init.encryptor.encrypted == 64 && init.decryptor.decrypted == 0
  }

  /** The draw in clear up to byte 56, then the magic and the rest under the keystream. */
  ghost predicate InitFrom(magic: nat, draw: seq<byte>, aes: (seq<byte>, seq<byte>) -> Keystream, sent: seq<byte>)
    requires |draw| == 64
  {
    var ks := aes(draw[8..40], draw[40..56]);
    sent == draw[..56] + Xored(ks, 0, draw[..56] + PutLE(magic, 4) + draw[60..])[56..64]
  }

  /** The keys of both directions as they stand in the bytes sent, and the magic as it does. */
  lemma KeysInTheInit(magic: nat, draw: seq<byte>, aes: (seq<byte>, seq<byte>) -> Keystream, sent: seq<byte>)
    requires |draw| == 64 && InitFrom(magic, draw, aes, sent)
    ensures |sent| == 64 && sent[8..40] == draw[8..40] && sent[40..56] == draw[40..56]
    ensures Reverse(draw[8..56])[..32] == Reverse(sent[24..56])
    ensures Reverse(draw[8..56])[32..] == Reverse(sent[8..24])
    ensures forall j :: 0 <= j < 4 ==> sent[56 + j] == PutLE(magic, 4)[j] ^ aes(draw[8..40], draw[40..56])(56 + j)
  {
    hide PutLE, Reverse;
    ReverseSplit(sent[8..24], sent[24..56]);
    assert draw[8..56] == sent[8..24] + sent[24..56];
    var plain := draw[..56] + PutLE(magic, 4) + draw[60..];
    assert forall j :: 0 <= j < 4 ==> plain[56 + j] == PutLE(magic, 4)[j];
  }

  /** A peer that keys its cipher from bytes 8 to 55 of what it received finds the magic at
      byte 56, and its cipher is then where the sender's is. */
  lemma PeerRecoversMagic(magic: nat, draw: seq<byte>, aes: (seq<byte>, seq<byte>) -> Keystream, sent: seq<byte>)
    requires magic < 0x1_0000_0000 && |draw| == 64 && InitFrom(magic, draw, aes, sent)
    ensures |sent| == 64
    ensures GetLE(Xored(aes(sent[8..40], sent[40..56]), 0, sent)[56..60]) == magic
  {
    hide GetLE, PutLE;
    var ks := aes(draw[8..40], draw[40..56]);
    var plain := draw[..56] + PutLE(magic, 4) + draw[60..];
    assert sent[8..40] == draw[8..40] && sent[40..56] == draw[40..56];
    var hidden, seen := Xored(ks, 0, plain), Xored(ks, 0, sent);
    forall j | 56 <= j < 60
      ensures seen[j] == plain[j]
    {
      assert sent[j] == hidden[j];
      XorTwice(plain[j], ks(j));
    }
    assert seen[56..60] == plain[56..60] == PutLE(magic, 4);
    Widths();
    GetPut(magic, 4);
  }

  // ----------------------------------------------------- frames under the cipher

  /** What the sender writes: each frame encrypted where the cipher stands. */
  function Ciphertext(k: Kind, n: nat, ks: Keystream, pos: nat, ps: seq<Packet>): seq<byte>
    decreases ps
  {
    if ps == [] then [] else
      var f := Frame(k, n, ps[0]);
      Xored(ks, pos, f) + Ciphertext(k, NextSeq(k, n), ks, pos + |f|, ps[1..])
  }

  lemma {:induction false} CiphertextIsXored(k: Kind, n: nat, ks: Keystream, pos: nat, ps: seq<Packet>)
    ensures Ciphertext(k, n, ks, pos, ps) == Xored(ks, pos, Frames(k, n, ps))
    decreases ps
  {
    hide Frame;
    if ps != [] {
      var f := Frame(k, n, ps[0]);
      CiphertextIsXored(k, NextSeq(k, n), ks, pos + |f|, ps[1..]);
      XoredConcat(ks, pos, f, Frames(k, NextSeq(k, n), ps[1..]));
    }
  }

  /** What the receiver hands to the inner transport: each chunk decrypted as it comes. */
  function Decrypted(ks: Keystream, pos: nat, chunks: seq<seq<byte>>): seq<seq<byte>>
    decreases chunks
  {
    if chunks == [] then [] else [Xored(ks, pos, chunks[0])] + Decrypted(ks, pos + |chunks[0]|, chunks[1..])
  }

  lemma {:induction false} DecryptedConcat(ks: Keystream, pos: nat, chunks: seq<seq<byte>>)
    ensures Concat(Decrypted(ks, pos, chunks)) == Xored(ks, pos, Concat(chunks))
    decreases chunks
  {
    if chunks != [] {
      var c := chunks[0];
      DecryptedConcat(ks, pos + |c|, chunks[1..]);
      XoredConcat(ks, pos, c, Concat(chunks[1..]));
      assert Decrypted(ks, pos, chunks)[1..] == Decrypted(ks, pos + |c|, chunks[1..]);
    }
  }

  /** Through the obfuscation too, frames of legal packets cut anywhere decode to exactly
      the packets. */
  lemma ObfuscatedRoundTrip(k: Kind, n: nat, ks: Keystream, pos: nat, ps: seq<Packet>, chunks: seq<seq<byte>>)
    requires AllLegal(k, ps) && n < Power256(4)
    requires FramingTheorems.SeqAfter(k, n, |ps|) <= Power256(4)
    requires Concat(chunks) == Ciphertext(k, n, ks, pos, ps)
    ensures Feed(k, n, [], Decrypted(ks, pos, chunks))
         == Decoded(AllDelivered(k, ps), [], [], FramingTheorems.SeqAfter(k, n, |ps|), false)
  {
    hide Feed, Power256;
    CiphertextIsXored(k, n, ks, pos, ps);
    DecryptedConcat(ks, pos, chunks);
    XoredTwice(ks, pos, Frames(k, n, ps));
    FramingTheorems.StreamRoundTrip(k, n, ps, Decrypted(ks, pos, chunks));
  }

  // ------------------------------------------------------ the transport wrapper

  /** The transport inside the wrapper. */
  datatype Inner =
    | OverAbridged(abridged: AbridgedTransport)
    | OverIntermediate(intermediate: IntermediateTransport)
    | OverPadded(padded: PaddedIntermediateTransport)
    | OverFull(full: FullTransport)
  {
    function Kind(): Kind {
      match this
      case OverAbridged(_) => Abridged
      case OverIntermediate(_) => Intermediate
      case OverPadded(_) => Padded
      case OverFull(_) => Full
    }

    function Transport(): object {
      match this
      case OverAbridged(t) => t
      case OverIntermediate(t) => t
      case OverPadded(t) => t
      case OverFull(t) => t
    }

    ghost predicate Valid()
      reads if OverFull? then {full.table} else {}
    {
      OverFull? ==> full.Valid()
    }

    function RecvBuf(): seq<byte>
      reads Transport()
    {
      match this
      case OverAbridged(t) => t.recvBuf
      case OverIntermediate(t) => t.recvBuf
      case OverPadded(t) => t.recvBuf
      case OverFull(t) => t.recvBuf
    }

    function RecvSeq(): nat
      reads Transport()
    {
      if OverFull? then full.recvSeq else 0
    }

    function SendSeq(): nat
      reads Transport()
    {
      if OverFull? then full.sendSeq else 0
    }
  }

  class ObfuscatedTransport {
    const inner: Inner
    const encryptor: AesCtr
    const decryptor: AesCtr

    constructor (inner: Inner, encryptor: AesCtr, decryptor: AesCtr)
      ensures this.inner == inner && this.encryptor == encryptor && this.decryptor == decryptor
    {
      this.inner, this.encryptor, this.decryptor := inner, encryptor, decryptor;
    }

    /** Frames the payload with the inner transport, then encrypts. */
    method EncodePacket(p: Packet) returns (r: Option<seq<byte>>)
      requires inner.Valid() && IsPacket(p)
      modifies inner.Transport(), encryptor
      ensures r.None? <==> Throws(inner.Kind(), old(inner.SendSeq()), p)
      ensures r.Some? ==>
        && r.value == Xored(encryptor.ks, old(encryptor.encrypted), Frame(inner.Kind(), old(inner.SendSeq()), p))
        && encryptor.encrypted == old(encryptor.encrypted) + |r.value|
        && inner.SendSeq() == NextSeq(inner.Kind(), old(inner.SendSeq()))
      ensures r.None? ==> encryptor.encrypted == old(encryptor.encrypted) && inner.SendSeq() == old(inner.SendSeq())
    {
      hide AbridgedFrame, PrefixedFrame, FullFrame, Power256, PaddingLength;
      var frame: array<byte>;
      match inner {
        case OverAbridged(t) =>
          frame := t.EncodePacket(p.payload);
        case OverIntermediate(t) =>
          var f := t.EncodePacket(p.payload);
          if f.None? { return None; }
          frame := f.value;
        case OverPadded(t) =>
          var f := t.EncodePacket(p.payload, p.padding);
          if f.None? { return None; }
          frame := f.value;
        case OverFull(t) =>
          var f := t.EncodePacket(p.payload);
          if f.None? { return None; }
          frame := f.value;
      }
      var encrypted := encryptor.Encrypt(frame[..]);
      return Some(encrypted);
    }

    /** Decrypts, then decodes with the inner transport. */
    method DecodePacket(data: seq<byte>) returns (results: seq<seq<byte>>)
      requires inner.Valid()
      modifies inner.Transport(), decryptor
      ensures decryptor.decrypted == old(decryptor.decrypted) + |data|
      ensures exists e :: Shows(Decode(inner.Kind(), old(inner.RecvSeq()),
                                       old(inner.RecvBuf()) + Xored(decryptor.ks, old(decryptor.decrypted), data)),
                                results, e, inner.RecvBuf(), inner.RecvSeq())
    {
      hide Decode, Xored;
      var decrypted := decryptor.Decrypt(data);
      ghost var buf, n := old(inner.RecvBuf()) + decrypted, old(inner.RecvSeq());
      ghost var e;
      match inner {
        case OverAbridged(t) =>
          results := t.DecodePacket(decrypted);
          e :| Shows(Decode(Abridged, n, buf), results, e, t.recvBuf, 0);
        case OverIntermediate(t) =>
          results := t.DecodePacket(decrypted);
          e :| Shows(Decode(Intermediate, n, buf), results, e, t.recvBuf, 0);
        case OverPadded(t) =>
          results := t.DecodePacket(decrypted);
          e :| Shows(Decode(Padded, n, buf), results, e, t.recvBuf, 0);
        case OverFull(t) =>
          results := t.DecodePacket(decrypted);
          e :| Shows(Decode(Full, n, buf), results, e, t.recvBuf, t.recvSeq);
      }
      assert Shows(Decode(inner.Kind(), n, buf), results, e, inner.RecvBuf(), inner.RecvSeq());
    }
  }
}
