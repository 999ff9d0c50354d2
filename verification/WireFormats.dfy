/** The wire formats field by field, with their constants written out, and what a receiver
    does with a frame that is not the one it waits for. */
module WireFormats {
  import opened Bytes
  import opened Framing
  import opened Options
  import Containers
  import Crc32
  import FramingTheorems
  import TlCodec

  // ------------------------------------------------------------------- framings

  /** Length, sequence number, payload, CRC. */
  lemma FullFrameLayout(n: nat, payload: seq<byte>)
    requires 12 + |payload| < 0x1_0000_0000 && n < 0x1_0000_0000
    ensures var f, m := FullFrame(n, payload), |payload|;
            && |f| == 12 + m
            && GetLE(f[..4]) == 12 + m && GetLE(f[4..8]) == n && f[8..8 + m] == payload
            && GetLE(f[8 + m..]) == Crc32.BitwiseCrc(f[..8 + m])
  {
    hide GetLE, PutLE, Crc32.Crc, Crc32.BitwiseCrc;
    Widths();
    var f, m, head := FullFrame(n, payload), |payload|, FullHead(n, payload);
    assert f[..8 + m] == head && f[8 + m..] == PutLE(Crc32.Crc(head), 4);
    assert f[..4] == PutLE(12 + m, 4) && f[4..8] == PutLE(n, 4) && f[8..8 + m] == payload;
    GetPut(12 + m, 4);
    GetPut(n, 4);
    FramingTheorems.CrcFits(head);
    GetPut(Crc32.Crc(head), 4);
    CrcIsBitwise(head);
  }

  lemma CrcIsBitwise(data: seq<byte>)
    ensures Crc32.Crc(data) == Crc32.BitwiseCrc(data)
  {
    Crc32.RegisterIsBitwise(data);
  }

  /** One byte counts the words of a short payload; a long one has 0x7f and three bytes. */
  lemma AbridgedFrameLayout(payload: seq<byte>)
    requires |payload| < 0x400_0000
    ensures var f, m := AbridgedFrame(payload), |payload|;
            && (m < 508 ==> |f| == 1 + m && f[0] as int == m / 4 && f[1..] == payload)
            && (m >= 508 ==> |f| == 4 + m && f[0] == 0x7f && GetLE(f[1..4]) == m / 4 && f[4..] == payload)
  {
    hide GetLE, PutLE, ByteOf;
    var f, m := AbridgedFrame(payload), |payload|;
    if m >= 508 {
      assert f[1..4] == PutLE(m / 4, 3) && f[4..] == payload;
      Widths();
      GetPut(m / 4, 3);
      SameValue(ByteOf(127), 0x7f);
    }
  }

  /** Four bytes of length, then the data; the Padded data is filled up to whole blocks. */
  lemma PrefixedFrameLayout(k: Kind, n: nat, p: Packet)
    requires !k.Abridged? && !k.Full? && IsPacket(p) && |p.payload + p.padding| < 0x1_0000_0000
    ensures var f, m := Frame(k, n, p), |p.payload|;
            && GetLE(f[..4]) == |f| - 4 && f[4..4 + m] == p.payload
            && (k.Intermediate? ==> |f| == 4 + m)
            && (k.Padded? ==> |f| - 4 - m < 16 && (|f| - 4) % 16 == 0 && f[4 + m..] == p.padding)
  {
    hide GetLE, PutLE, PaddingLength;
    Widths();
    var f, m := Frame(k, n, p), |p.payload|;
    var data := if k.Padded? then p.payload + p.padding else p.payload;
    assert f == PutLE(|data|, 4) + data;
    assert f[..4] == PutLE(|data|, 4) && f[4..] == data;
    GetPut(|data|, 4);
    assert f[4..4 + m] == data[..m] == p.payload;
    FramingTheorems.PaddingAligns(p);
    assert k.Padded? ==> f[4 + m..] == data[m..];
  }

  /** The lengths that are refused, and what happens to the buffer. */
  lemma RefusedLengths(recvSeq: nat, buf: seq<byte>)
    ensures (NextStep(Abridged, recvSeq, buf) == Skip(InvalidLengthByte, 1) <==> buf != [] && buf[0] as int >= 128)
    ensures (NextStep(Abridged, recvSeq, buf) == Discard(TooLarge)
             <==> |buf| >= 4 && buf[0] == 0x7f && GetLE(buf[1..4]) > 4 * 1024 * 1024)
    ensures (NextStep(Intermediate, recvSeq, buf) == Discard(TooLarge) <==> |buf| >= 4 && GetLE(buf[..4]) > 16 * 1024 * 1024)
    ensures (NextStep(Padded, recvSeq, buf) == Discard(TooLarge) <==> |buf| >= 4 && GetLE(buf[..4]) > 16 * 1024 * 1024)
    ensures (NextStep(Full, recvSeq, buf) == Discard(TooLarge) <==> |buf| >= 12 && GetLE(buf[..4]) > 16 * 1024 * 1024 + 12)
    ensures (NextStep(Full, recvSeq, buf) == Discard(InvalidLength) <==> |buf| >= 12 && GetLE(buf[..4]) < 12)
  {
    hide GetLE, Crc32.Crc;
    if buf != [] { FirstByte(buf[0]); }
  }

  lemma FirstByte(b: byte)
    ensures b as int == 127 <==> b == 0x7f
  {
    if b as int == 127 { SameValue(b, 0x7f); }
  }

  /** A Full receiver delivers a payload exactly when the buffer starts with the frame that
      carries it under the number the receiver has got to. */
  lemma FullDeliversItsFrames(recvSeq: nat, buf: seq<byte>, payload: seq<byte>)
    ensures NextStep(Full, recvSeq, buf) == Deliver(payload, 12 + |payload|)
       <==> |payload| <= 16 * 1024 * 1024 && recvSeq < 0x1_0000_0000 && FullFrame(recvSeq, payload) <= buf
  {
    hide GetLE, PutLE, Crc32.Crc, Power256;
    Widths();
    if |payload| <= 16 * 1024 * 1024 && recvSeq < 0x1_0000_0000 && FullFrame(recvSeq, payload) <= buf {
      var f := FullFrame(recvSeq, payload);
      FramingTheorems.FullDecodes(recvSeq, payload, buf[|f|..]);
      assert buf == f + buf[|f|..];
    }
    if NextStep(Full, recvSeq, buf) == Deliver(payload, 12 + |payload|) {
      var n := 12 + |payload|;
      GetLEBound(buf[4..8]);
      PutGet(buf[..4]);
      PutGet(buf[4..8]);
      PutGet(buf[n - 4..n]);
      assert buf[..n - 4] == buf[..4] + buf[4..8] + buf[8..n - 4] == FullHead(recvSeq, payload);
      assert buf[..n] == buf[..n - 4] + buf[n - 4..n];
    }
  }

  /** A frame under any other number is skipped. */
  lemma OtherFramesAreSkipped(sendSeq: nat, recvSeq: nat, payload: seq<byte>, rest: seq<byte>)
    requires |payload| <= 16 * 1024 * 1024 && sendSeq < 0x1_0000_0000 && sendSeq != recvSeq
    ensures NextStep(Full, recvSeq, FullFrame(sendSeq, payload) + rest) == Skip(SequenceMismatch, 12 + |payload|)
  {
    hide GetLE, PutLE, Crc32.Crc, Crc32.BitwiseCrc;
    var f, buf, n := FullFrame(sendSeq, payload), FullFrame(sendSeq, payload) + rest, 12 + |payload|;
    FullFrameLayout(sendSeq, payload);
    CrcIsBitwise(f[..n - 4]);
    assert buf[..4] == f[..4] && buf[4..8] == f[4..8] && buf[..n - 4] == f[..n - 4] && buf[n - 4..n] == f[n - 4..];
  }

  function Repeated(e: Error, n: nat): (s: seq<Error>)
    ensures |s| == n && forall i :: 0 <= i < n ==> s[i] == e
  {
    if n == 0 then [] else [e] + Repeated(e, n - 1)
  }

  /** A receiver that waits for an earlier number skips every frame to come. */
  lemma {:induction false} LaterFramesAreSkipped(recvSeq: nat, n: nat, ps: seq<Packet>)
    requires AllLegal(Full, ps) && recvSeq < n && n + |ps| <= 0x1_0000_0000
    ensures Decode(Full, recvSeq, Frames(Full, n, ps))
         == Decoded([], Repeated(SequenceMismatch, |ps|), [], recvSeq, false)
    decreases ps
  {
    hide NextStep, FullFrame, IsPacket;
    if ps == [] {
      FramingTheorems.EmptyBufferWaits(Full, recvSeq);
    } else {
      var p, rest := ps[0], ps[1..];
      assert p in ps && forall q :: q in rest ==> q in ps;
      var f, more := FullFrame(n, p.payload), Frames(Full, n + 1, rest);
      OtherFramesAreSkipped(n, recvSeq, p.payload, more);
      assert (f + more)[|f|..] == more;
      LaterFramesAreSkipped(recvSeq, n + 1, rest);
    }
  }

  /** A frame damaged by a burst of four bytes is skipped without counting it, so the receiver
      waits for its number for ever: nothing sent behind it is delivered. */
  lemma DamageStopsDelivery(n: nat, payload: seq<byte>, g: seq<byte>, i: nat, ps: seq<Packet>)
    requires |payload| <= 16 * 1024 * 1024 && AllLegal(Full, ps) && n + 1 + |ps| <= 0x1_0000_0000
    requires i >= 4 && Crc32.DifferWithin(FullFrame(n, payload), g, i) && g != FullFrame(n, payload)
    ensures Decode(Full, n, g + Frames(Full, n + 1, ps))
         == Decoded([], [CrcMismatch] + Repeated(SequenceMismatch, |ps|), [], n, false)
  {
    hide NextStep, Frames, AllLegal, FullFrame;
    Widths();
    var more := Frames(Full, n + 1, ps);
    FramingTheorems.DamagedFrameIsSkipped(n, payload, g, i, n, more);
    assert |g| > 0;
    assert (g + more)[|g|..] == more;
    LaterFramesAreSkipped(n, n + 1, ps);
  }

  // ------------------------------------------------------------------ TL values

  /** The constructor ids as they stand on the wire. */
  lemma BoolBytes()
    ensures TlCodec.Encode(TlCodec.Bool(true)) == [0xb5, 0x75, 0x72, 0x99]
    ensures TlCodec.Encode(TlCodec.Bool(false)) == [0x37, 0x97, 0x79, 0xbc]
  {
    hide PutLE;
    WordBytes([0xb5, 0x75, 0x72, 0x99]);
    WordBytes([0x37, 0x97, 0x79, 0xbc]);
  }

  /** A vector is its constructor id, the count and the items from first to last. */
  lemma VectorLayout(items: seq<TlCodec.Value>)
    requires TlCodec.Legal(TlCodec.Vector(items))
    ensures var e := TlCodec.Encode(TlCodec.Vector(items));
            && |items| <= 1_000_000
            && |e| >= 8 && e[..4] == [0x15, 0xc4, 0xb5, 0x1c] && GetInt(e[4..8]) == |items|
            && e[8..] == TlCodec.EncodeAll(items)
  {
    hide PutLE, PutInt, GetInt, Fits, Power256, TlCodec.EncodeAll;
    var e := TlCodec.Encode(TlCodec.Vector(items));
    TlCodec.Counts();
    assert e == PutLE(TlCodec.VECTOR_CID, 4) + PutInt(|items|, 4) + TlCodec.EncodeAll(items);
    assert e[..4] == PutLE(TlCodec.VECTOR_CID, 4) && e[4..8] == PutInt(|items|, 4) && e[8..] == TlCodec.EncodeAll(items);
    WordBytes([0x15, 0xc4, 0xb5, 0x1c]);
    GetPutInt(|items|, 4);
  }

  /** Values one after another: the encodings in the same order. */
  lemma {:induction false} EncodedInOrder(vs: seq<TlCodec.Value>, w: TlCodec.Value)
    requires TlCodec.AllLegal(vs) && TlCodec.Legal(w)
    ensures TlCodec.AllLegal(vs + [w]) && TlCodec.EncodeAll(vs + [w]) == TlCodec.EncodeAll(vs) + TlCodec.Encode(w)
  {
    hide TlCodec.Encode, TlCodec.Legal;
    if vs == [] {
      assert vs + [w] == [w] && [w][1..] == [];
      assert TlCodec.AllLegal([w][1..]) && TlCodec.EncodeAll([w][1..]) == [];
    } else {
      EncodedInOrder(vs[1..], w);
      assert (vs + [w])[1..] == vs[1..] + [w];
    }
  }

  /** One byte of length below 254, otherwise 0xfe and three bytes; then the data, then as few
      zeros as fill the last word. */
  lemma BlobLayout(data: seq<byte>)
    requires |data| < 0x100_0000
    ensures var e, n, h := TlCodec.EncodeBlob(data), |data|, if |data| < 254 then 1 else 4;
            && h + n <= |e| < h + n + 4 && |e| % 4 == 0
            && (n < 254 ==> e[0] as int == n)
            && (n >= 254 ==> e[0] == 0xfe && GetLE(e[1..4]) == n)
            && e[h..h + n] == data && forall j :: h + n <= j < |e| ==> e[j] == 0
  {
    hide GetLE, PutLE, ByteOf;
    Widths();
    TlCodec.BlobIsAligned(data);
    var e, n, header := TlCodec.EncodeBlob(data), |data|, TlCodec.BlobHeader(|data|);
    assert e[..|header|] == header;
    if n >= 254 {
      assert e[1..4] == header[1..4] == PutLE(n, 3);
      GetPut(n, 3);
      SameValue(ByteOf(254), 0xfe);
    }
  }

  /** A length header: one byte below 254, or any larger byte and the length in three more. */
  ghost predicate Announces(header: seq<byte>, length: nat) {
    || (|header| == 1 && header[0] as int == length < 254)
    || (|header| == 4 && header[0] as int >= 254 && GetLE(header[1..4]) == length)
  }

  /** A header, the data, up to three bytes of any kind that fill the last word, and `rest`. */
  ghost predicate IsBlobThen(buf: seq<byte>, header: seq<byte>, data: seq<byte>, pad: seq<byte>, rest: seq<byte>) {
    && buf == header + data + pad + rest
    && Announces(header, |data|) && |pad| < 4 && (|header| + |data| + |pad|) % 4 == 0
  }

  /** The reader takes exactly such byte strings of up to ten megabytes. */
  lemma BlobIsRead(buf: seq<byte>, data: seq<byte>, rest: seq<byte>)
    ensures TlCodec.DecodeBlob(buf) == Some(TlCodec.Parsed(data, rest))
       <==> |data| <= 10 * 1024 * 1024 && exists header, pad :: IsBlobThen(buf, header, data, pad, rest)
  {
    hide TlCodec.BlobLength, TlCodec.Padding, Announces;
    if TlCodec.DecodeBlob(buf) == Some(TlCodec.Parsed(data, rest)) {
      var h := TlCodec.BlobLength(buf).value.1;
      var total := h + |data| + TlCodec.Padding(h + |data|);
      HeaderInFront(buf);
      OnlyPadding(h + |data|, total - h - |data|);
      InFourPieces(buf, h, h + |data|, total);
      assert IsBlobThen(buf, buf[..h], data, buf[h + |data|..total], rest);
    }
    if |data| <= 10 * 1024 * 1024 {
      forall header, pad | IsBlobThen(buf, header, data, pad, rest)
        ensures TlCodec.DecodeBlob(buf) == Some(TlCodec.Parsed(data, rest))
      {
        BlobThenIsRead(buf, header, data, pad, rest);
      }
    }
  }

  lemma BlobThenIsRead(buf: seq<byte>, header: seq<byte>, data: seq<byte>, pad: seq<byte>, rest: seq<byte>)
    requires IsBlobThen(buf, header, data, pad, rest) && |data| <= 10 * 1024 * 1024
    ensures TlCodec.DecodeBlob(buf) == Some(TlCodec.Parsed(data, rest))
  {
    hide TlCodec.BlobLength, TlCodec.Padding, Announces;
    FourPieces(header, data, pad, rest);
    HeaderIsRead(buf, header, |data|);
    OnlyPadding(|header| + |data|, |pad|);
  }

  lemma FourPieces(a: seq<byte>, b: seq<byte>, c: seq<byte>, d: seq<byte>)
    ensures var s := a + b + c + d;
            && s[..|a|] == a && s[|a|..|a| + |b|] == b && s[|a| + |b| + |c|..] == d
  {}

  lemma InFourPieces(s: seq<byte>, i: nat, j: nat, k: nat)
    requires i <= j <= k <= |s|
    ensures s == s[..i] + s[i..j] + s[j..k] + s[k..]
  {}

  lemma OnlyPadding(n: nat, k: nat)
    ensures k < 4 && (n + k) % 4 == 0 <==> k == TlCodec.Padding(n)
  {}

  lemma HeaderIsRead(buf: seq<byte>, header: seq<byte>, length: nat)
    requires |header| <= |buf| && buf[..|header|] == header && Announces(header, length)
    ensures var l := TlCodec.BlobLength(buf); l.Some? && l.value.0 == length && l.value.1 == |header|
  {
    hide GetLE;
    assert buf[0] == header[0];
    assert |header| == 4 ==> buf[1..4] == header[1..4];
  }

  lemma HeaderInFront(buf: seq<byte>)
    ensures var l := TlCodec.BlobLength(buf);
            l.Some? ==> l.value.1 <= |buf| && Announces(buf[..l.value.1], l.value.0)
  {
    hide GetLE;
    assert |buf| >= 4 ==> buf[..4][1..4] == buf[1..4];
  }

  // ----------------------------------------------------- containers and msgs_ack

  /** The header of a container, and each message at the sum of the sizes before it. */
  lemma PackLayout(ms: seq<Containers.InnerMessage>, i: nat)
    requires Containers.Packable(ms) && i < |ms|
    ensures var s, m, o := Containers.Pack(ms), ms[i], 8 + Containers.TotalSize(ms[..i]);
            && |s| >= 8 && GetLE(s[..4]) == 0x73f1_f8dc && GetInt(s[4..8]) == |ms|
            && o + 16 + |m.body| <= |s|
            && GetInt(s[o..o + 8]) == m.msgId && GetInt(s[o + 8..o + 12]) == m.seqNo
            && GetInt(s[o + 12..o + 16]) == |m.body| && s[o + 16..o + 16 + |m.body|] == m.body
  {
    hide GetLE, PutLE, GetInt, PutInt, Fits, Power256, Containers.PackAll, Containers.PackOne, Containers.MessageFits;
    Widths();
    var s, m := Containers.Pack(ms), ms[i];
    var head := PutLE(Containers.CONTAINER_CID, 4) + PutInt(|ms|, 4);
    assert s == head + Containers.PackAll(ms);
    assert s[..4] == PutLE(Containers.CONTAINER_CID, 4) && s[4..8] == PutInt(|ms|, 4);
    GetPut(Containers.CONTAINER_CID, 4);
    GetPutInt(|ms|, 4);
    PackedSplit(ms, i);
    Containers.PackAllLength(ms[..i]);
    var before, rest := Containers.PackAll(ms[..i]), Containers.PackAll(ms[i + 1..]);
    Nested(head, before, Containers.PackOne(m), rest);
    PackedFields(head + before, m, rest);
  }

  lemma Nested(a: seq<byte>, b: seq<byte>, c: seq<byte>, d: seq<byte>)
    ensures a + (b + (c + d)) == (a + b) + c + d
  {}

  lemma {:induction false} PackedSplit(ms: seq<Containers.InnerMessage>, i: nat)
    requires i < |ms| && forall m :: m in ms ==> Containers.MessageFits(m)
    ensures Containers.PackAll(ms)
         == Containers.PackAll(ms[..i]) + (Containers.PackOne(ms[i]) + Containers.PackAll(ms[i + 1..]))
    decreases i
  {
    hide Containers.PackOne, Containers.MessageFits;
    if i > 0 {
      PackedSplit(ms[1..], i - 1);
      assert ms[1..][..i - 1] == ms[..i][1..] && ms[1..][i..] == ms[i + 1..];
    }
  }

  lemma PackedFields(before: seq<byte>, m: Containers.InnerMessage, rest: seq<byte>)
    requires Containers.MessageFits(m)
    ensures var s, o := before + Containers.PackOne(m) + rest, |before|;
            && GetInt(s[o..o + 8]) == m.msgId && GetInt(s[o + 8..o + 12]) == m.seqNo
            && GetInt(s[o + 12..o + 16]) == |m.body| && s[o + 16..o + 16 + |m.body|] == m.body
  {
    hide PutInt, GetInt, Fits, Power256;
    var o, s := |before|, before + Containers.PackOne(m) + rest;
    assert s[o..o + 8] == PutInt(m.msgId, 8);
    assert s[o + 8..o + 12] == PutInt(m.seqNo, 4);
    assert s[o + 12..o + 16] == PutInt(|m.body|, 4);
    GetPutInt(m.msgId, 8);
    GetPutInt(m.seqNo, 4);
    GetPutInt(|m.body|, 4);
    assert s[o + 16..o + 16 + |m.body|] == m.body;
  }

  /** The two constructor ids of msgs_ack, the count, and eight bytes for each id. */
  lemma MsgsAckLayout(ids: seq<int>, i: nat)
    requires Containers.IdsFit(ids) && i < |ids|
    ensures var s := Containers.MsgsAck(ids);
            && |s| == 12 + 8 * |ids|
            && GetLE(s[..4]) == 0x62d6_b459 && GetLE(s[4..8]) == 0x1cb5_c415 && GetInt(s[8..12]) == |ids|
            && GetInt(s[12 + 8 * i..20 + 8 * i]) == ids[i]
  {
    hide GetLE, PutLE, GetInt, PutInt, Fits, Power256, Containers.PutIds;
    Widths();
    var s := Containers.MsgsAck(ids);
    var head := PutLE(Containers.MSGS_ACK_CID, 4) + PutLE(Containers.VECTOR_CID, 4) + PutInt(|ids|, 4);
    assert s == head + Containers.PutIds(ids);
    assert s[..4] == PutLE(Containers.MSGS_ACK_CID, 4) && s[4..8] == PutLE(Containers.VECTOR_CID, 4);
    assert s[8..12] == PutInt(|ids|, 4);
    GetPut(Containers.MSGS_ACK_CID, 4);
    GetPut(Containers.VECTOR_CID, 4);
    GetPutInt(|ids|, 4);
    IdAt(ids, i);
    assert s[12 + 8 * i..20 + 8 * i] == Containers.PutIds(ids)[8 * i..8 * i + 8];
    GetPutInt(ids[i], 8);
  }

  lemma {:induction false} IdAt(ids: seq<int>, i: nat)
    requires i < |ids| && forall id :: id in ids ==> Fits(id, 8)
    ensures Containers.PutIds(ids)[8 * i..8 * i + 8] == PutInt(ids[i], 8)
    decreases |ids|
  {
    hide PutInt, Fits;
    var k := |ids| - 1;
    if i < k {
      IdAt(ids[..k], i);
      assert Containers.PutIds(ids)[8 * i..8 * i + 8] == Containers.PutIds(ids[..k])[8 * i..8 * i + 8];
    }
  }
}
