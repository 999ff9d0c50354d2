/** The framings do not depend on how TCP cuts the stream, what one end writes is what the
    other end delivers, and a Full frame hit by a four-byte burst is skipped. */
module FramingTheorems {
  import opened Bytes
  import opened Framing
  import Crc32

  // -------------------------------------------------------- chunk independence

  lemma BodyIsStable(buf: seq<byte>, more: seq<byte>, header: nat, length: nat)
    requires !Body(buf, header, length).NeedMore?
    ensures Body(buf + more, header, length) == Body(buf, header, length)
  {
    if length <= MAX_FRAME_PAYLOAD {
      assert (buf + more)[header..header + length] == buf[header..header + length];
    }
  }

  /** A decision once taken does not change when more bytes arrive. */
  lemma StepIsStable(k: Kind, recvSeq: nat, buf: seq<byte>, more: seq<byte>)
    requires !NextStep(k, recvSeq, buf).NeedMore?
    ensures NextStep(k, recvSeq, buf + more) == NextStep(k, recvSeq, buf)
  {
    hide GetLE;
    var all := buf + more;
    match k
    case Abridged =>
      assert all[0] == buf[0];
      if buf[0] as int < 127 {
        BodyIsStable(buf, more, 1, buf[0] as int * 4);
      } else if buf[0] as int == 127 {
        assert all[1..4] == buf[1..4];
        BodyIsStable(buf, more, 4, GetLE(buf[1..4]) * 4);
      }
    case Intermediate =>
      assert all[..4] == buf[..4];
      BodyIsStable(buf, more, 4, GetLE(buf[..4]));
    case Padded =>
      assert all[..4] == buf[..4];
      BodyIsStable(buf, more, 4, GetLE(buf[..4]));
    case Full =>
      FullStepIsStable(recvSeq, buf, more);
  }

  lemma FullStepIsStable(recvSeq: nat, buf: seq<byte>, more: seq<byte>)
    requires !FullStep(recvSeq, buf).NeedMore?
    ensures FullStep(recvSeq, buf + more) == FullStep(recvSeq, buf)
  {
    hide GetLE, Crc32.Crc;
    var all := buf + more;
    assert all[..4] == buf[..4];
    var n := GetLE(buf[..4]);
    if 12 <= n <= MAX_FRAME_PAYLOAD + 12 {
      assert all[n - 4..n] == buf[n - 4..n];
      assert all[..n - 4] == buf[..n - 4];
      assert all[4..8] == buf[4..8];
      assert all[8..n - 4] == buf[8..n - 4];
    }
  }

  lemma AfterAfter(f: seq<seq<byte>>, e: seq<Error>, g: seq<seq<byte>>, d: seq<Error>, r: Decoded)
    ensures After(f, e, After(g, d, r)) == After(f + g, e + d, r)
  {
    assert f + (g + r.frames) == f + g + r.frames;
    assert e + (d + r.errors) == e + d + r.errors;
  }

  lemma AfterNothing(r: Decoded)
    ensures After([], [], r) == r
  {}

  /** Decoding `a` and then what is left of it together with `b`. */
  function InTwoCalls(k: Kind, recvSeq: nat, a: seq<byte>, b: seq<byte>): Decoded {
    var r := Decode(k, recvSeq, a);
    After(r.frames, r.errors, Decode(k, r.recvSeq, r.left + b))
  }

  /** Without a discard in `a`, one call on all the bytes does the same as two. */
  lemma {:induction false} SplitDecode(k: Kind, recvSeq: nat, a: seq<byte>, b: seq<byte>)
    ensures var r := Decode(k, recvSeq, a);
            Decode(k, recvSeq, a + b) == if r.stopped then r else InTwoCalls(k, recvSeq, a, b)
    decreases |a|
  {
    hide NextStep;
    var s := NextStep(k, recvSeq, a);
    if s.NeedMore? {
      AfterNothing(Decode(k, recvSeq, a + b));
    } else {
      StepIsStable(k, recvSeq, a, b);
      if s.Skip? || s.Deliver? {
        assert (a + b)[s.used..] == a[s.used..] + b;
        var next := if s.Skip? then recvSeq else NextSeq(k, recvSeq);
        SplitDecode(k, next, a[s.used..], b);
        var t := Decode(k, next, a[s.used..]);
        AfterAfter(if s.Skip? then [] else [s.frame], if s.Skip? then [s.error] else [],
                   t.frames, t.errors, Decode(k, t.recvSeq, t.left + b));
      }
    }
  }

  lemma {:induction false} LeftIsPartial(k: Kind, recvSeq: nat, a: seq<byte>)
    ensures var r := Decode(k, recvSeq, a);
            !r.stopped ==> Decode(k, r.recvSeq, r.left) == Decoded([], [], r.left, r.recvSeq, false)
    decreases |a|
  {
    hide NextStep;
    var s := NextStep(k, recvSeq, a);
    if s.Skip? || s.Deliver? {
      LeftIsPartial(k, if s.Skip? then recvSeq else NextSeq(k, recvSeq), a[s.used..]);
    }
  }

  /** However the stream is cut, if decoding it whole never discards the buffer then
      decoding it chunk by chunk gives the same frames, errors, leftover and sequence. */
  lemma {:induction false} ChunksDoNotMatter(k: Kind, recvSeq: nat, left: seq<byte>, chunks: seq<seq<byte>>)
    requires Decode(k, recvSeq, left) == Decoded([], [], left, recvSeq, false)
    requires !Decode(k, recvSeq, left + Concat(chunks)).stopped
    ensures Feed(k, recvSeq, left, chunks) == Decode(k, recvSeq, left + Concat(chunks))
    decreases chunks
  {
    hide Decode;
    if chunks == [] {
      assert left + [] == left;
    } else {
      var c, rest := chunks[0], Concat(chunks[1..]);
      var r := Decode(k, recvSeq, left + c);
      assert left + (c + rest) == left + c + rest;
      SplitDecode(k, recvSeq, left + c, rest);
      LeftIsPartial(k, recvSeq, left + c);
      ChunksDoNotMatter(k, r.recvSeq, r.left, chunks[1..]);
    }
  }

  lemma OneByte(k: Kind, recvSeq: nat)
    ensures var r := Decode(k, recvSeq, [0]); r.frames != [] || r.left != []
  {
    if k.Abridged? {
      assert AbridgedStep([0]) == Deliver([0 as byte][1..1], 1);
    }
  }

  /** Cutting behind `a` is harmless for every continuation exactly when decoding `a`
      never discards the buffer. */
  lemma CutIsHarmless(k: Kind, recvSeq: nat, a: seq<byte>)
    ensures (forall b :: Decode(k, recvSeq, a + b) == InTwoCalls(k, recvSeq, a, b))
       <==> !Decode(k, recvSeq, a).stopped
  {
    hide Decode;
    var r := Decode(k, recvSeq, a);
    forall b
      ensures Decode(k, recvSeq, a + b) == if r.stopped then r else InTwoCalls(k, recvSeq, a, b)
    {
      SplitDecode(k, recvSeq, a, b);
    }
    if r.stopped {
      var b: seq<byte> := [0];
      OneByte(k, r.recvSeq);
      StoppedIsEmpty(k, recvSeq, a);
      assert r.left + b == b;
      assert Decode(k, recvSeq, a + b) != InTwoCalls(k, recvSeq, a, b);
    }
  }

  lemma {:induction false} StoppedIsEmpty(k: Kind, recvSeq: nat, a: seq<byte>)
    ensures Decode(k, recvSeq, a).stopped ==> Decode(k, recvSeq, a).left == []
    decreases |a|
  {
    hide NextStep;
    var s := NextStep(k, recvSeq, a);
    if s.Skip? || s.Deliver? {
      StoppedIsEmpty(k, if s.Skip? then recvSeq else NextSeq(k, recvSeq), a[s.used..]);
    }
  }

  // ----------------------------------------------------------------- round trip

  lemma PrefixedDecodes(data: seq<byte>, rest: seq<byte>)
    requires |data| < Power256(4)
    ensures PrefixedStep(PrefixedFrame(data) + rest) ==
            if |data| > MAX_FRAME_PAYLOAD then Discard(TooLarge) else Deliver(data, |PrefixedFrame(data)|)
  {
    hide GetLE, PutLE, Power256;
    var buf := PrefixedFrame(data) + rest;
    assert buf[..4] == PutLE(|data|, 4);
    GetPut(|data|, 4);
    assert buf[4..4 + |data|] == data;
  }

  lemma ThreeByteLength(words: nat)
    ensures var x := GetLE(PutLE(words, 3)); x <= words && (words < 0x100_0000 ==> x == words)
  {
    hide GetLE, PutLE;
    Widths();
    GetLEBound(PutLE(words, 3));
    if words < 0x100_0000 { GetPut(words, 3); }
  }

  lemma HeaderThenWords(header: seq<byte>, payload: seq<byte>, rest: seq<byte>, x: nat)
    requires x * 4 <= |payload|
    ensures var buf := header + payload + rest;
            (Body(buf, |header|, x * 4) == Deliver(payload, |header + payload|)
             <==> x * 4 == |payload| && |payload| <= MAX_FRAME_PAYLOAD)
  {
    var buf := header + payload + rest;
    assert buf[|header|..|header| + x * 4] == payload[..x * 4];
    assert payload[..|payload|] == payload;
  }

  /** The Abridged header counts words, so only whole words survive. */
  lemma AbridgedDecodes(payload: seq<byte>, rest: seq<byte>)
    ensures AbridgedStep(AbridgedFrame(payload) + rest) == Deliver(payload, |AbridgedFrame(payload)|)
       <==> |payload| % 4 == 0 && |payload| <= MAX_FRAME_PAYLOAD
  {
    hide GetLE, PutLE, Body, ByteOf;
    var words := |payload| / 4;
    var buf := AbridgedFrame(payload) + rest;
    if |payload| < 4 * 127 {
      var header := [ByteOf(words)];
      assert buf == header + payload + rest && buf[0] == header[0];
      HeaderThenWords(header, payload, rest, words);
    } else {
      var header := [ByteOf(127)] + PutLE(words, 3);
      assert buf == header + payload + rest && buf[0] == header[0];
      assert buf[1..4] == PutLE(words, 3);
      ThreeByteLength(words);
      HeaderThenWords(header, payload, rest, GetLE(PutLE(words, 3)));
    }
  }

  lemma FullDecodes(sendSeq: nat, payload: seq<byte>, rest: seq<byte>)
    requires 12 + |payload| < Power256(4) && sendSeq < Power256(4)
    ensures FullStep(sendSeq, FullFrame(sendSeq, payload) + rest) ==
            if |payload| > MAX_FRAME_PAYLOAD then Discard(TooLarge)
            else Deliver(payload, |FullFrame(sendSeq, payload)|)
  {
    hide GetLE, PutLE, Power256, Crc32.Crc;
    var n, head := 12 + |payload|, FullHead(sendSeq, payload);
    var buf := FullFrame(sendSeq, payload) + rest;
    GetPut(n, 4);
    GetPut(sendSeq, 4);
    CrcFits(head);
    GetPut(Crc32.Crc(head), 4);
    assert buf[..4] == PutLE(n, 4);
    assert buf[4..8] == PutLE(sendSeq, 4);
    assert buf[8..n - 4] == payload;
    assert buf[..n - 4] == head;
    assert buf[n - 4..n] == PutLE(Crc32.Crc(head), 4);
  }

  lemma CrcFits(data: seq<byte>)
    ensures Crc32.Crc(data) < Power256(4)
  {
    hide Crc32.Register, Crc32.Xor;
    Widths();
    Crc32.RegisterInjective(Crc32.ONES, Crc32.ONES, data);
    Crc32.XorOfWords(Crc32.Register(Crc32.ONES, data), Crc32.ONES);
  }

  lemma PaddingAligns(p: Packet)
    requires IsPacket(p)
    ensures |p.payload + p.padding| % 16 == 0 && |p.padding| < 16
    ensures |p.payload + p.padding| <= MAX_FRAME_PAYLOAD <==> |p.payload| <= MAX_FRAME_PAYLOAD
  {}

  /** One frame at the front of the buffer is delivered as sent exactly when the payload is
      one that the framing can carry. */
  lemma FrameDecodes(k: Kind, n: nat, p: Packet, rest: seq<byte>)
    requires IsPacket(p) && !Throws(k, n, p)
    ensures NextStep(k, n, Frame(k, n, p) + rest) == Deliver(Delivered(k, p), |Frame(k, n, p)|) <==> Legal(k, p)
  {
    hide AbridgedStep, PrefixedStep, FullStep, AbridgedFrame, PrefixedFrame, FullFrame, Power256;
    match k
    case Abridged => AbridgedDecodes(p.payload, rest);
    case Intermediate => PrefixedDecodes(p.payload, rest);
    case Padded =>
      PaddingAligns(p);
      PrefixedDecodes(p.payload + p.padding, rest);
    case Full => FullDecodes(n, p.payload, rest);
  }

  lemma LegalDoesNotThrow(k: Kind, n: nat, p: Packet)
    requires IsPacket(p) && Legal(k, p) && n < Power256(4)
    ensures !Throws(k, n, p)
  {
    Widths();
  }

  function SeqAfter(k: Kind, n: nat, count: nat): nat {
    if k.Full? then n + count else n
  }

  /** A stream of frames decodes to exactly the packets that were framed. */
  lemma {:induction false} StreamDecodes(k: Kind, n: nat, ps: seq<Packet>)
    requires AllLegal(k, ps) && n < Power256(4) && SeqAfter(k, n, |ps|) <= Power256(4)
    ensures Decode(k, n, Frames(k, n, ps)) == Decoded(AllDelivered(k, ps), [], [], SeqAfter(k, n, |ps|), false)
    decreases ps
  {
    hide NextStep, Frame, Power256, Legal, Throws, IsPacket;
    if ps == [] {
      EmptyBufferWaits(k, n);
    } else {
      var p, rest := ps[0], ps[1..];
      assert p in ps && forall q :: q in rest ==> q in ps;
      LegalDoesNotThrow(k, n, p);
      FrameDecodes(k, n, p, Frames(k, NextSeq(k, n), rest));
      var f := Frame(k, n, p);
      var buf := f + Frames(k, NextSeq(k, n), rest);
      assert buf[|f|..] == Frames(k, NextSeq(k, n), rest);
      if rest == [] {
        EmptyBufferWaits(k, NextSeq(k, n));
      } else {
        StreamDecodes(k, NextSeq(k, n), rest);
      }
    }
  }

  lemma EmptyBufferWaits(k: Kind, n: nat)
    ensures Decode(k, n, []) == Decoded([], [], [], n, false)
  {}

  /** The frames of any legal packets, cut into chunks anywhere, decode to the packets. */
  lemma StreamRoundTrip(k: Kind, n: nat, ps: seq<Packet>, chunks: seq<seq<byte>>)
    requires AllLegal(k, ps) && n < Power256(4) && SeqAfter(k, n, |ps|) <= Power256(4)
    requires Concat(chunks) == Frames(k, n, ps)
    ensures Feed(k, n, [], chunks) == Decoded(AllDelivered(k, ps), [], [], SeqAfter(k, n, |ps|), false)
  {
    hide Decode, Power256;
    StreamDecodes(k, n, ps);
    EmptyBufferWaits(k, n);
    assert [] + Concat(chunks) == Concat(chunks);
    ChunksDoNotMatter(k, n, [], chunks);
  }

  // ------------------------------------------------------------- damaged frames

  /** A legal Full frame changed within any four consecutive bytes behind its length field,
      the CRC included, is skipped whatever follows and whatever sequence is expected. */
  lemma DamagedFrameIsSkipped(sendSeq: nat, payload: seq<byte>, g: seq<byte>, i: nat, recvSeq: nat, rest: seq<byte>)
    requires |payload| <= MAX_FRAME_PAYLOAD && sendSeq < Power256(4)
    requires i >= 4 && Crc32.DifferWithin(FullFrame(sendSeq, payload), g, i) && g != FullFrame(sendSeq, payload)
    ensures NextStep(Full, recvSeq, g + rest) == Skip(CrcMismatch, |g|)
  {
    hide GetLE, PutLE, Crc32.Crc;
    var n, head := 12 + |payload|, FullHead(sendSeq, payload);
    var f := FullFrame(sendSeq, payload);
    Widths();
    GetPut(n, 4);
    CrcFits(head);
    GetPut(Crc32.Crc(head), 4);
    assert f[|f| - 4..] == PutLE(Crc32.Crc(head), 4) && f[..|f| - 4] == head;
    Crc32.BurstIsDetected(f, g, i);
    assert g[..4] == g[..i][..4] == f[..i][..4] == PutLE(n, 4);
    assert (g + rest)[..4] == g[..4];
    assert (g + rest)[n - 4..n] == g[|g| - 4..];
    assert (g + rest)[..n - 4] == g[..|g| - 4];
  }
}
