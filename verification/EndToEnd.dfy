/** Encrypted messages over the transports: sealed, framed, obfuscated, cut into chunks,
    decoded and decrypted. */
module EndToEnd {
  import opened Bytes
  import opened Framing
  import Encryption
  import FramingTheorems
  import Obfuscation

  /** The two ends share the auth key; `isClient` says which way the message goes. */
  datatype Channel = Channel(prims: Encryption.Primitives, authKey: seq<byte>, isClient: bool)
  {
    ghost predicate Valid() {
      Encryption.Sound(prims)
    }

    ghost predicate Seals(payload: seq<byte>, m: Encryption.Message)
      requires Valid()
    {
      exists padding :: Encryption.IsSealed(prims, authKey, payload, isClient, m, padding)
    }

    function Open(payload: seq<byte>): Encryption.Decryption
      requires Valid()
    {
      Encryption.Decrypted(prims, authKey, payload, isClient)
    }
  }

  /** A sealed message is 8 bytes past a multiple of 16. */
  lemma SealedLength(ch: Channel, payload: seq<byte>, m: Encryption.Message)
    requires ch.Valid() && ch.Seals(payload, m)
    ensures |payload| >= 24 && |payload| % 16 == 8
  {
    hide Encryption.Seal, Encryption.Plaintext, Encryption.MessageFits, Encryption.Sound;
    var padding :| Encryption.IsSealed(ch.prims, ch.authKey, payload, ch.isClient, m, padding);
    assert |payload[8..]| == 16 + (32 + |m.data| + |padding|);
  }

  /** The delivered frame of a sealed message opens to the message, except over the Padded
      transport: that pads every sealed message by 8 bytes, nobody takes them off, and the
      ciphertext is no longer whole blocks. */
  lemma SealedFrameOpens(ch: Channel, k: Kind, p: Packet, m: Encryption.Message)
    requires ch.Valid() && IsPacket(p) && ch.Seals(p.payload, m)
    ensures ch.Open(Delivered(k, p)) == Encryption.Opened(m) <==> !k.Padded?
    ensures k.Padded? ==> ch.Open(Delivered(k, p)) == Encryption.Refused(Encryption.NotBlocks)
  {
    hide Encryption.OpenedPlaintext, Encryption.MsgKey, Encryption.ParsePlaintext, Encryption.Sound, Encryption.IsSealed;
    SealedLength(ch, p.payload, m);
    Encryption.OpensExactlyTheSealed(ch.prims, ch.authKey, p.payload, ch.isClient, m);
  }

  /** Each payload seals its message and is small enough to be framed. */
  ghost predicate SealsAll(ch: Channel, ps: seq<Packet>, ms: seq<Encryption.Message>)
    requires ch.Valid()
  {
    && |ps| == |ms|
    && forall i :: 0 <= i < |ps| ==> IsPacket(ps[i]) && |ps[i].payload| <= MAX_FRAME_PAYLOAD && ch.Seals(ps[i].payload, ms[i])
  }

  lemma SealedIsLegal(ch: Channel, k: Kind, ps: seq<Packet>, ms: seq<Encryption.Message>)
    requires ch.Valid() && SealsAll(ch, ps, ms)
    ensures AllLegal(k, ps)
  {
    hide Channel.Seals, Channel.Valid, IsPacket, Legal;
    forall p | p in ps ensures IsPacket(p) && Legal(k, p) {
      var i :| 0 <= i < |ps| && ps[i] == p;
      SealedLength(ch, p.payload, ms[i]);
      WordsAreLegal(k, p);
    }
  }

  lemma WordsAreLegal(k: Kind, p: Packet)
    requires |p.payload| <= MAX_FRAME_PAYLOAD && |p.payload| % 16 == 8
    ensures Legal(k, p)
  {}

  lemma {:induction false} DeliveredAt(k: Kind, ps: seq<Packet>, i: nat)
    requires i < |ps|
    ensures |AllDelivered(k, ps)| == |ps| && AllDelivered(k, ps)[i] == Delivered(k, ps[i])
    decreases ps
  {
    if i > 0 {
      DeliveredAt(k, ps[1..], i - 1);
    } else if |ps| > 1 {
      DeliveredAt(k, ps[1..], 0);
    }
  }

  /** Messages sealed, framed, obfuscated and cut into chunks anywhere arrive one frame each,
      nothing left over, and every frame opens to its message - over every transport but the
      Padded one, over which none does. */
  lemma EveryMessageArrives(ch: Channel, k: Kind, n: nat, ks: Obfuscation.Keystream, pos: nat,
                            ps: seq<Packet>, ms: seq<Encryption.Message>, chunks: seq<seq<byte>>)
    requires ch.Valid() && SealsAll(ch, ps, ms)
    requires n < Power256(4) && FramingTheorems.SeqAfter(k, n, |ps|) <= Power256(4)
    requires Concat(chunks) == Obfuscation.Ciphertext(k, n, ks, pos, ps)
    ensures var r := Feed(k, n, [], Obfuscation.Decrypted(ks, pos, chunks));
            && |r.frames| == |ms| && r.errors == [] && r.left == []
            && forall i :: 0 <= i < |ms| ==> (ch.Open(r.frames[i]) == Encryption.Opened(ms[i]) <==> !k.Padded?)
  {
    hide Feed, Concat, AllDelivered, AllLegal, Power256, FramingTheorems.SeqAfter, Channel.Seals, Channel.Open;
    hide Obfuscation.Decrypted, Obfuscation.Ciphertext;
    SealedIsLegal(ch, k, ps, ms);
    Obfuscation.ObfuscatedRoundTrip(k, n, ks, pos, ps, chunks);
    if ps == [] { NoneDelivered(k); } else { DeliveredAt(k, ps, 0); }
    forall i | 0 <= i < |ms|
      ensures ch.Open(AllDelivered(k, ps)[i]) == Encryption.Opened(ms[i]) <==> !k.Padded?
    {
      DeliveredAt(k, ps, i);
      SealedFrameOpens(ch, k, ps[i], ms[i]);
    }
  }

  lemma NoneDelivered(k: Kind)
    ensures AllDelivered(k, []) == []
  {}
}
