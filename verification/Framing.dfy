/** The four TCP framings: what one step of each decode loop does with the receive buffer,
    what a whole call does, and how frames are written. */
module Framing {
  import opened Bytes
  import Crc32

  const MAX_FRAME_PAYLOAD: nat := 16 * 1024 * 1024

  datatype Kind = Abridged | Intermediate | Padded | Full

  datatype Error = InvalidLengthByte | InvalidLength | TooLarge | CrcMismatch | SequenceMismatch

  /** NeedMore leaves the loop with a partial frame; Discard empties the buffer and leaves it. */
  datatype Step =
    | NeedMore
    | Deliver(frame: seq<byte>, used: nat)
    | Skip(error: Error, used: nat)
    | Discard(error: Error)

  // ----------------------------------------------------------------- decoding

  /** A frame of `length` payload bytes behind `header` bytes. */
  function Body(buf: seq<byte>, header: nat, length: nat): Step {
    if length > MAX_FRAME_PAYLOAD then Discard(TooLarge)
    else if |buf| < header + length then NeedMore
    else Deliver(buf[header..header + length], header + length)
  }

  function AbridgedStep(buf: seq<byte>): Step {
    if buf == [] then NeedMore
    else if buf[0] as int < 127 then Body(buf, 1, buf[0] as int * 4)
    else if buf[0] as int > 127 then Skip(InvalidLengthByte, 1)
    else if |buf| < 4 then NeedMore
    else Body(buf, 4, GetLE(buf[1..4]) * 4)
  }

  function PrefixedStep(buf: seq<byte>): Step {
    if |buf| < 4 then NeedMore else Body(buf, 4, GetLE(buf[..4]))
  }

  function FullStep(recvSeq: nat, buf: seq<byte>): Step {
    if |buf| < 12 then NeedMore else
      var totalLen := GetLE(buf[..4]);
      if totalLen < 12 then Discard(InvalidLength)
      else if totalLen > MAX_FRAME_PAYLOAD + 12 then Discard(TooLarge)
      else if |buf| < totalLen then NeedMore
      else if GetLE(buf[totalLen - 4..totalLen]) != Crc32.Crc(buf[..totalLen - 4]) then Skip(CrcMismatch, totalLen)
      else if GetLE(buf[4..8]) != recvSeq then Skip(SequenceMismatch, totalLen)
      else Deliver(buf[8..totalLen - 4], totalLen)
  }

  function NextStep(k: Kind, recvSeq: nat, buf: seq<byte>): (s: Step)
    ensures s.Deliver? || s.Skip? ==> 0 < s.used <= |buf|
  {
    match k
    case Abridged => AbridgedStep(buf)
    case Intermediate => PrefixedStep(buf)
    case Padded => PrefixedStep(buf)
    case Full => FullStep(recvSeq, buf)
  }

  /** Only the Full transport counts the frames it accepts. */
  function NextSeq(k: Kind, recvSeq: nat): nat {
    if k.Full? then recvSeq + 1 else recvSeq
  }

  /** `stopped` says that the buffer was discarded. */
  datatype Decoded = Decoded(frames: seq<seq<byte>>, errors: seq<Error>, left: seq<byte>, recvSeq: nat, stopped: bool)

  function After(frames: seq<seq<byte>>, errors: seq<Error>, r: Decoded): Decoded {
    Decoded(frames + r.frames, errors + r.errors, r.left, r.recvSeq, r.stopped)
  }

  /** One call of decodePacket on the buffered bytes. */
  function Decode(k: Kind, recvSeq: nat, buf: seq<byte>): Decoded
    decreases |buf|
  {
    match NextStep(k, recvSeq, buf)
    case NeedMore => Decoded([], [], buf, recvSeq, false)
    case Discard(e) => Decoded([], [e], [], recvSeq, true)
    case Skip(e, used) => After([], [e], Decode(k, recvSeq, buf[used..]))
    case Deliver(f, used) => After([f], [], Decode(k, NextSeq(k, recvSeq), buf[used..]))
  }

  /** The chunks arrive one by one, each decoded behind what is left of the earlier ones. */
  function Feed(k: Kind, recvSeq: nat, left: seq<byte>, chunks: seq<seq<byte>>): Decoded
    decreases chunks
  {
    if chunks == [] then Decoded([], [], left, recvSeq, false) else
      var r := Decode(k, recvSeq, left + chunks[0]);
      var t := Feed(k, r.recvSeq, r.left, chunks[1..]);
      After(r.frames, r.errors, t.(stopped := r.stopped || t.stopped))
  }

  function Concat(chunks: seq<seq<byte>>): seq<byte>
    decreases chunks
  {
    if chunks == [] then [] else chunks[0] + Concat(chunks[1..])
  }

  // ----------------------------------------------------------------- encoding

  function PaddingLength(n: nat): nat {
    (16 - n % 16) % 16
  }

  /** A payload and the random bytes the Padded transport puts behind it. */
  datatype Packet = Packet(payload: seq<byte>, padding: seq<byte>)

  predicate IsPacket(p: Packet) {
    |p.padding| == PaddingLength(|p.payload|)
  }

  function AbridgedFrame(payload: seq<byte>): seq<byte> {
    var words := |payload| / 4;
    if |payload| < 4 * 127 then [ByteOf(words)] + payload
    else [ByteOf(127)] + PutLE(words, 3) + payload
  }

  function PrefixedFrame(data: seq<byte>): seq<byte> {
    PutLE(|data|, 4) + data
  }

  function FullHead(sendSeq: nat, payload: seq<byte>): seq<byte> {
    PutLE(12 + |payload|, 4) + PutLE(sendSeq, 4) + payload
  }

  function FullFrame(sendSeq: nat, payload: seq<byte>): (f: seq<byte>)
    ensures |f| == 12 + |payload|
  {
    FullHead(sendSeq, payload) + PutLE(Crc32.Crc(FullHead(sendSeq, payload)), 4)
  }

  function Frame(k: Kind, sendSeq: nat, p: Packet): seq<byte> {
    match k
    case Abridged => AbridgedFrame(p.payload)
    case Intermediate => PrefixedFrame(p.payload)
    case Padded => PrefixedFrame(p.payload + p.padding)
    case Full => FullFrame(sendSeq, p.payload)
  }

  /** The length or sequence field does not fit its four bytes: Node throws a RangeError. */
  predicate Throws(k: Kind, sendSeq: nat, p: Packet) {
    match k
    case Abridged => false
    case Intermediate => |p.payload| >= Power256(4)
    case Padded => |p.payload + p.padding| >= Power256(4)
    case Full => 12 + |p.payload| >= Power256(4) || sendSeq >= Power256(4)
  }

  /** What the receiver hands up for the packet; the padding stays on. */
  function Delivered(k: Kind, p: Packet): seq<byte> {
    if k.Padded? then p.payload + p.padding else p.payload
  }

  /** What the wire format can carry. */
  predicate Legal(k: Kind, p: Packet) {
    |p.payload| <= MAX_FRAME_PAYLOAD && (k.Abridged? ==> |p.payload| % 4 == 0)
  }

  function Frames(k: Kind, sendSeq: nat, ps: seq<Packet>): seq<byte>
    decreases ps
  {
    if ps == [] then [] else Frame(k, sendSeq, ps[0]) + Frames(k, NextSeq(k, sendSeq), ps[1..])
  }

  function AllDelivered(k: Kind, ps: seq<Packet>): seq<seq<byte>>
    decreases ps
  {
    if ps == [] then [] else [Delivered(k, ps[0])] + AllDelivered(k, ps[1..])
  }

  ghost predicate AllLegal(k: Kind, ps: seq<Packet>) {
    forall p :: p in ps ==> IsPacket(p) && Legal(k, p)
  }
}
