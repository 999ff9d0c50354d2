/** The four transports as objects with a receive buffer. Each encodePacket writes a fresh
    buffer in place and each decodePacket runs the source's loop; both are proved equal to
    the functions of Framing. `errors` lists the error events emitted. */
module Transports {
  import opened Buffers
  import opened Bytes
  import opened Framing
  import opened Options
  import Crc32
  import FramingTheorems

  /** The result of decoding what was buffered, as the two logs and the two fields show it. */
  ghost predicate Shows(r: Decoded, frames: seq<seq<byte>>, errors: seq<Error>, left: seq<byte>, recvSeq: nat) {
    r.frames == frames && r.errors == errors && r.left == left && r.recvSeq == recvSeq
  }

  /** What one turn of a decode loop does, when `results` and `emitted` came before it. */
  lemma Turn(whole: Decoded, results: seq<seq<byte>>, emitted: seq<Error>, k: Kind, n: nat, buf: seq<byte>)
    requires whole == After(results, emitted, Decode(k, n, buf))
    ensures var s := NextStep(k, n, buf);
            && (s.NeedMore? ==> Shows(whole, results, emitted, buf, n))
            && (s.Discard? ==> Shows(whole, results, emitted + [s.error], [], n))
            && (s.Skip? ==> whole == After(results, emitted + [s.error], Decode(k, n, buf[s.used..])))
            && (s.Deliver? ==> whole == After(results + [s.frame], emitted, Decode(k, NextSeq(k, n), buf[s.used..])))
  {
    hide NextStep;
    var s := NextStep(k, n, buf);
    assert results + [] == results && emitted + [] == emitted;
    if s.Skip? {
      FramingTheorems.AfterAfter(results, emitted, [], [s.error], Decode(k, n, buf[s.used..]));
    } else if s.Deliver? {
      FramingTheorems.AfterAfter(results, emitted, [s.frame], [], Decode(k, NextSeq(k, n), buf[s.used..]));
    }
  }

  class AbridgedTransport {
    var recvBuf: seq<byte>
    ghost var errors: seq<Error>

    constructor ()
      ensures recvBuf == [] && errors == []
    {
      recvBuf, errors := [], [];
    }

    method EncodePacket(payload: seq<byte>) returns (frame: array<byte>)
      ensures fresh(frame) && frame[..] == AbridgedFrame(payload)
    {
      hide PutLE;
      var wordLen := |payload| / 4;
      if |payload| < 4 * 127 {
        frame := new byte[1 + |payload|];
        frame[0] := ByteOf(wordLen);
        CopyInto(payload, frame, 1);
        return;
      }
      frame := new byte[4 + |payload|];
      frame[0] := ByteOf(127);
      frame[1] := ByteOf(wordLen % 256);
      frame[2] := ByteOf(wordLen / 0x100 % 256);
      frame[3] := ByteOf(wordLen / 0x1_0000 % 256);
      ThreeBytes(wordLen);
      assert frame[..4] == [ByteOf(127)] + PutLE(wordLen, 3);
      CopyInto(payload, frame, 4);
    }

    method EmitError(error: Error)
      modifies this`errors
      ensures errors == old(errors) + [error]
    {
      errors := errors + [error];
    }

    method DecodePacket(data: seq<byte>) returns (results: seq<seq<byte>>)
      modifies this
      ensures exists e :: errors == old(errors) + e &&
                Shows(Decode(Abridged, 0, old(recvBuf) + data), results, e, recvBuf, 0)
    {
      hide GetLE, Decode, After, NextStep;
      if |data| > 0 {
        recvBuf := recvBuf + data;
      }
      assert recvBuf == old(recvBuf) + data;
      results := [];
      ghost var whole, emitted, done := Decode(Abridged, 0, recvBuf), [], false;
      FramingTheorems.AfterNothing(whole);
      while |recvBuf| > 0
        invariant !done && whole == After(results, emitted, Decode(Abridged, 0, recvBuf))
        invariant errors == old(errors) + emitted
        decreases |recvBuf|
      {
        Turn(whole, results, emitted, Abridged, 0, recvBuf);
        ghost var step := NextStep(Abridged, 0, recvBuf);
        AbridgedTurn(0, recvBuf);
        var firstByte := recvBuf[0] as int;
        var headerSize, payloadLen := 1, firstByte * 4;
        if firstByte == 127 {
          if |recvBuf| < 4 { done := true; break; }
          headerSize := 4;
          payloadLen := GetLE(recvBuf[1..4]) * 4;
        } else if firstByte > 127 {
          assert step == Skip(InvalidLengthByte, 1);
          emitted := emitted + [InvalidLengthByte];
          EmitError(InvalidLengthByte);
          recvBuf := recvBuf[1..];
          continue;
        }
        if payloadLen > MAX_FRAME_PAYLOAD {
          assert step == Discard(TooLarge);
          emitted := emitted + [TooLarge];
          EmitError(TooLarge);
          recvBuf := [];
          done := true;
          break;
        }
        var totalLen := headerSize + payloadLen;
        if |recvBuf| < totalLen { done := true; break; }
        var payload := recvBuf[headerSize..headerSize + payloadLen];
        assert step == Deliver(payload, totalLen);
        results := results + [payload];
        recvBuf := recvBuf[totalLen..];
      }
      if !done {
        Turn(whole, results, emitted, Abridged, 0, recvBuf);
        AbridgedTurn(0, recvBuf);
      }
      assert Shows(whole, results, emitted, recvBuf, 0);
    }
  }

  lemma ThreeBytes(n: nat)
    ensures PutLE(n, 3) == [ByteOf(n % 256), ByteOf(n / 0x100 % 256), ByteOf(n / 0x1_0000 % 256)]
  {
    assert PutLE(n / 0x1_0000, 1) == [ByteOf(n / 0x1_0000 % 256)] + PutLE(n / 0x1_0000 / 256, 0);
    assert n / 256 / 256 == n / 0x1_0000;
    assert PutLE(n / 256, 2) == [ByteOf(n / 256 % 256)] + PutLE(n / 256 / 256, 1);
  }

  class IntermediateTransport {
    var recvBuf: seq<byte>
    ghost var errors: seq<Error>

    constructor ()
      ensures recvBuf == [] && errors == []
    {
      recvBuf, errors := [], [];
    }

    /** None is the RangeError of writeUInt32LE. */
    method EncodePacket(payload: seq<byte>) returns (r: Option<array<byte>>)
      ensures r.None? <==> Throws(Intermediate, 0, Packet(payload, []))
      ensures r.Some? ==> fresh(r.value) && r.value[..] == PrefixedFrame(payload)
    {
      hide PutLE;
      Widths();
      var frame := new byte[4 + |payload|];
      if |payload| >= 0x1_0000_0000 { return None; }
      CopyInto(PutLE(|payload|, 4), frame, 0);
      CopyInto(payload, frame, 4);
      return Some(frame);
    }

    method EmitError(error: Error)
      modifies this`errors
      ensures errors == old(errors) + [error]
    {
      errors := errors + [error];
    }

    method DecodePacket(data: seq<byte>) returns (results: seq<seq<byte>>)
      modifies this
      ensures exists e :: errors == old(errors) + e &&
                Shows(Decode(Intermediate, 0, old(recvBuf) + data), results, e, recvBuf, 0)
    {
      hide GetLE, Decode, After;
      if |data| > 0 {
        recvBuf := recvBuf + data;
      }
      assert recvBuf == old(recvBuf) + data;
      results := [];
      ghost var whole, emitted, done := Decode(Intermediate, 0, recvBuf), [], false;
      FramingTheorems.AfterNothing(whole);
      while |recvBuf| >= 4
        invariant !done && whole == After(results, emitted, Decode(Intermediate, 0, recvBuf))
        invariant errors == old(errors) + emitted
        decreases |recvBuf|
      {
        Turn(whole, results, emitted, Intermediate, 0, recvBuf);
        ghost var step := NextStep(Intermediate, 0, recvBuf);
        var payloadLen := GetLE(recvBuf[..4]);
        if payloadLen > MAX_FRAME_PAYLOAD {
          assert step == Discard(TooLarge);
          emitted := emitted + [TooLarge];
          EmitError(TooLarge);
          recvBuf := [];
          done := true;
          break;
        }
        var totalLen := 4 + payloadLen;
        if |recvBuf| < totalLen { done := true; break; }
        var payload := recvBuf[4..4 + payloadLen];
        assert step == Deliver(payload, totalLen);
        results := results + [payload];
        recvBuf := recvBuf[totalLen..];
      }
      if !done { Turn(whole, results, emitted, Intermediate, 0, recvBuf); }
      assert Shows(whole, results, emitted, recvBuf, 0);
    }
  }

  lemma PaddedParts(payload: seq<byte>, padding: seq<byte>)
    ensures PutLE(|payload| + |padding|, 4) + payload + padding == PrefixedFrame(payload + padding)
    ensures PutLE(|payload| + |padding|, 4) + payload + [] == PutLE(|payload| + |padding|, 4) + payload
  {
    hide PutLE;
  }

  class PaddedIntermediateTransport {
    var recvBuf: seq<byte>
    ghost var errors: seq<Error>

    constructor ()
      ensures recvBuf == [] && errors == []
    {
      recvBuf, errors := [], [];
    }

    /** `padding` are the random bytes drawn. */
    method EncodePacket(payload: seq<byte>, padding: seq<byte>) returns (r: Option<array<byte>>)
      requires |padding| == PaddingLength(|payload|)
      ensures r.None? <==> Throws(Padded, 0, Packet(payload, padding))
      ensures r.Some? ==> fresh(r.value) && r.value[..] == PrefixedFrame(payload + padding)
    {
      hide PutLE, Power256;
      Widths();
      var paddingLen := (16 - |payload| % 16) % 16;
      var totalDataLen := |payload| + paddingLen;
      var frame := new byte[4 + totalDataLen];
      if totalDataLen >= 0x1_0000_0000 { return None; }
      Fill(PutLE(totalDataLen, 4), frame, 0);
      Fill(payload, frame, 4);
      if paddingLen > 0 {
        Fill(padding, frame, 4 + |payload|);
      }
      PaddedParts(payload, padding);
      assert frame[..] == frame[..4 + totalDataLen];
      return Some(frame);
    }

    method EmitError(error: Error)
      modifies this`errors
      ensures errors == old(errors) + [error]
    {
      errors := errors + [error];
    }

    method DecodePacket(data: seq<byte>) returns (results: seq<seq<byte>>)
      modifies this
      ensures exists e :: errors == old(errors) + e &&
                Shows(Decode(Padded, 0, old(recvBuf) + data), results, e, recvBuf, 0)
    {
      hide GetLE, Decode, After;
      if |data| > 0 {
        recvBuf := recvBuf + data;
      }
      assert recvBuf == old(recvBuf) + data;
      results := [];
      ghost var whole, emitted, done := Decode(Padded, 0, recvBuf), [], false;
      FramingTheorems.AfterNothing(whole);
      while |recvBuf| >= 4
        invariant !done && whole == After(results, emitted, Decode(Padded, 0, recvBuf))
        invariant errors == old(errors) + emitted
        decreases |recvBuf|
      {
        Turn(whole, results, emitted, Padded, 0, recvBuf);
        ghost var step := NextStep(Padded, 0, recvBuf);
        var payloadLen := GetLE(recvBuf[..4]);
        if payloadLen > MAX_FRAME_PAYLOAD {
          assert step == Discard(TooLarge);
          emitted := emitted + [TooLarge];
          EmitError(TooLarge);
          recvBuf := [];
          done := true;
          break;
        }
        var totalLen := 4 + payloadLen;
        if |recvBuf| < totalLen { done := true; break; }
        var payload := recvBuf[4..4 + payloadLen];
        assert step == Deliver(payload, totalLen);
        results := results + [payload];
        recvBuf := recvBuf[totalLen..];
      }
      if !done { Turn(whole, results, emitted, Padded, 0, recvBuf); }
      assert Shows(whole, results, emitted, recvBuf, 0);
    }
  }

  lemma AbridgedTurn(n: nat, buf: seq<byte>)
    ensures NextStep(Abridged, n, buf) == AbridgedStep(buf)
  {}

  lemma FullTurn(n: nat, buf: seq<byte>)
    ensures NextStep(Full, n, buf) == FullStep(n, buf)
  {}

  class FullTransport {
    const table: array<nat>
    var recvBuf: seq<byte>
    var sendSeq: nat
    var recvSeq: nat
    ghost var errors: seq<Error>

    ghost predicate Valid()
      reads table
    {
      Crc32.IsTable(table[..])
    }

    constructor ()
      ensures Valid() && fresh(table) && recvBuf == [] && sendSeq == 0 && recvSeq == 0 && errors == []
    {
      var t := Crc32.BuildTable();
      table := t;
      recvBuf, sendSeq, recvSeq, errors := [], 0, 0, [];
    }

    method EncodePacket(payload: seq<byte>) returns (r: Option<array<byte>>)
      requires Valid()
      modifies this`sendSeq
      ensures r.None? <==> Throws(Full, old(sendSeq), Packet(payload, []))
      ensures r.None? ==> sendSeq == old(sendSeq)
      ensures r.Some? ==> fresh(r.value) && r.value[..] == FullFrame(old(sendSeq), payload) && sendSeq == old(sendSeq) + 1
    {
      hide PutLE, Crc32.Crc;
      Widths();
      var totalLen := 12 + |payload|;
      var frame := new byte[totalLen];
      if totalLen >= 0x1_0000_0000 || sendSeq >= 0x1_0000_0000 { return None; }
      CopyInto(PutLE(totalLen, 4), frame, 0);
      CopyInto(PutLE(sendSeq, 4), frame, 4);
      CopyInto(payload, frame, 8);
      assert frame[..totalLen - 4] == FullHead(sendSeq, payload);
      var crcValue := Crc32.ComputeCrc(table, frame[..totalLen - 4]);
      CopyInto(PutLE(crcValue, 4), frame, totalLen - 4);
      sendSeq := sendSeq + 1;
      return Some(frame);
    }

    /** The CRC check, then the sequence check. */
    method CheckFrame(totalLen: nat) returns (problem: Option<Error>)
      requires Valid() && 12 <= totalLen <= |recvBuf|
      ensures problem ==
              if GetLE(recvBuf[totalLen - 4..totalLen]) != Crc32.Crc(recvBuf[..totalLen - 4]) then Some(CrcMismatch)
              else if GetLE(recvBuf[4..8]) != recvSeq then Some(SequenceMismatch)
              else None
    {
      var frameCrc := GetLE(recvBuf[totalLen - 4..totalLen]);
      var computedCrc := Crc32.ComputeCrc(table, recvBuf[..totalLen - 4]);
      if frameCrc != computedCrc { return Some(CrcMismatch); }
      var seqNo := GetLE(recvBuf[4..8]);
      if seqNo != recvSeq { return Some(SequenceMismatch); }
      return None;
    }

    method EmitError(error: Error)
      modifies this`errors
      ensures errors == old(errors) + [error]
    {
      errors := errors + [error];
    }

    method DecodePacket(data: seq<byte>) returns (results: seq<seq<byte>>)
      requires Valid()
      modifies this
      ensures exists e :: errors == old(errors) + e &&
                Shows(Decode(Full, old(recvSeq), old(recvBuf) + data), results, e, recvBuf, recvSeq)
      ensures sendSeq == old(sendSeq)
    {
      hide GetLE, Decode, After, Crc32.Crc, NextStep;
      if |data| > 0 {
        recvBuf := recvBuf + data;
      }
      assert recvBuf == old(recvBuf) + data;
      results := [];
      ghost var whole, emitted, done := Decode(Full, recvSeq, recvBuf), [], false;
      FramingTheorems.AfterNothing(whole);
      while |recvBuf| >= 12
        invariant !done && whole == After(results, emitted, Decode(Full, recvSeq, recvBuf))
        invariant errors == old(errors) + emitted
        invariant sendSeq == old(sendSeq)
        decreases |recvBuf|
      {
        Turn(whole, results, emitted, Full, recvSeq, recvBuf);
        ghost var step := NextStep(Full, recvSeq, recvBuf);
        FullTurn(recvSeq, recvBuf);
        var totalLen := GetLE(recvBuf[..4]);
        if totalLen < 12 {
          assert step == Discard(InvalidLength);
          emitted := emitted + [InvalidLength];
          EmitError(InvalidLength);
          recvBuf := [];
          done := true;
          break;
        }
        if totalLen > MAX_FRAME_PAYLOAD + 12 {
          assert step == Discard(TooLarge);
          emitted := emitted + [TooLarge];
          EmitError(TooLarge);
          recvBuf := [];
          done := true;
          break;
        }
        if |recvBuf| < totalLen { done := true; break; }
        var problem := CheckFrame(totalLen);
        if problem.Some? {
          assert step == Skip(problem.value, totalLen);
          emitted := emitted + [problem.value];
          EmitError(problem.value);
          recvBuf := recvBuf[totalLen..];
          continue;
        }
        var payload := recvBuf[8..8 + (totalLen - 12)];
        assert step == Deliver(payload, totalLen);
        recvSeq := recvSeq + 1;
        results := results + [payload];
        recvBuf := recvBuf[totalLen..];
      }
      if !done {
        Turn(whole, results, emitted, Full, recvSeq, recvBuf);
        FullTurn(recvSeq, recvBuf);
      }
      assert Shows(whole, results, emitted, recvBuf, recvSeq);
    }
  }
}
