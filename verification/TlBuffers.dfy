/** TLWriter and TLReader as objects: a buffer that grows by doubling refines appending to a
    byte sequence, and a moving offset refines taking bytes off the front. A method that
    returns false or None is one that throws in the source. */
module TlBuffers {
  import opened Bytes
  import opened Options
  import opened TlCodec

  class TLWriter {
    var buf: array<byte>
    var offset: nat

    ghost predicate Valid()
      reads this
    {
      0 < buf.Length && offset <= buf.Length && offset <= MAX_BUFFER_SIZE
    }

    /** What has been written. */
    ghost function Contents(): seq<byte>
      reads this, buf
      requires Valid()
    {
      buf[..offset]
    }

    /** A capacity of zero never grows: see DoublingReaches. */
    constructor (initialCapacity: nat)
      requires initialCapacity > 0
      ensures Valid() && fresh(buf) && Contents() == []
    {
      buf := new byte[initialCapacity];
      offset := 0;
    }

    method EnsureCapacity(additional: nat) returns (ok: bool)
      requires Valid()
      modifies this`buf
      ensures Valid() && Contents() == old(Contents()) && (buf == old(buf) || fresh(buf))
      ensures ok <==> |old(Contents())| + additional <= 50 * 1024 * 1024
      ensures ok ==> offset + additional <= buf.Length
    {
      var required := offset + additional;
      if required > MAX_BUFFER_SIZE { return false; }
      if required <= buf.Length { return true; }
      var newSize := buf.Length;
      while newSize < required
        invariant newSize >= buf.Length
        decreases required - newSize
      {
        newSize := newSize * 2;
      }
      var newBuf := new byte[newSize];
      for i := 0 to offset
        invariant buf == old(buf) && newBuf[..i] == buf[..i]
      {
        newBuf[i] := buf[i];
      }
      buf := newBuf;
      return true;
    }

    /** Copies the bytes in at the offset; the capacity is already there. */
    method Put(data: seq<byte>)
      requires Valid() && offset + |data| <= buf.Length && offset + |data| <= MAX_BUFFER_SIZE
      modifies this`offset, buf
      ensures Valid() && Contents() == old(Contents()) + data && buf == old(buf)
    {
      for i := 0 to |data|
        invariant Valid() && buf == old(buf) && offset == old(offset) + i
        invariant Contents() == old(Contents()) + data[..i]
      {
        buf[offset] := data[i];
        offset := offset + 1;
      }
      assert data[..|data|] == data;
    }

    method WriteRaw(data: seq<byte>) returns (ok: bool)
      requires Valid()
      modifies this, buf
      ensures Valid() && (buf == old(buf) || fresh(buf))
      ensures ok <==> |old(Contents())| + |data| <= MAX_BUFFER_SIZE
      ensures Contents() == if ok then old(Contents()) + data else old(Contents())
    {
      ok := EnsureCapacity(|data|);
      if ok { Put(data); }
    }

    /** The value must fit four bytes, or writeInt32LE throws. */
    method WriteInt32(value: int) returns (ok: bool)
      requires Valid()
      modifies this, buf
      ensures Valid() && (buf == old(buf) || fresh(buf))
      ensures ok <==> -0x8000_0000 <= value < 0x8000_0000 && |old(Contents())| + 4 <= MAX_BUFFER_SIZE
      ensures ok ==> Fits(value, 4)
      ensures Contents() == if ok then old(Contents()) + PutInt(value, 4) else old(Contents())
    {
      hide PutInt, Power256, Fits;
      FitsMeans(value);
      ok := EnsureCapacity(4);
      if !ok || !Fits(value, 4) { return false; }
      Put(PutInt(value, 4));
    }

    method WriteUInt32(value: nat) returns (ok: bool)
      requires Valid() && value < 0x1_0000_0000
      modifies this, buf
      ensures Valid() && (buf == old(buf) || fresh(buf))
      ensures ok <==> |old(Contents())| + 4 <= MAX_BUFFER_SIZE
      ensures Contents() == if ok then old(Contents()) + PutLE(value, 4) else old(Contents())
    {
      hide PutLE;
      ok := EnsureCapacity(4);
      if ok { Put(PutLE(value, 4)); }
    }

    /** Values from 2^63 up are taken for unsigned and stored as value - 2^64. The range check
        comes after that, so the 2^63 values from 2^64 up are written too, as if they were
        2^64 smaller. */
    method WriteInt64(value: int) returns (ok: bool)
      requires Valid()
      modifies this, buf
      ensures Valid() && (buf == old(buf) || fresh(buf))
      ensures ok <==> -0x8000_0000_0000_0000 <= value < 0x1_8000_0000_0000_0000 && |old(Contents())| + 8 <= MAX_BUFFER_SIZE
      ensures ok ==> Fits(AsSigned(value), 8)
      ensures Contents() == if ok then old(Contents()) + PutInt(AsSigned(value), 8) else old(Contents())
    {
      hide PutInt, Power256;
      Widths();
      ok := EnsureCapacity(8);
      var v := AsSigned(value);
      if !ok || !Fits(v, 8) { return false; }
      Put(PutInt(v, 8));
    }

    method WriteBool(value: bool) returns (ok: bool)
      requires Valid()
      modifies this, buf
      ensures Valid() && (buf == old(buf) || fresh(buf))
      ensures ok <==> |old(Contents())| + 4 <= MAX_BUFFER_SIZE
      ensures Contents() == if ok then old(Contents()) + PutLE(if value then BOOL_TRUE else BOOL_FALSE, 4) else old(Contents())
    {
      ok := WriteUInt32(if value then BOOL_TRUE else BOOL_FALSE);
    }

    /** The zero-filling loop at the end of writeBytes. */
    method Pad(padding: nat)
      requires Valid() && offset + padding <= buf.Length && offset + padding <= MAX_BUFFER_SIZE
      modifies this`offset, buf
      ensures Valid() && Contents() == old(Contents()) + Zeros(padding) && buf == old(buf)
    {
      for i := 0 to padding
        invariant Valid() && buf == old(buf) && offset == old(offset) + i
        invariant Contents() == old(Contents()) + Zeros(i)
      {
        buf[offset] := 0;
        offset := offset + 1;
      }
    }

    method WriteBytes(data: seq<byte>) returns (ok: bool)
      requires Valid()
      modifies this, buf
      ensures Valid() && (buf == old(buf) || fresh(buf))
      ensures ok <==> |old(Contents())| + |EncodeBlob(data)| <= MAX_BUFFER_SIZE
      ensures Contents() == if ok then old(Contents()) + EncodeBlob(data) else old(Contents())
    {
      hide BlobHeader, Zeros, EncodeBlob;
      var length := |data|;
      var headerSize := if length < 254 then 1 else 4;
      var totalBeforePad := headerSize + length;
      var padding := (4 - totalBeforePad % 4) % 4;
      BlobParts(old(Contents()), data, headerSize, padding);
      ok := EnsureCapacity(totalBeforePad + padding);
      if !ok { return; }
      Put(BlobHeader(length));
      Put(data);
      Pad(padding);
    }

    /** Serializes a tree; it succeeds exactly when the whole encoding fits, and otherwise
        stops somewhere inside it. */
    method WriteValue(v: Value) returns (ok: bool)
      requires Valid() && Legal(v)
      modifies this, buf
      ensures Valid() && (buf == old(buf) || fresh(buf))
      ensures ok <==> |old(Contents())| + |Encode(v)| <= MAX_BUFFER_SIZE
      ensures ok ==> Contents() == old(Contents()) + Encode(v)
      ensures old(Contents()) <= Contents() <= old(Contents()) + Encode(v)
      decreases v, 1
    {
      hide PutLE, PutInt, EncodeBlob, Power256;
      Widths();
      match v {
        case Int(n) => ok := WriteInt32(n);
        case Long(n) => ok := WriteInt64(n);
        case Bool(b) => ok := WriteBool(b);
        case Blob(data) => ok := WriteBytes(data);
        case Record(fields) => ok := WriteAll(fields);
        case Vector(items) => ok := WriteVector(items);
      }
    }

    method WriteVector(items: seq<Value>) returns (ok: bool)
      requires Valid() && Legal(Vector(items))
      modifies this, buf
      ensures Valid() && (buf == old(buf) || fresh(buf))
      ensures ok <==> |old(Contents())| + |Encode(Vector(items))| <= MAX_BUFFER_SIZE
      ensures ok ==> Contents() == old(Contents()) + Encode(Vector(items))
      ensures old(Contents()) <= Contents() <= old(Contents()) + Encode(Vector(items))
      decreases items, 1
    {
      hide PutLE, PutInt, Power256, EncodeAll, Encode;
      Counts();
      EncodedVector(Contents(), items);
      PrefixOfLonger(Contents(), Contents(), Encode(Vector(items)));
      ok := WriteUInt32(VECTOR_CID);
      if !ok { return; }
      PrefixOfLonger(Contents(), Contents() + PutInt(|items|, 4), EncodeAll(items));
      ok := WriteInt32(|items|);
      if !ok { return; }
      ok := WriteAll(items);
    }

    method WriteAll(vs: seq<Value>) returns (ok: bool)
      requires Valid() && AllLegal(vs)
      modifies this, buf
      ensures Valid() && (buf == old(buf) || fresh(buf))
      ensures ok <==> |old(Contents())| + |EncodeAll(vs)| <= MAX_BUFFER_SIZE
      ensures ok ==> Contents() == old(Contents()) + EncodeAll(vs)
      ensures old(Contents()) <= Contents() <= old(Contents()) + EncodeAll(vs)
      decreases vs, 0
    {
      hide Encode, EncodeAll;
      EncodedStep(Contents(), vs);
      if vs == [] {
        return true;
      }
      ok := WriteValue(vs[0]);
      PrefixOfLonger(Contents(), old(Contents()) + Encode(vs[0]), EncodeAll(vs[1..]));
      if ok {
        ok := WriteAll(vs[1..]);
      }
    }
  }

  lemma EncodedVector(before: seq<byte>, items: seq<Value>)
    requires Legal(Vector(items)) && Fits(|items|, 4)
    ensures before + Encode(Vector(items)) == before + PutLE(VECTOR_CID, 4) + PutInt(|items|, 4) + EncodeAll(items)
  {
    hide PutLE, PutInt, Power256, EncodeAll;
    Associative(before, PutLE(VECTOR_CID, 4), PutInt(|items|, 4), EncodeAll(items));
  }

  lemma Associative(a: seq<byte>, b: seq<byte>, c: seq<byte>, d: seq<byte>)
    ensures a + (b + c + d) == a + b + c + d
  {}

  lemma EncodedStep(before: seq<byte>, vs: seq<Value>)
    requires AllLegal(vs)
    ensures vs == [] ==> before + EncodeAll(vs) == before
    ensures vs != [] ==> before + EncodeAll(vs) == before + Encode(vs[0]) + EncodeAll(vs[1..])
  {
    hide Encode;
    if vs != [] { Associative(before, Encode(vs[0]), EncodeAll(vs[1..]), []); }
  }

  lemma PrefixOfLonger(s: seq<byte>, t: seq<byte>, more: seq<byte>)
    ensures s <= t ==> s <= t + more
    ensures t <= t + more
  {}

  lemma BlobTotal(headerSize: nat, length: nat)
    ensures (4 - (headerSize + length) % 4) % 4 == Padding(headerSize + length)
  {}

  lemma BlobParts(before: seq<byte>, data: seq<byte>, headerSize: nat, padding: nat)
    requires headerSize == if |data| < 254 then 1 else 4
    requires padding == (4 - (headerSize + |data|) % 4) % 4
    ensures before + BlobHeader(|data|) + data + Zeros(padding) == before + EncodeBlob(data)
    ensures |EncodeBlob(data)| == headerSize + |data| + padding
  {
    hide BlobHeader, Zeros;
  }

  /** The buffer size after the growth loop has run `times` rounds. */
  function Doubled(size: nat, times: nat): nat
    decreases times
  {
    if times == 0 then size else Doubled(size * 2, times - 1)
  }

  /** The growth loop ever gets to a required size exactly when it starts above zero; a writer
      made with capacity 0 spins forever on its first write. */
  lemma DoublingReaches(capacity: nat, required: nat)
    requires required > capacity
    ensures (exists times :: Doubled(capacity, times) >= required) <==> capacity > 0
  {
    if capacity == 0 {
      forall times ensures Doubled(0, times) == 0 { ZeroStays(times); }
    } else {
      DoublingGrows(capacity, required);
    }
  }

  lemma {:induction false} ZeroStays(times: nat)
    ensures Doubled(0, times) == 0
  {
    if times > 0 { ZeroStays(times - 1); }
  }

  lemma {:induction false} DoublingGrows(capacity: nat, times: nat)
    requires capacity > 0
    ensures Doubled(capacity, times) >= capacity + times
    decreases times
  {
    if times > 0 { DoublingGrows(capacity * 2, times - 1); }
  }

  /** The signed value with the bits of an unsigned one. */
  function AsSigned(value: int): int {
    if value >= 0x8000_0000_0000_0000 then value - 0x1_0000_0000_0000_0000 else value
  }

  class TLReader {
    const buf: seq<byte>
    var offset: nat

    ghost predicate Valid()
      reads this
    {
      offset <= |buf|
    }

    /** What is still to be read. */
    ghost function Rest(): seq<byte>
      reads this
      requires Valid()
    {
      buf[offset..]
    }

    constructor (buffer: seq<byte>)
      ensures Valid() && Rest() == buffer
    {
      buf := buffer;
      offset := 0;
    }

    method ReadRaw(length: nat) returns (r: Option<seq<byte>>)
      requires Valid()
      modifies this`offset
      ensures Valid()
      ensures r == if length <= |old(Rest())| then Some(old(Rest())[..length]) else None
      ensures Rest() == old(Rest())[if r.None? then 0 else length..]
    {
      if offset + length > |buf| { return None; }
      r := Some(buf[offset..offset + length]);
      assert r.value == Rest()[..length] && buf[offset + length..] == Rest()[length..];
      offset := offset + length;
    }

    method ReadInt32() returns (r: Option<int>)
      requires Valid()
      modifies this`offset
      ensures Valid()
      ensures r == if 4 <= |old(Rest())| then Some(GetInt(old(Rest())[..4])) else None
      ensures Rest() == old(Rest())[if r.None? then 0 else 4..]
    {
      hide GetInt;
      var raw := ReadRaw(4);
      r := if raw.None? then None else Some(GetInt(raw.value));
    }

    method ReadUInt32() returns (r: Option<nat>)
      requires Valid()
      modifies this`offset
      ensures Valid()
      ensures r == if 4 <= |old(Rest())| then Some(GetLE(old(Rest())[..4])) else None
      ensures Rest() == old(Rest())[if r.None? then 0 else 4..]
    {
      hide GetLE;
      var raw := ReadRaw(4);
      r := if raw.None? then None else Some(GetLE(raw.value));
    }

    method ReadInt64() returns (r: Option<int>)
      requires Valid()
      modifies this`offset
      ensures Valid()
      ensures r == if 8 <= |old(Rest())| then Some(GetInt(old(Rest())[..8])) else None
      ensures Rest() == old(Rest())[if r.None? then 0 else 8..]
    {
      hide GetInt;
      var raw := ReadRaw(8);
      r := if raw.None? then None else Some(GetInt(raw.value));
    }

    /** The length header of a byte string: the length and the bytes that announce it. */
    method PeekLength() returns (l: Option<(nat, nat)>)
      requires Valid()
      ensures l == BlobLength(Rest())
    {
      hide GetLE;
      if offset + 1 > |buf| { return None; }
      if buf[offset] as int < 254 { return Some((buf[offset] as int, 1)); }
      if offset + 4 > |buf| { return None; }
      SliceOfRest(offset, 1, 4);
      return Some((GetLE(buf[offset + 1..offset + 4]), 4));
    }

    /** A refused byte string leaves the offset where it was. */
    method ReadBytes() returns (r: Option<seq<byte>>)
      requires Valid()
      modifies this`offset
      ensures Valid()
      ensures r.Some? <==> DecodeBlob(old(Rest())).Some?
      ensures r.Some? ==> DecodeBlob(old(Rest())) == Some(Parsed(r.value, Rest()))
      ensures r.None? ==> Rest() == old(Rest())
    {
      hide BlobLength, Padding;
      var l := PeekLength();
      if l.None? { return None; }
      var (length, headerSize) := l.value;
      if length > MAX_BYTES_LENGTH { return None; }
      var totalBeforePad := headerSize + length;
      var padding := (4 - totalBeforePad % 4) % 4;
      BlobTotal(headerSize, length);
      var totalBytes := totalBeforePad + padding;
      if offset + totalBytes > |buf| { return None; }
      r := Some(buf[offset + headerSize..offset + headerSize + length]);
      SliceOfRest(offset, headerSize, headerSize + length);
      assert buf[offset + totalBytes..] == Rest()[totalBytes..];
      offset := offset + totalBytes;
    }

    lemma SliceOfRest(at: nat, i: nat, j: nat)
      requires i <= j && at + j <= |buf|
      ensures buf[at + i..at + j] == buf[at..][i..j]
    {}

    method ReadBool() returns (r: Option<bool>)
      requires Valid()
      modifies this`offset
      ensures Valid()
      ensures r.Some? <==> DecodeBool(old(Rest())).Some?
      ensures r.Some? ==> DecodeBool(old(Rest())) == Some(Parsed(Bool(r.value), Rest()))
      ensures r == Some(true) <==> |old(Rest())| >= 4 && old(Rest())[..4] == [0xb5, 0x75, 0x72, 0x99]
      ensures r == Some(false) <==> |old(Rest())| >= 4 && old(Rest())[..4] == [0x37, 0x97, 0x79, 0xbc]
    {
      hide GetLE;
      BoolIsRead(Rest());
      var id := ReadUInt32();
      if id == Some(BOOL_TRUE) { return Some(true); }
      if id == Some(BOOL_FALSE) { return Some(false); }
      return None;
    }

    method ReadVector(item: Shape) returns (r: Option<seq<Value>>)
      requires Valid()
      modifies this`offset
      ensures Valid()
      ensures Reads(AVector(item), old(Rest()), if r.None? then None else Some(Vector(r.value)), Rest())
      decreases item, 3
    {
      hide GetLE, GetInt, DecodeItems;
      ghost var rest := Rest();
      var cid := ReadUInt32();
      if cid != Some(VECTOR_CID) { return None; }
      var count := ReadInt32();
      if count.None? { return None; }
      assert rest[4..][..4] == rest[4..8] && rest[4..][4..] == rest[8..] == Rest();
      if count.value < 0 || count.value > MAX_VECTOR_COUNT { return None; }
      assert VectorCount(rest) == Some(count.value);
      var items := [];
      ghost var start := Rest();
      NothingPrepended(DecodeItems(item, count.value, start));
      for i := 0 to count.value
        invariant Valid()
        invariant DecodeItems(item, count.value, start) == Prepended(items, DecodeItems(item, count.value - i, Rest()))
      {
        ghost var at := Rest();
        var v := ReadValue(item);
        ItemStep(item, count.value - i, at, items);
        if v.None? { return None; }
        items := items + [v.value];
      }
      NoItems(item, Rest());
      assert items + [] == items;
      return Some(items);
    }

    method ReadRecord(parts: seq<Shape>) returns (r: Option<seq<Value>>)
      requires Valid()
      modifies this`offset
      ensures Valid()
      ensures Reads(ARecord(parts), old(Rest()), if r.None? then None else Some(Record(r.value)), Rest())
      decreases parts, 1
    {
      hide DecodeFields;
      var fields := [];
      ghost var start := Rest();
      assert parts[0..] == parts;
      NothingPrepended(DecodeFields(parts, start));
      for i := 0 to |parts|
        invariant Valid()
        invariant DecodeFields(parts, start) == Prepended(fields, DecodeFields(parts[i..], Rest()))
      {
        ghost var at := Rest();
        var v := ReadValue(parts[i]);
        FieldStep(parts[i..], at, fields);
        assert parts[i..][1..] == parts[i + 1..];
        if v.None? { return None; }
        fields := fields + [v.value];
      }
      NoFields(Rest());
      assert fields + [] == fields;
      return Some(fields);
    }

    /** The calls that a shape stands for read exactly what Decode says, and stop where it
        stops. */
    method ReadValue(s: Shape) returns (r: Option<Value>)
      requires Valid()
      modifies this`offset
      ensures Valid() && Reads(s, old(Rest()), r, Rest())
      decreases s, 2
    {
      hide GetLE, GetInt, DecodeBlob, DecodeBool, DecodeItems, DecodeFields;
      match s {
        case AnInt =>
          var n := ReadInt32();
          r := if n.None? then None else Some(Int(n.value));
        case ALong =>
          var n := ReadInt64();
          r := if n.None? then None else Some(Long(n.value));
        case ABool =>
          var b := ReadBool();
          r := if b.None? then None else Some(Bool(b.value));
        case ABlob =>
          var data := ReadBytes();
          r := if data.None? then None else Some(Blob(data.value));
        case AVector(item) =>
          var items := ReadVector(item);
          r := if items.None? then None else Some(Vector(items.value));
        case ARecord(parts) =>
          var fields := ReadRecord(parts);
          r := if fields.None? then None else Some(Record(fields.value));
      }
    }
  }

  /** Reading `s` off `before` gave `r` and, when it did not throw, left `after`. */
  ghost predicate Reads(s: Shape, before: seq<byte>, r: Option<Value>, after: seq<byte>) {
    Decode(s, before) == if r.None? then None else Some(Parsed(r.value, after))
  }

  ghost function Prepended(vs: seq<Value>, r: Option<Parsed<seq<Value>>>): Option<Parsed<seq<Value>>> {
    if r.None? then None else Some(Parsed(vs + r.value.value, r.value.rest))
  }

  lemma NothingPrepended(r: Option<Parsed<seq<Value>>>)
    ensures Prepended([], r) == r
  {
    if r.Some? { assert [] + r.value.value == r.value.value; }
  }

  lemma ItemStep(s: Shape, count: nat, buf: seq<byte>, before: seq<Value>)
    requires count > 0
    ensures Decode(s, buf).None? ==> DecodeItems(s, count, buf).None?
    ensures (Decode(s, buf).Some? ==>
      Prepended(before, DecodeItems(s, count, buf)) ==
      Prepended(before + [Decode(s, buf).value.value], DecodeItems(s, count - 1, Decode(s, buf).value.rest)))
  {
    hide Decode;
    var first := Decode(s, buf);
    if first.Some? {
      var others := DecodeItems(s, count - 1, first.value.rest);
      if others.Some? {
        assert before + ([first.value.value] + others.value.value) == (before + [first.value.value]) + others.value.value;
      }
    }
  }

  lemma NoItems(s: Shape, buf: seq<byte>)
    ensures DecodeItems(s, 0, buf) == Some(Parsed([], buf))
  {}

  lemma FieldStep(ss: seq<Shape>, buf: seq<byte>, before: seq<Value>)
    requires ss != []
    ensures Decode(ss[0], buf).None? ==> DecodeFields(ss, buf).None?
    ensures (Decode(ss[0], buf).Some? ==>
      Prepended(before, DecodeFields(ss, buf)) ==
      Prepended(before + [Decode(ss[0], buf).value.value], DecodeFields(ss[1..], Decode(ss[0], buf).value.rest)))
  {
    hide Decode;
    var first := Decode(ss[0], buf);
    if first.Some? {
      var others := DecodeFields(ss[1..], first.value.rest);
      if others.Some? {
        assert before + ([first.value.value] + others.value.value) == (before + [first.value.value]) + others.value.value;
      }
    }
  }

  lemma NoFields(buf: seq<byte>)
    ensures DecodeFields([], buf) == Some(Parsed([], buf))
  {}
}
