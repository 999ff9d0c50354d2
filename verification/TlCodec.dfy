/** The TL binary encoding: what the writer appends and the reader takes off, for any tree
    of the values that the schema types are made of. */
module TlCodec {
  import opened Bytes
  import opened Options

  const BOOL_TRUE: nat := 0x9972_75b5
  const BOOL_FALSE: nat := 0xbc79_9737
  const VECTOR_CID: nat := 0x1cb5_c415
  const MAX_BUFFER_SIZE: nat := 50 * 1024 * 1024
  const MAX_BYTES_LENGTH: nat := 10 * 1024 * 1024
  const MAX_VECTOR_COUNT: nat := 1_000_000

  /** A serialized value; Record stands for the fields of a constructor, one after another. */
  datatype Value =
    | Int(int32: int)
    | Long(int64: int)
    | Bool(flag: bool)
    | Blob(data: seq<byte>)
    | Vector(items: seq<Value>)
    | Record(fields: seq<Value>)

  /** What the reader expects: the calls it makes. */
  datatype Shape =
    | AnInt
    | ALong
    | ABool
    | ABlob
    | AVector(item: Shape)
    | ARecord(parts: seq<Shape>)

  predicate HasShape(v: Value, s: Shape)
    decreases v, 1
  {
    match s
    case AnInt => v.Int?
    case ALong => v.Long?
    case ABool => v.Bool?
    case ABlob => v.Blob?
    case AVector(item) => v.Vector? && AllShaped(v.items, item)
    case ARecord(parts) => v.Record? && EachShaped(v.fields, parts)
  }

  predicate AllShaped(vs: seq<Value>, s: Shape)
    decreases vs, 0
  {
    vs != [] ==> HasShape(vs[0], s) && AllShaped(vs[1..], s)
  }

  predicate EachShaped(vs: seq<Value>, ss: seq<Shape>)
    decreases vs, 0
  {
    if vs == [] || ss == [] then vs == [] && ss == []
    else HasShape(vs[0], ss[0]) && EachShaped(vs[1..], ss[1..])
  }

  /** Within the ranges and sizes that both sides accept. */
  predicate Legal(v: Value)
    decreases v, 1
  {
    match v
    case Int(n) => Fits(n, 4)
    case Long(n) => Fits(n, 8)
    case Bool(_) => true
    case Blob(data) => |data| <= MAX_BYTES_LENGTH
    case Vector(items) => |items| <= MAX_VECTOR_COUNT && AllLegal(items)
    case Record(fields) => AllLegal(fields)
  }

  predicate AllLegal(vs: seq<Value>)
    decreases vs, 0
  {
    vs != [] ==> Legal(vs[0]) && AllLegal(vs[1..])
  }

  // ------------------------------------------------------------------ encoding

  function Zeros(n: nat): (z: seq<byte>)
    ensures |z| == n
  {
    seq(n, _ => 0)
  }

  function Padding(total: nat): nat {
    (4 - total % 4) % 4
  }

  function BlobHeader(length: nat): (h: seq<byte>)
    ensures |h| == if length < 254 then 1 else 4
  {
    if length < 254 then [ByteOf(length)] else [ByteOf(254)] + PutLE(length, 3)
  }

  function EncodeBlob(data: seq<byte>): seq<byte> {
    var h := BlobHeader(|data|);
    h + data + Zeros(Padding(|h| + |data|))
  }

  function Encode(v: Value): seq<byte>
    requires Legal(v)
    decreases v, 1
  {
    Counts();
    match v
    case Int(n) => PutInt(n, 4)
    case Long(n) => PutInt(n, 8)
    case Bool(b) => PutLE(if b then BOOL_TRUE else BOOL_FALSE, 4)
    case Blob(data) => EncodeBlob(data)
    case Vector(items) => PutLE(VECTOR_CID, 4) + PutInt(|items|, 4) + EncodeAll(items)
    case Record(fields) => EncodeAll(fields)
  }

  function EncodeAll(vs: seq<Value>): seq<byte>
    requires AllLegal(vs)
    decreases vs, 0
  {
    if vs == [] then [] else Encode(vs[0]) + EncodeAll(vs[1..])
  }

  lemma Counts()
    ensures forall n: nat :: n <= MAX_VECTOR_COUNT ==> Fits(n, 4)
  {
    Widths();
  }

  /** Every encoding fills whole 32-bit words. */
  lemma {:induction false} EncodingIsAligned(v: Value)
    requires Legal(v)
    ensures |Encode(v)| % 4 == 0
    decreases v, 1
  {
    hide EncodeBlob, EncodeAll, PutLE, PutInt, Power256, Fits, AllLegal;
    match v
    case Int(_) =>
    case Long(_) =>
    case Bool(_) =>
    case Blob(data) => BlobIsAligned(data);
    case Vector(items) =>
      EncodingsAreAligned(items);
      WholeWords(8, |EncodeAll(items)|);
    case Record(fields) => EncodingsAreAligned(fields);
  }

  lemma BlobIsAligned(data: seq<byte>)
    ensures |EncodeBlob(data)| % 4 == 0
  {
    hide BlobHeader, Padding;
    PaddingFills(|BlobHeader(|data|)| + |data|);
  }

  lemma PaddingFills(n: nat)
    ensures (n + Padding(n)) % 4 == 0
  {}

  lemma {:induction false} EncodingsAreAligned(vs: seq<Value>)
    requires AllLegal(vs)
    ensures |EncodeAll(vs)| % 4 == 0
    decreases vs, 0
  {
    hide Encode;
    if vs != [] {
      EncodingIsAligned(vs[0]);
      EncodingsAreAligned(vs[1..]);
      WholeWords(|Encode(vs[0])|, |EncodeAll(vs[1..])|);
    }
  }

  lemma WholeWords(m: nat, n: nat)
    requires m % 4 == 0 && n % 4 == 0
    ensures (m + n) % 4 == 0
  {}

  // ------------------------------------------------------------------ decoding

  /** A value and the bytes behind it; None when the reader throws. */
  datatype Parsed<T> = Parsed(value: T, rest: seq<byte>)

  /** The announced length and the size of the header that announced it. */
  function BlobLength(buf: seq<byte>): Option<(nat, nat)> {
    if |buf| < 1 then None
    else if buf[0] as int < 254 then Some((buf[0] as int, 1))
    else if |buf| < 4 then None
    else Some((GetLE(buf[1..4]), 4))
  }

  function DecodeBlob(buf: seq<byte>): Option<Parsed<seq<byte>>> {
    var l := BlobLength(buf);
    if l.None? || l.value.0 > MAX_BYTES_LENGTH then None else
      var (length, header) := l.value;
      var total := header + length + Padding(header + length);
      if total > |buf| then None else Some(Parsed(buf[header..header + length], buf[total..]))
  }

  function DecodeBool(buf: seq<byte>): Option<Parsed<Value>> {
    if |buf| < 4 then None else
      var id := GetLE(buf[..4]);
      if id == BOOL_TRUE then Some(Parsed(Bool(true), buf[4..]))
      else if id == BOOL_FALSE then Some(Parsed(Bool(false), buf[4..]))
      else None
  }

  /** The two constructor ids as they stand on the wire. */
  lemma BoolIsRead(buf: seq<byte>)
    ensures var t := |buf| >= 4 && buf[..4] == [0xb5, 0x75, 0x72, 0x99];
            var f := |buf| >= 4 && buf[..4] == [0x37, 0x97, 0x79, 0xbc];
            DecodeBool(buf) == if t then Some(Parsed(Bool(true), buf[4..]))
                               else if f then Some(Parsed(Bool(false), buf[4..])) else None
  {
    hide GetLE;
    WordBytes([0xb5, 0x75, 0x72, 0x99]);
    WordBytes([0x37, 0x97, 0x79, 0xbc]);
    FourValues(0xb5, 0x75, 0x72, 0x99);
    FourValues(0x37, 0x97, 0x79, 0xbc);
  }

  /** The number of items that a vector header announces, when it is one the reader takes. */
  function VectorCount(buf: seq<byte>): Option<nat> {
    if |buf| < 8 || GetLE(buf[..4]) != VECTOR_CID then None else
      var count := GetInt(buf[4..8]);
      if count < 0 || count > MAX_VECTOR_COUNT then None else Some(count)
  }

  function Decode(s: Shape, buf: seq<byte>): Option<Parsed<Value>>
    decreases s, 2
  {
    match s
    case AnInt => if |buf| < 4 then None else Some(Parsed(Int(GetInt(buf[..4])), buf[4..]))
    case ALong => if |buf| < 8 then None else Some(Parsed(Long(GetInt(buf[..8])), buf[8..]))
    case ABool => DecodeBool(buf)
    case ABlob =>
      var r := DecodeBlob(buf);
      if r.None? then None else Some(Parsed(Blob(r.value.value), r.value.rest))
    case AVector(item) =>
      var count := VectorCount(buf);
      if count.None? then None else
        var r := DecodeItems(item, count.value, buf[8..]);
        if r.None? then None else Some(Parsed(Vector(r.value.value), r.value.rest))
    case ARecord(parts) =>
      var r := DecodeFields(parts, buf);
      if r.None? then None else Some(Parsed(Record(r.value.value), r.value.rest))
  }

  function DecodeItems(s: Shape, count: nat, buf: seq<byte>): Option<Parsed<seq<Value>>>
    decreases s, 3, count
  {
    if count == 0 then Some(Parsed([], buf)) else
      var first := Decode(s, buf);
      if first.None? then None else
        var others := DecodeItems(s, count - 1, first.value.rest);
        if others.None? then None else Some(Parsed([first.value.value] + others.value.value, others.value.rest))
  }

  function DecodeFields(ss: seq<Shape>, buf: seq<byte>): Option<Parsed<seq<Value>>>
    decreases ss, 0
  {
    if ss == [] then Some(Parsed([], buf)) else
      var first := Decode(ss[0], buf);
      if first.None? then None else
        var others := DecodeFields(ss[1..], first.value.rest);
        if others.None? then None else Some(Parsed([first.value.value] + others.value.value, others.value.rest))
  }

  // ---------------------------------------------------------------- round trip

  lemma BlobLengthOf(data: seq<byte>, rest: seq<byte>)
    ensures var l := BlobLength(EncodeBlob(data) + rest);
            && l.Some? && l.value.1 == |BlobHeader(|data|)| && l.value.0 <= |data|
            && (|data| < 0x100_0000 ==> l.value.0 == |data|)
            && (|data| >= 0x100_0000 ==> l.value.0 < 0x100_0000)
  {
    hide GetLE, PutLE, ByteOf;
    var buf := EncodeBlob(data) + rest;
    assert buf[0] == BlobHeader(|data|)[0];
    if |data| >= 254 {
      assert buf[1..4] == PutLE(|data|, 3);
      Widths();
      GetLEBound(PutLE(|data|, 3));
      if |data| < 0x100_0000 { GetPut(|data|, 3); }
    }
  }

  /** A byte string is read back, with what follows untouched, exactly when it is at most
      ten megabytes. */
  lemma BlobRoundTrip(data: seq<byte>, rest: seq<byte>)
    ensures DecodeBlob(EncodeBlob(data) + rest) == Some(Parsed(data, rest)) <==> |data| <= 10 * 1024 * 1024
  {
    hide BlobLength, BlobHeader;
    var h := BlobHeader(|data|);
    var buf := EncodeBlob(data) + rest;
    BlobLengthOf(data, rest);
    if |data| <= MAX_BYTES_LENGTH {
      assert buf[|h|..|h| + |data|] == data;
      assert buf[|EncodeBlob(data)|..] == rest;
    }
  }

  /** Any legal tree is read back by the calls of its shape, with what follows untouched. */
  lemma {:induction false} DecodeUndoesEncode(v: Value, s: Shape, rest: seq<byte>)
    requires Legal(v) && HasShape(v, s)
    ensures Decode(s, Encode(v) + rest) == Some(Parsed(v, rest))
    decreases v, 1
  {
    hide GetLE, PutLE, GetInt, PutInt, EncodeBlob, DecodeBlob, Power256;
    Widths();
    var buf := Encode(v) + rest;
    match v
    case Int(n) => NumberInFront(PutInt(n, 4), rest); GetPutInt(n, 4);
    case Long(n) => NumberInFront(PutInt(n, 8), rest); GetPutInt(n, 8);
    case Bool(b) =>
      var id := if b then BOOL_TRUE else BOOL_FALSE;
      NumberInFront(PutLE(id, 4), rest);
      GetPut(id, 4);
    case Blob(data) => BlobRoundTrip(data, rest);
    case Vector(items) =>
      VectorHeader(|items|, EncodeAll(items) + rest);
      assert buf == PutLE(VECTOR_CID, 4) + PutInt(|items|, 4) + (EncodeAll(items) + rest);
      ItemsRoundTrip(items, s.item, rest);
    case Record(fields) => FieldsRoundTrip(fields, s.parts, rest);
  }

  lemma NumberInFront(n: seq<byte>, rest: seq<byte>)
    ensures (n + rest)[..|n|] == n && (n + rest)[|n|..] == rest
  {}

  /** The reader takes a vector header exactly when its count is from 0 to a million. */
  lemma VectorHeader(count: int, rest: seq<byte>)
    requires Fits(count, 4)
    ensures var buf := PutLE(VECTOR_CID, 4) + PutInt(count, 4) + rest;
            && VectorCount(buf) == (if 0 <= count <= 1_000_000 then Some(count) else None)
            && buf[8..] == rest
  {
    hide GetLE, PutLE, GetInt, PutInt, Power256;
    Widths();
    var buf := PutLE(VECTOR_CID, 4) + PutInt(count, 4) + rest;
    assert buf[..4] == PutLE(VECTOR_CID, 4) && buf[4..8] == PutInt(count, 4);
    GetPut(VECTOR_CID, 4);
    GetPutInt(count, 4);
  }

  lemma {:induction false} ItemsRoundTrip(vs: seq<Value>, s: Shape, rest: seq<byte>)
    requires AllLegal(vs) && AllShaped(vs, s)
    ensures DecodeItems(s, |vs|, EncodeAll(vs) + rest) == Some(Parsed(vs, rest))
    decreases vs, 0
  {
    hide Encode, Decode;
    if vs == [] {
      assert EncodeAll(vs) + rest == rest;
    } else {
      assert EncodeAll(vs) + rest == Encode(vs[0]) + (EncodeAll(vs[1..]) + rest);
      DecodeUndoesEncode(vs[0], s, EncodeAll(vs[1..]) + rest);
      ItemsRoundTrip(vs[1..], s, rest);
      assert vs == [vs[0]] + vs[1..];
    }
  }

  lemma {:induction false} FieldsRoundTrip(vs: seq<Value>, ss: seq<Shape>, rest: seq<byte>)
    requires AllLegal(vs) && EachShaped(vs, ss)
    ensures DecodeFields(ss, EncodeAll(vs) + rest) == Some(Parsed(vs, rest))
    decreases vs, 0
  {
    hide Encode, Decode;
    if vs == [] {
      assert EncodeAll(vs) + rest == rest;
    } else {
      assert EncodeAll(vs) + rest == Encode(vs[0]) + (EncodeAll(vs[1..]) + rest);
      DecodeUndoesEncode(vs[0], ss[0], EncodeAll(vs[1..]) + rest);
      FieldsRoundTrip(vs[1..], ss[1..], rest);
      assert vs == [vs[0]] + vs[1..];
    }
  }
}
