/** The connection parses TL byte strings in two places without the reader: the packed body of
    a gzip_packed message and the text of an rpc_error. */
module InlineStrings {
  import opened Bytes
  import opened Options
  import opened TlCodec

  /** The value of an element in a bitwise expression, where a missing one counts as zero. */
  function ByteAt(data: seq<byte>, i: nat): (n: nat)
    ensures n < 256
  {
    if i < |data| then data[i] as int else 0
  }

  /** Where the text starts and how long it is; a missing first byte takes the long branch. */
  function Announced(data: seq<byte>, at: nat): (nat, nat) {
    if at < |data| && data[at] as int < 254 then (at + 1, data[at] as int)
    else (at + 4, ByteAt(data, at + 1) + 256 * ByteAt(data, at + 2) + 65536 * ByteAt(data, at + 3))
  }

  /** What handleGzipPacked hands to gunzip. */
  function GzipBody(data: seq<byte>): seq<byte>
    requires |data| >= 4
  {
    var (start, length) := Announced(data, 4);
    Subarray(data, start, start + length)
  }

  /** The message bytes of an rpc_error; None is the text UNKNOWN. */
  function ErrorText(data: seq<byte>): Option<seq<byte>>
    requires |data| >= 8
  {
    if |data| == 8 then None else
      var (start, length) := Announced(data, 8);
      if start + length <= |data| then Some(data[start..start + length]) else None
  }

  lemma AnnouncedIsBlobLength(data: seq<byte>, at: nat)
    requires at < |data| && BlobLength(data[at..]).Some?
    ensures var (length, header) := BlobLength(data[at..]).value; Announced(data, at) == (at + header, length)
    ensures Announced(data, at).0 <= |data|
  {
    if data[at] as int >= 254 {
      var three := data[at..][1..4];
      assert three == [data[at + 1], data[at + 2], data[at + 3]];
      ThreeBytes(three);
    }
  }

  lemma ThreeBytes(s: seq<byte>)
    requires |s| == 3
    ensures GetLE(s) == s[0] as int + 256 * (s[1] as int) + 65536 * (s[2] as int)
  {
    assert s[1..][1..] == [s[2]];
    assert GetLE([s[2]]) == s[2] as int;
    assert GetLE(s[1..]) == s[1] as int + 256 * (s[2] as int);
  }

  /** Both agree with the reader wherever the reader accepts. */
  lemma AgreeWithReader(data: seq<byte>)
    ensures |data| >= 4 && DecodeBlob(data[4..]).Some? ==> GzipBody(data) == DecodeBlob(data[4..]).value.value
    ensures |data| >= 8 && DecodeBlob(data[8..]).Some? ==> ErrorText(data) == Some(DecodeBlob(data[8..]).value.value)
  {
    if |data| >= 4 && DecodeBlob(data[4..]).Some? { SliceAgrees(data, 4); }
    if |data| >= 8 && DecodeBlob(data[8..]).Some? { SliceAgrees(data, 8); }
  }

  lemma SliceAgrees(data: seq<byte>, at: nat)
    requires at <= |data| && DecodeBlob(data[at..]).Some?
    ensures at < |data|
    ensures var (start, length) := Announced(data, at);
            start + length <= |data| && data[start..start + length] == DecodeBlob(data[at..]).value.value
  {
    hide GetLE, BlobLength, Announced;
    assert at == |data| ==> data[at..] == [];
    NothingAnnounced();
    AnnouncedIsBlobLength(data, at);
    var (length, header) := BlobLength(data[at..]).value;
    assert data[at..][header..header + length] == data[at + header..at + header + length];
  }

  lemma NothingAnnounced()
    ensures BlobLength([]) == None
  {}

  /** When fewer bytes follow than the header announces, the one takes what there is and the
      other gives up. */
  lemma TruncatedTexts(data: seq<byte>)
    ensures (|data| > 4 && data[4] as int < 254 && 5 + data[4] as int >= |data| ==> GzipBody(data) == data[5..])
    ensures (|data| >= 8 && data[4] as int >= 254 && 8 + GetLE(data[5..8]) >= |data| ==> GzipBody(data) == data[8..])
    ensures (|data| > 8 && data[8] as int < 254 && 9 + data[8] as int > |data| ==> ErrorText(data) == None)
    ensures (|data| >= 12 && data[8] as int >= 254 && 12 + GetLE(data[9..12]) > |data| ==> ErrorText(data) == None)
  {
    hide GetLE;
    if |data| >= 8 { ThreeBytes(data[5..8]); }
    if |data| >= 12 { ThreeBytes(data[9..12]); }
  }

  /** On what the writer produces both recover the string exactly when its length fits the
      three bytes of the header. The reader stops at ten megabytes; these do not. */
  lemma RecoverWhatIsWritten(front: seq<byte>, text: seq<byte>, rest: seq<byte>)
    ensures |front| == 4 ==> (GzipBody(front + EncodeBlob(text) + rest) == text <==> |text| < 0x100_0000)
    ensures |front| == 8 ==> (ErrorText(front + EncodeBlob(text) + rest) == Some(text) <==> |text| < 0x100_0000)
  {
    hide GetLE, PutLE, BlobLength, Announced, EncodeBlob;
    var data := front + EncodeBlob(text) + rest;
    BlobLengthOf(text, rest);
    BlobStarts(text, rest);
    assert data[|front|..] == EncodeBlob(text) + rest;
    AnnouncedIsBlobLength(data, |front|);
    var h := |BlobHeader(|text|)|;
    assert data == front + (EncodeBlob(text) + rest);
    Behind(front, EncodeBlob(text) + rest, h, h + |text|);
  }

  lemma Behind(front: seq<byte>, s: seq<byte>, i: nat, j: nat)
    requires i <= j <= |s|
    ensures (front + s)[|front| + i..|front| + j] == s[i..j]
  {}

  lemma BlobStarts(text: seq<byte>, rest: seq<byte>)
    ensures var h, s := |BlobHeader(|text|)|, EncodeBlob(text) + rest; h + |text| <= |s| && s[h..h + |text|] == text
  {
    hide BlobHeader;
  }
}
