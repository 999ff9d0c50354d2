/** MTProto 2.0 message encryption: layout, padding, message key and the checks made on
    the way back. The block cipher and the hashes are parameters. */
module Encryption {
  import opened Buffers
  import opened Bytes
  import opened Options
  import AesIge

  datatype Primitives = Primitives(aes: AesIge.Aes, sha1: seq<byte> -> seq<byte>, sha256: seq<byte> -> seq<byte>)

  ghost predicate Sound(prims: Primitives) {
    && AesIge.IsPermutation(prims.aes)
    && (forall s :: |prims.sha1(s)| == 20)
    && (forall s :: |prims.sha256(s)| == 32)
  }

  datatype Message = Message(salt: int, sessionId: int, msgId: int, seqNo: int, data: seq<byte>)

  /** The fields fit their widths; otherwise Node's writers throw. */
  predicate MessageFits(m: Message) {
    Fits(m.salt, 8) && Fits(m.sessionId, 8) && Fits(m.msgId, 8) && Fits(m.seqNo, 4) && Fits(|m.data|, 4)
  }

  function MsgKey(prims: Primitives, authKey: seq<byte>, plaintext: seq<byte>, isClient: bool): (r: seq<byte>)
    requires Sound(prims)
    ensures |r| == 16
  {
    var x := if isClient then 0 else 8;
    prims.sha256(Subarray(authKey, 88 + x, 88 + x + 32) + plaintext)[8..24]
  }

  datatype KeyIv = KeyIv(key: seq<byte>, iv: seq<byte>)

  function DeriveAesKeyIv(prims: Primitives, authKey: seq<byte>, msgKey: seq<byte>, isClient: bool): (r: KeyIv)
    requires Sound(prims)
    ensures |r.key| == 32 && |r.iv| == 32
  {
    var x := if isClient then 0 else 8;
    var a := prims.sha256(msgKey + Subarray(authKey, x, x + 36));
    var b := prims.sha256(Subarray(authKey, 40 + x, 40 + x + 36) + msgKey);
    KeyIv(a[..8] + b[8..24] + a[24..], b[..8] + a[8..24] + b[24..])
  }

  function Header(m: Message): (r: seq<byte>)
    requires MessageFits(m)
    ensures |r| == 32
  {
    PutInt(m.salt, 8) + PutInt(m.sessionId, 8) + PutInt(m.msgId, 8) + PutInt(m.seqNo, 4) + PutInt(|m.data|, 4)
  }

  function Plaintext(m: Message, padding: seq<byte>): (r: seq<byte>)
    requires MessageFits(m)
    ensures |r| == 32 + |m.data| + |padding|
  {
    Header(m) + m.data + padding
  }

  /** The number of random bytes behind a message of `unpadded` bytes. */
  function PaddingLength(unpadded: nat): nat {
    12 + (16 - (unpadded + 12) % 16) % 16
  }

  /** `k` bytes of padding are enough and fill the last block. */
  predicate Aligns(unpadded: nat, k: nat) {
    12 <= k && (unpadded + k) % 16 == 0
  }

  /** The padding is the shortest that is at least 12 bytes and fills the last block. */
  lemma PaddingIsLeast(unpadded: nat)
    ensures var n := PaddingLength(unpadded);
            && 12 <= n <= 27 && Aligns(unpadded, n)
            && forall k: nat :: Aligns(unpadded, k) ==> n <= k
  {}

  /** msg_key and ciphertext of a plaintext. */
  function Seal(prims: Primitives, authKey: seq<byte>, plaintext: seq<byte>, isClient: bool): (r: seq<byte>)
    requires Sound(prims) && |plaintext| % 16 == 0
    ensures |r| == 16 + |plaintext|
  {
    var msgKey := MsgKey(prims, authKey, plaintext, isClient);
    var k := DeriveAesKeyIv(prims, authKey, msgKey, isClient);
    msgKey + AesIge.Encrypt(prims.aes, k.key, plaintext, k.iv[..16], k.iv[16..])
  }

  function AuthKeyId(prims: Primitives, authKey: seq<byte>): (r: seq<byte>)
    requires Sound(prims)
    ensures |r| == 8
  {
    prims.sha1(authKey)[12..]
  }

  /** `padding` are the random bytes drawn. */
  method EncryptMessage(prims: Primitives, authKey: seq<byte>, m: Message, padding: seq<byte>) returns (r: Option<seq<byte>>)
    requires Sound(prims) && |padding| == PaddingLength(32 + |m.data|)
    ensures r.Some? <==> MessageFits(m)
    ensures r.Some? ==> (32 + |m.data| + |padding|) % 16 == 0 &&
                        r.value == AuthKeyId(prims, authKey) + Seal(prims, authKey, Plaintext(m, padding), true)
    ensures (r.Some? && |authKey| == 256 ==>
             |r.value| >= 8 && r.value[..8] == prims.sha1(authKey)[12..20] &&
             Sends(prims, authKey, r.value, m, padding, true))
  {
    hide PutInt, Power256, AesIge.IsPermutation, MsgKey, DeriveAesKeyIv, Sends, AesIge.Enciphers, AesIge.Encrypt;
    if !MessageFits(m) { return None; }
    var plaintextNopad := new byte[32 + |m.data|];
    Fill(PutInt(m.salt, 8), plaintextNopad, 0);
    Fill(PutInt(m.sessionId, 8), plaintextNopad, 8);
    Fill(PutInt(m.msgId, 8), plaintextNopad, 16);
    Fill(PutInt(m.seqNo, 4), plaintextNopad, 24);
    Fill(PutInt(|m.data|, 4), plaintextNopad, 28);
    assert plaintextNopad[..32] == Header(m);
    Fill(m.data, plaintextNopad, 32);
    assert plaintextNopad[..] == Header(m) + m.data;
    var plaintext := plaintextNopad[..] + padding;
    assert plaintext == Plaintext(m, padding);
    PaddingIsLeast(32 + |m.data|);
    var msgKey := MsgKey(prims, authKey, plaintext, true);
    var k := DeriveAesKeyIv(prims, authKey, msgKey, true);
    var encryptedData := AesIge.AesIgeEncrypt(prims.aes, plaintext, k.key, k.iv);
    var authKeyId := AuthKeyId(prims, authKey);
    if |authKey| == 256 { SealSends(prims, authKey, authKeyId, m, padding, true); }
    return Some(authKeyId + (msgKey + encryptedData.value[..]));
  }

  datatype DecryptError = TooShort | NotBlocks | BadMsgKey | PlaintextTooShort | BadDataLength | BadPadding

  datatype Decryption = Opened(message: Message) | Refused(error: DecryptError)

  /** The plaintext under the message key that the bytes carry. */
  function OpenedPlaintext(prims: Primitives, authKey: seq<byte>, encrypted: seq<byte>, isClient: bool): (r: seq<byte>)
    requires Sound(prims) && |encrypted| >= 24 && (|encrypted| - 24) % 16 == 0
    ensures |r| == |encrypted| - 24
  {
    var k := DeriveAesKeyIv(prims, authKey, encrypted[8..24], isClient);
    AesIge.Decrypt(prims.aes, k.key, encrypted[24..], k.iv[..16], k.iv[16..])
  }

  /** The fields of a plaintext, or why it is refused. */
  function ParsePlaintext(p: seq<byte>): Decryption {
    if |p| < 32 then Refused(PlaintextTooShort) else
      var dataLength := GetInt(p[28..32]);
      if dataLength < 0 || 32 + dataLength > |p| then Refused(BadDataLength)
      else if |p| - 32 - dataLength < 12 || |p| - 32 - dataLength > 1024 then Refused(BadPadding)
      else Opened(Message(GetInt(p[..8]), GetInt(p[8..16]), GetInt(p[16..24]), GetInt(p[24..28]), p[32..32 + dataLength]))
  }

  function Decrypted(prims: Primitives, authKey: seq<byte>, encrypted: seq<byte>, isClient: bool): Decryption
    requires Sound(prims)
  {
    if |encrypted| < 24 then Refused(TooShort)
    else if (|encrypted| - 24) % 16 != 0 then Refused(NotBlocks)
    else
      var p := OpenedPlaintext(prims, authKey, encrypted, isClient);
      if encrypted[8..24] != MsgKey(prims, authKey, p, isClient) then Refused(BadMsgKey) else ParsePlaintext(p)
  }

  method DecryptMessage(prims: Primitives, authKey: seq<byte>, encrypted: seq<byte>, isClient: bool) returns (r: Decryption)
    requires Sound(prims)
    ensures r == Decrypted(prims, authKey, encrypted, isClient)
    ensures r == Refused(TooShort) <==> |encrypted| < 24
    ensures r == Refused(NotBlocks) <==> |encrypted| >= 24 && |encrypted| % 16 != 8
    ensures (|authKey| == 256 ==> forall m :: r == Opened(m) <==>
             exists padding :: 12 <= |padding| <= 1024 && Sends(prims, authKey, encrypted, m, padding, isClient))
  {
    hide AesIge.IsPermutation, GetLE, GetInt, MsgKey, DeriveAesKeyIv, Sends, AesIge.Deciphers, AesIge.Decrypt;
    if |authKey| == 256 { OpensTheSent(prims, authKey, encrypted, isClient); }
    if |encrypted| < 24 { return Refused(TooShort); }
    var msgKey, encryptedData := encrypted[8..24], encrypted[24..];
    if |encryptedData| % 16 != 0 { return Refused(NotBlocks); }
    var k := DeriveAesKeyIv(prims, authKey, msgKey, isClient);
    var decrypted := AesIge.AesIgeDecrypt(prims.aes, encryptedData, k.key, k.iv);
    var plaintext := decrypted.value[..];
    var computedMsgKey := MsgKey(prims, authKey, plaintext, isClient);
    if msgKey != computedMsgKey { return Refused(BadMsgKey); }
    if |plaintext| < 32 { return Refused(PlaintextTooShort); }
    var dataLength := GetInt(plaintext[28..32]);
    if dataLength < 0 || 32 + dataLength > |plaintext| { return Refused(BadDataLength); }
    var paddingLen := |plaintext| - 32 - dataLength;
    if paddingLen < 12 || paddingLen > 1024 { return Refused(BadPadding); }
    return Opened(Message(GetInt(plaintext[..8]), GetInt(plaintext[8..16]), GetInt(plaintext[16..24]),
                          GetInt(plaintext[24..28]), plaintext[32..32 + dataLength]));
  }

  // --------------------------------------------------------------- round trip

  lemma HeaderFields(m: Message, rest: seq<byte>)
    requires MessageFits(m)
    ensures var p := Header(m) + rest;
            && p[..8] == PutInt(m.salt, 8) && p[8..16] == PutInt(m.sessionId, 8) && p[16..24] == PutInt(m.msgId, 8)
            && p[24..28] == PutInt(m.seqNo, 4) && p[28..32] == PutInt(|m.data|, 4) && p[32..] == rest
  {
    hide PutInt, Power256;
  }

  /** Parsing a plaintext gives back the message exactly when its padding is 12..1024 bytes. */
  lemma ParseUndoesLayout(m: Message, padding: seq<byte>)
    requires MessageFits(m)
    ensures ParsePlaintext(Plaintext(m, padding)) ==
            if 12 <= |padding| <= 1024 then Opened(m) else Refused(BadPadding)
  {
    hide PutInt, GetInt, Power256, Header;
    var p := Plaintext(m, padding);
    assert p == Header(m) + (m.data + padding);
    HeaderFields(m, m.data + padding);
    assert p[32..32 + |m.data|] == m.data by {
      assert p[32..][..|m.data|] == m.data;
    }
    GetPutInt(m.salt, 8);
    GetPutInt(m.sessionId, 8);
    GetPutInt(m.msgId, 8);
    GetPutInt(m.seqNo, 4);
    GetPutInt(|m.data|, 4);
  }

  lemma OpenUndoesSeal(prims: Primitives, authKey: seq<byte>, id: seq<byte>, plaintext: seq<byte>, isClient: bool)
    requires Sound(prims) && |id| == 8 && |plaintext| % 16 == 0
    ensures var e := id + Seal(prims, authKey, plaintext, isClient);
            && OpenedPlaintext(prims, authKey, e, isClient) == plaintext
            && e[8..24] == MsgKey(prims, authKey, plaintext, isClient)
  {
    hide MsgKey, DeriveAesKeyIv, AesIge.IsPermutation;
    var e := id + Seal(prims, authKey, plaintext, isClient);
    var msgKey := MsgKey(prims, authKey, plaintext, isClient);
    var k := DeriveAesKeyIv(prims, authKey, msgKey, isClient);
    assert e[8..24] == msgKey;
    assert e[24..] == AesIge.Encrypt(prims.aes, k.key, plaintext, k.iv[..16], k.iv[16..]);
    AesIge.DecryptUndoesEncrypt(prims.aes, k.key, plaintext, k.iv[..16], k.iv[16..]);
  }

  /** What EncryptMessage returns, DecryptMessage opens to the same fields: no check of the
      receiver refuses it. */
  lemma DecryptUndoesEncrypt(prims: Primitives, authKey: seq<byte>, m: Message, padding: seq<byte>)
    requires Sound(prims) && MessageFits(m) && |padding| == PaddingLength(32 + |m.data|)
    ensures (32 + |m.data| + |padding|) % 16 == 0
    ensures Decrypted(prims, authKey, AuthKeyId(prims, authKey) + Seal(prims, authKey, Plaintext(m, padding), true), true)
         == Opened(m)
  {
    hide MsgKey, DeriveAesKeyIv, AesIge.IsPermutation, Power256, ParsePlaintext, Plaintext, OpenedPlaintext;
    PaddingIsLeast(32 + |m.data|);
    OpenUndoesSeal(prims, authKey, AuthKeyId(prims, authKey), Plaintext(m, padding), true);
    ParseUndoesLayout(m, padding);
  }

  lemma SealUndoesOpen(prims: Primitives, authKey: seq<byte>, e: seq<byte>, isClient: bool)
    requires Sound(prims) && |e| >= 24 && (|e| - 24) % 16 == 0
    requires e[8..24] == MsgKey(prims, authKey, OpenedPlaintext(prims, authKey, e, isClient), isClient)
    ensures e[8..] == Seal(prims, authKey, OpenedPlaintext(prims, authKey, e, isClient), isClient)
  {
    hide MsgKey, DeriveAesKeyIv, AesIge.IsPermutation;
    var k := DeriveAesKeyIv(prims, authKey, e[8..24], isClient);
    AesIge.EncryptUndoesDecrypt(prims.aes, k.key, e[24..], k.iv[..16], k.iv[16..]);
    assert e[8..] == e[8..24] + e[24..];
  }

  lemma ParsedLayout(p: seq<byte>)
    requires ParsePlaintext(p).Opened?
    ensures var m := ParsePlaintext(p).message;
            && MessageFits(m)
            && 12 <= |p| - 32 - |m.data| <= 1024
            && p == Plaintext(m, p[32 + |m.data|..])
  {
    hide PutInt, GetInt, Power256;
    var m := ParsePlaintext(p).message;
    PutGetInt(p[..8]);
    PutGetInt(p[8..16]);
    PutGetInt(p[16..24]);
    PutGetInt(p[24..28]);
    PutGetInt(p[28..32]);
    assert Header(m) == p[..32] by { Fifths(p[..32]); }
    Thirds(p, 32, 32 + |m.data|);
  }

  lemma Thirds(s: seq<byte>, i: nat, j: nat)
    requires i <= j <= |s|
    ensures s == s[..i] + s[i..j] + s[j..]
  {}

  lemma Fifths(s: seq<byte>)
    requires |s| == 32
    ensures s == s[..8] + s[8..16] + s[16..24] + s[24..28] + s[28..32]
  {}

  /** DecryptMessage opens exactly the sealed plaintexts of a message with 12 to 1024 bytes
      of padding, whatever the key id in front. */
  lemma OpensExactlyTheSealed(prims: Primitives, authKey: seq<byte>, e: seq<byte>, isClient: bool, m: Message)
    requires Sound(prims)
    ensures Decrypted(prims, authKey, e, isClient) == Opened(m)
       <==> exists padding :: IsSealed(prims, authKey, e, isClient, m, padding)
  {
    hide MsgKey, DeriveAesKeyIv, AesIge.IsPermutation, Power256, ParsePlaintext, Plaintext, Seal, OpenedPlaintext;
    if Decrypted(prims, authKey, e, isClient) == Opened(m) {
      var p := OpenedPlaintext(prims, authKey, e, isClient);
      SealUndoesOpen(prims, authKey, e, isClient);
      ParsedLayout(p);
      assert IsSealed(prims, authKey, e, isClient, m, p[32 + |m.data|..]);
    }
    forall padding | IsSealed(prims, authKey, e, isClient, m, padding)
      ensures Decrypted(prims, authKey, e, isClient) == Opened(m)
    {
      OpenUndoesSeal(prims, authKey, e[..8], Plaintext(m, padding), isClient);
      assert e == e[..8] + e[8..];
      ParseUndoesLayout(m, padding);
    }
  }

  ghost predicate IsSealed(prims: Primitives, authKey: seq<byte>, e: seq<byte>, isClient: bool, m: Message, padding: seq<byte>)
    requires Sound(prims)
  {
    && MessageFits(m)
    && 12 <= |padding| <= 1024
    && (32 + |m.data| + |padding|) % 16 == 0
    && |e| >= 8
    && e[8..] == Seal(prims, authKey, Plaintext(m, padding), isClient)
  }

  // ----------------------------------------------------- the message, byte by byte

  /** `e` carries the plaintext `p`: bytes 8..24 are the middle of one hash, and the bytes
      behind are `p` in IGE under a key and an IV cut from two others. What the server
      sends takes all of them from eight bytes further on. */
  ghost predicate Protects(prims: Primitives, authKey: seq<byte>, e: seq<byte>, p: seq<byte>, isClient: bool)
    requires Sound(prims) && |authKey| == 256
  {
    && |e| == 24 + |p| && |p| % 16 == 0
    && var x := if isClient then 0 else 8;
       var a := prims.sha256(e[8..24] + authKey[x..x + 36]);
       var b := prims.sha256(authKey[x + 40..x + 76] + e[8..24]);
       var key, iv := a[..8] + b[8..24] + a[24..32], b[..8] + a[8..24] + b[24..32];
       && e[8..24] == prims.sha256(authKey[x + 88..x + 120] + p)[8..24]
       && forall i: nat :: 16 * i + 16 <= |p| ==> AesIge.Enciphers(prims.aes, key, iv, p, e[24..], i)
  }

  /** The plaintext `p` is the fields of `m`, each in its place, then its data and `padding`. */
  ghost predicate LaysOut(p: seq<byte>, m: Message, padding: seq<byte>) {
    && |p| == 32 + |m.data| + |padding|
    && GetInt(p[..8]) == m.salt
    && GetInt(p[8..16]) == m.sessionId
    && GetInt(p[16..24]) == m.msgId
    && GetInt(p[24..28]) == m.seqNo
    && GetInt(p[28..32]) == |m.data|
    && p[32..32 + |m.data|] == m.data
    && p[32 + |m.data|..] == padding
  }

  ghost predicate Sends(prims: Primitives, authKey: seq<byte>, e: seq<byte>, m: Message, padding: seq<byte>, isClient: bool)
    requires Sound(prims) && |authKey| == 256
  {
    exists p :: LaysOut(p, m, padding) && Protects(prims, authKey, e, p, isClient)
  }

  lemma PlaintextLaysOut(m: Message, padding: seq<byte>)
    requires MessageFits(m)
    ensures LaysOut(Plaintext(m, padding), m, padding)
  {
    hide PutInt, GetInt, Power256, Header;
    var p := Plaintext(m, padding);
    assert p == Header(m) + (m.data + padding);
    HeaderFields(m, m.data + padding);
    assert p[32..32 + |m.data|] == m.data by {
      assert p[32..][..|m.data|] == m.data;
    }
    assert p[32 + |m.data|..] == padding;
    GetPutInt(m.salt, 8);
    GetPutInt(m.sessionId, 8);
    GetPutInt(m.msgId, 8);
    GetPutInt(m.seqNo, 4);
    GetPutInt(|m.data|, 4);
  }

  lemma HashesDecideTheKeys(prims: Primitives, authKey: seq<byte>, msgKey: seq<byte>, isClient: bool)
    requires Sound(prims) && |authKey| == 256
    ensures var x := if isClient then 0 else 8;
            var a := prims.sha256(msgKey + authKey[x..x + 36]);
            var b := prims.sha256(authKey[x + 40..x + 76] + msgKey);
            DeriveAesKeyIv(prims, authKey, msgKey, isClient) ==
            KeyIv(a[..8] + b[8..24] + a[24..32], b[..8] + a[8..24] + b[24..32])
  {
    hide AesIge.IsPermutation;
  }

  lemma SealProtects(prims: Primitives, authKey: seq<byte>, id: seq<byte>, p: seq<byte>, isClient: bool)
    requires Sound(prims) && |authKey| == 256 && |id| == 8 && |p| % 16 == 0
    ensures Protects(prims, authKey, id + Seal(prims, authKey, p, isClient), p, isClient)
  {
    hide AesIge.IsPermutation, AesIge.Encrypt, AesIge.Enciphers, DeriveAesKeyIv;
    var e := id + Seal(prims, authKey, p, isClient);
    var msgKey := MsgKey(prims, authKey, p, isClient);
    var k := DeriveAesKeyIv(prims, authKey, msgKey, isClient);
    assert e[8..24] == msgKey && e[24..] == AesIge.Encrypt(prims.aes, k.key, p, k.iv[..16], k.iv[16..]);
    HashesDecideTheKeys(prims, authKey, msgKey, isClient);
    forall i: nat | 16 * i + 16 <= |p|
      ensures AesIge.Enciphers(prims.aes, k.key, k.iv, p, e[24..], i)
    {
      AesIge.EncryptIsIge(prims.aes, k.key, p, k.iv, i);
    }
  }

  lemma ProtectedIsSealed(prims: Primitives, authKey: seq<byte>, e: seq<byte>, p: seq<byte>, isClient: bool)
    requires Sound(prims) && |authKey| == 256 && Protects(prims, authKey, e, p, isClient)
    ensures e[8..] == Seal(prims, authKey, p, isClient)
  {
    hide AesIge.IsPermutation, AesIge.Encrypt, AesIge.Enciphers, DeriveAesKeyIv;
    HashesDecideTheKeys(prims, authKey, e[8..24], isClient);
    var k := DeriveAesKeyIv(prims, authKey, e[8..24], isClient);
    AesIge.OnlyOneCipher(prims.aes, k.key, p, e[24..], k.iv);
    assert e[8..] == e[8..24] + e[24..];
  }

  lemma SealSends(prims: Primitives, authKey: seq<byte>, id: seq<byte>, m: Message, padding: seq<byte>, isClient: bool)
    requires Sound(prims) && |authKey| == 256 && |id| == 8 && MessageFits(m) && (32 + |m.data| + |padding|) % 16 == 0
    ensures Sends(prims, authKey, id + Seal(prims, authKey, Plaintext(m, padding), isClient), m, padding, isClient)
  {
    hide AesIge.IsPermutation, Protects, Seal, LaysOut, Plaintext, Power256;
    PlaintextLaysOut(m, padding);
    SealProtects(prims, authKey, id, Plaintext(m, padding), isClient);
  }

  /** DecryptMessage opens exactly what the sender's equations describe, each side with the
      ranges of its direction. */
  lemma OpensExactlyTheSent(prims: Primitives, authKey: seq<byte>, e: seq<byte>, isClient: bool, m: Message)
    requires Sound(prims) && |authKey| == 256
    ensures Decrypted(prims, authKey, e, isClient) == Opened(m)
       <==> exists padding :: 12 <= |padding| <= 1024 && Sends(prims, authKey, e, m, padding, isClient)
  {
    hide MsgKey, AesIge.IsPermutation, OpenedPlaintext, Seal, Protects, LaysOut, ParsePlaintext;
    if Decrypted(prims, authKey, e, isClient) == Opened(m) {
      var p := OpenedPlaintext(prims, authKey, e, isClient);
      SealUndoesOpen(prims, authKey, e, isClient);
      SealProtects(prims, authKey, e[..8], p, isClient);
      assert e == e[..8] + e[8..];
      ParsedLaysOut(p, m);
      assert Sends(prims, authKey, e, m, p[32 + |m.data|..], isClient);
    }
    forall padding | 12 <= |padding| <= 1024 && Sends(prims, authKey, e, m, padding, isClient)
      ensures Decrypted(prims, authKey, e, isClient) == Opened(m)
    {
      var p :| LaysOut(p, m, padding) && Protects(prims, authKey, e, p, isClient);
      ProtectedLengths(prims, authKey, e, p, isClient);
      ProtectedIsSealed(prims, authKey, e, p, isClient);
      assert e == e[..8] + e[8..];
      OpenUndoesSeal(prims, authKey, e[..8], p, isClient);
      LaidOutParses(p, m, padding);
    }
  }

  lemma ParsedLaysOut(p: seq<byte>, m: Message)
    requires ParsePlaintext(p) == Opened(m)
    ensures 32 + |m.data| <= |p| && 12 <= |p| - 32 - |m.data| <= 1024 && LaysOut(p, m, p[32 + |m.data|..])
  {
    hide GetInt;
  }

  lemma LaidOutParses(p: seq<byte>, m: Message, padding: seq<byte>)
    requires LaysOut(p, m, padding) && 12 <= |padding| <= 1024
    ensures ParsePlaintext(p) == Opened(m)
  {
    hide GetInt;
  }

  lemma OpensTheSent(prims: Primitives, authKey: seq<byte>, e: seq<byte>, isClient: bool)
    requires Sound(prims) && |authKey| == 256
    ensures forall m :: Decrypted(prims, authKey, e, isClient) == Opened(m) <==>
            exists padding :: 12 <= |padding| <= 1024 && Sends(prims, authKey, e, m, padding, isClient)
  {
    hide Sends, Decrypted;
    forall m
      ensures Decrypted(prims, authKey, e, isClient) == Opened(m) <==>
              exists padding :: 12 <= |padding| <= 1024 && Sends(prims, authKey, e, m, padding, isClient)
    {
      OpensExactlyTheSent(prims, authKey, e, isClient, m);
    }
  }

  lemma ProtectedLengths(prims: Primitives, authKey: seq<byte>, e: seq<byte>, p: seq<byte>, isClient: bool)
    requires Sound(prims) && |authKey| == 256 && Protects(prims, authKey, e, p, isClient)
    ensures |e| == 24 + |p| && |p| % 16 == 0
  {}
}
