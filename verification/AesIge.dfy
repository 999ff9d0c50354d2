/** AES in infinite garble extension mode, over any keyed permutation of 16-byte blocks. */
module AesIge {
  import opened Buffers
  import opened Bytes
  import opened Options

  const BLOCK_SIZE: nat := 16

  /** The block cipher: encryption and decryption of one block under a key. */
  datatype Aes = Aes(encrypt: (seq<byte>, seq<byte>) -> seq<byte>, decrypt: (seq<byte>, seq<byte>) -> seq<byte>)

  ghost predicate IsPermutation(aes: Aes) {
    forall key, b | |b| == BLOCK_SIZE ::
      && |aes.encrypt(key, b)| == BLOCK_SIZE && |aes.decrypt(key, b)| == BLOCK_SIZE
      && aes.decrypt(key, aes.encrypt(key, b)) == b
      && aes.encrypt(key, aes.decrypt(key, b)) == b
  }

  function XorBuffers(a: seq<byte>, b: seq<byte>): (r: seq<byte>)
    requires |a| == |b|
    ensures |r| == |a|
  {
    seq(|a|, i requires 0 <= i < |a| => a[i] ^ b[i])
  }

  lemma XorBuffersTwice(a: seq<byte>, b: seq<byte>)
    requires |a| == |b|
    ensures XorBuffers(XorBuffers(a, b), b) == a
  {
    forall i | 0 <= i < |a|
      ensures XorBuffers(XorBuffers(a, b), b)[i] == a[i]
    {
      XorTwice(a[i], b[i]);
    }
  }

  /** One ciphertext block from the plaintext block and the previous pair. */
  function EncryptBlock(aes: Aes, key: seq<byte>, plain: seq<byte>, ivCipher: seq<byte>, ivPlain: seq<byte>): (r: seq<byte>)
    requires IsPermutation(aes) && |plain| == |ivCipher| == |ivPlain| == BLOCK_SIZE
    ensures |r| == BLOCK_SIZE
  {
    XorBuffers(aes.encrypt(key, XorBuffers(plain, ivCipher)), ivPlain)
  }

  function DecryptBlock(aes: Aes, key: seq<byte>, cipher: seq<byte>, ivCipher: seq<byte>, ivPlain: seq<byte>): (r: seq<byte>)
    requires IsPermutation(aes) && |cipher| == |ivCipher| == |ivPlain| == BLOCK_SIZE
    ensures |r| == BLOCK_SIZE
  {
    XorBuffers(aes.decrypt(key, XorBuffers(cipher, ivPlain)), ivCipher)
  }

  lemma BlockRoundTrip(aes: Aes, key: seq<byte>, b: seq<byte>, ivCipher: seq<byte>, ivPlain: seq<byte>)
    requires IsPermutation(aes) && |b| == |ivCipher| == |ivPlain| == BLOCK_SIZE
    ensures DecryptBlock(aes, key, EncryptBlock(aes, key, b, ivCipher, ivPlain), ivCipher, ivPlain) == b
    ensures EncryptBlock(aes, key, DecryptBlock(aes, key, b, ivCipher, ivPlain), ivCipher, ivPlain) == b
  {
    hide XorBuffers;
    XorBuffersTwice(aes.encrypt(key, XorBuffers(b, ivCipher)), ivPlain);
    XorBuffersTwice(b, ivCipher);
    XorBuffersTwice(aes.decrypt(key, XorBuffers(b, ivPlain)), ivCipher);
    XorBuffersTwice(b, ivPlain);
  }

  function Encrypt(aes: Aes, key: seq<byte>, data: seq<byte>, ivCipher: seq<byte>, ivPlain: seq<byte>): (r: seq<byte>)
    requires IsPermutation(aes) && |data| % BLOCK_SIZE == 0 && |ivCipher| == |ivPlain| == BLOCK_SIZE
    ensures |r| == |data|
    decreases |data|
  {
    if data == [] then [] else
      var c := EncryptBlock(aes, key, data[..BLOCK_SIZE], ivCipher, ivPlain);
      c + Encrypt(aes, key, data[BLOCK_SIZE..], c, data[..BLOCK_SIZE])
  }

  function Decrypt(aes: Aes, key: seq<byte>, data: seq<byte>, ivCipher: seq<byte>, ivPlain: seq<byte>): (r: seq<byte>)
    requires IsPermutation(aes) && |data| % BLOCK_SIZE == 0 && |ivCipher| == |ivPlain| == BLOCK_SIZE
    ensures |r| == |data|
    decreases |data|
  {
    if data == [] then [] else
      var p := DecryptBlock(aes, key, data[..BLOCK_SIZE], ivCipher, ivPlain);
      p + Decrypt(aes, key, data[BLOCK_SIZE..], data[..BLOCK_SIZE], p)
  }

  /** Decryption undoes encryption on any number of blocks. */
  lemma {:induction false} DecryptUndoesEncrypt(aes: Aes, key: seq<byte>, data: seq<byte>,
                                               ivCipher: seq<byte>, ivPlain: seq<byte>)
    requires IsPermutation(aes) && |data| % BLOCK_SIZE == 0 && |ivCipher| == |ivPlain| == BLOCK_SIZE
    ensures Decrypt(aes, key, Encrypt(aes, key, data, ivCipher, ivPlain), ivCipher, ivPlain) == data
    decreases |data|
  {
    hide EncryptBlock, DecryptBlock, IsPermutation;
    if data != [] {
      var p, rest := data[..BLOCK_SIZE], data[BLOCK_SIZE..];
      var c := EncryptBlock(aes, key, p, ivCipher, ivPlain);
      var all := c + Encrypt(aes, key, rest, c, p);
      assert all[..BLOCK_SIZE] == c && all[BLOCK_SIZE..] == Encrypt(aes, key, rest, c, p);
      BlockRoundTrip(aes, key, p, ivCipher, ivPlain);
      DecryptUndoesEncrypt(aes, key, rest, c, p);
      assert data == p + rest;
    }
  }

  /** Encryption undoes decryption on any number of blocks. */
  lemma {:induction false} EncryptUndoesDecrypt(aes: Aes, key: seq<byte>, data: seq<byte>,
                                               ivCipher: seq<byte>, ivPlain: seq<byte>)
    requires IsPermutation(aes) && |data| % BLOCK_SIZE == 0 && |ivCipher| == |ivPlain| == BLOCK_SIZE
    ensures Encrypt(aes, key, Decrypt(aes, key, data, ivCipher, ivPlain), ivCipher, ivPlain) == data
    decreases |data|
  {
    hide EncryptBlock, DecryptBlock, IsPermutation;
    if data != [] {
      var c, rest := data[..BLOCK_SIZE], data[BLOCK_SIZE..];
      var p := DecryptBlock(aes, key, c, ivCipher, ivPlain);
      var all := p + Decrypt(aes, key, rest, c, p);
      assert all[..BLOCK_SIZE] == p && all[BLOCK_SIZE..] == Decrypt(aes, key, rest, c, p);
      BlockRoundTrip(aes, key, c, ivCipher, ivPlain);
      EncryptUndoesDecrypt(aes, key, rest, c, p);
      assert data == c + rest;
    }
  }

  // ---------------------------------------------------------- the mode, byte by byte

  /** Block `i`, counted from zero; the one before the first comes from the IV. */
  ghost function BlockOf(s: seq<byte>, first: seq<byte>, i: int): (b: seq<byte>)
    requires |first| == 16 && -1 <= i && 16 * i + 16 <= |s|
    ensures |b| == 16
  {
    if i == -1 then first else s[16 * i..16 * i + 16]
  }

  ghost function Mixed(a: seq<byte>, b: seq<byte>): (r: seq<byte>)
    requires |a| == |b| == 16
    ensures |r| == 16 && forall j :: 0 <= j < 16 ==> r[j] == a[j] ^ b[j]
  {
    seq(16, j requires 0 <= j < 16 => a[j] ^ b[j])
  }

  /** C_i = E(P_i + C_(i-1)) + P_(i-1), with the halves of the IV as C_(-1) and P_(-1). */
  ghost predicate Enciphers(aes: Aes, key: seq<byte>, iv: seq<byte>, plain: seq<byte>, cipher: seq<byte>, i: nat)
    requires IsPermutation(aes) && |iv| == 32 && |plain| == |cipher| && 16 * i + 16 <= |plain|
  {
    var p, p', c' := BlockOf(plain, iv[16..], i), BlockOf(plain, iv[16..], i - 1), BlockOf(cipher, iv[..16], i - 1);
    forall j :: 0 <= j < 16 ==> cipher[16 * i + j] == aes.encrypt(key, Mixed(p, c'))[j] ^ p'[j]
  }

  /** P_i = D(C_i + P_(i-1)) + C_(i-1). */
  ghost predicate Deciphers(aes: Aes, key: seq<byte>, iv: seq<byte>, cipher: seq<byte>, plain: seq<byte>, i: nat)
    requires IsPermutation(aes) && |iv| == 32 && |plain| == |cipher| && 16 * i + 16 <= |plain|
  {
    var c, p', c' := BlockOf(cipher, iv[..16], i), BlockOf(plain, iv[16..], i - 1), BlockOf(cipher, iv[..16], i - 1);
    forall j :: 0 <= j < 16 ==> plain[16 * i + j] == aes.decrypt(key, Mixed(c, p'))[j] ^ c'[j]
  }

  lemma {:induction false} EncryptedBlock(aes: Aes, key: seq<byte>, data: seq<byte>,
                                          ivCipher: seq<byte>, ivPlain: seq<byte>, i: nat)
    requires IsPermutation(aes) && |data| % BLOCK_SIZE == 0 && |ivCipher| == |ivPlain| == BLOCK_SIZE
    requires 16 * i + 16 <= |data|
    ensures var e := Encrypt(aes, key, data, ivCipher, ivPlain);
            BlockOf(e, ivCipher, i) ==
            EncryptBlock(aes, key, BlockOf(data, ivPlain, i), BlockOf(e, ivCipher, i - 1), BlockOf(data, ivPlain, i - 1))
    decreases i
  {
    hide EncryptBlock, IsPermutation;
    var p, rest := data[..BLOCK_SIZE], data[BLOCK_SIZE..];
    var c := EncryptBlock(aes, key, p, ivCipher, ivPlain);
    var e, more := Encrypt(aes, key, data, ivCipher, ivPlain), Encrypt(aes, key, rest, c, p);
    EncryptOne(aes, key, data, ivCipher, ivPlain);
    if i > 0 {
      EncryptedBlock(aes, key, rest, c, p, i - 1);
      BlockBehind(c, more, ivCipher, i);
      BlockBehind(c, more, ivCipher, i - 1);
      BlockBehind(p, rest, ivPlain, i);
      BlockBehind(p, rest, ivPlain, i - 1);
      assert data == p + rest;
    }
  }

  lemma {:induction false} DecryptedBlock(aes: Aes, key: seq<byte>, data: seq<byte>,
                                          ivCipher: seq<byte>, ivPlain: seq<byte>, i: nat)
    requires IsPermutation(aes) && |data| % BLOCK_SIZE == 0 && |ivCipher| == |ivPlain| == BLOCK_SIZE
    requires 16 * i + 16 <= |data|
    ensures var d := Decrypt(aes, key, data, ivCipher, ivPlain);
            BlockOf(d, ivPlain, i) ==
            DecryptBlock(aes, key, BlockOf(data, ivCipher, i), BlockOf(data, ivCipher, i - 1), BlockOf(d, ivPlain, i - 1))
    decreases i
  {
    hide DecryptBlock, IsPermutation;
    var c, rest := data[..BLOCK_SIZE], data[BLOCK_SIZE..];
    var p := DecryptBlock(aes, key, c, ivCipher, ivPlain);
    var d, more := Decrypt(aes, key, data, ivCipher, ivPlain), Decrypt(aes, key, rest, c, p);
    DecryptOne(aes, key, data, ivCipher, ivPlain);
    if i > 0 {
      DecryptedBlock(aes, key, rest, c, p, i - 1);
      BlockBehind(p, more, ivPlain, i);
      BlockBehind(p, more, ivPlain, i - 1);
      BlockBehind(c, rest, ivCipher, i);
      BlockBehind(c, rest, ivCipher, i - 1);
      assert data == c + rest;
    }
  }

  lemma BlockBehind(b: seq<byte>, rest: seq<byte>, first: seq<byte>, i: nat)
    requires |b| == |first| == 16 && 16 * i <= |rest|
    ensures BlockOf(b + rest, first, i) == BlockOf(rest, b, i - 1)
  {}

  lemma MixedIsXor(a: seq<byte>, b: seq<byte>)
    requires |a| == |b| == 16
    ensures Mixed(a, b) == XorBuffers(a, b)
  {}

  lemma EncryptIsIge(aes: Aes, key: seq<byte>, data: seq<byte>, iv: seq<byte>, i: nat)
    requires IsPermutation(aes) && |data| % BLOCK_SIZE == 0 && |iv| == 32 && 16 * i + 16 <= |data|
    ensures Enciphers(aes, key, iv, data, Encrypt(aes, key, data, iv[..16], iv[16..]), i)
  {
    hide Encrypt, IsPermutation;
    var e := Encrypt(aes, key, data, iv[..16], iv[16..]);
    EncryptedBlock(aes, key, data, iv[..16], iv[16..], i);
    MixedIsXor(BlockOf(data, iv[16..], i), BlockOf(e, iv[..16], i - 1));
    assert forall j :: 0 <= j < 16 ==> e[16 * i + j] == BlockOf(e, iv[..16], i)[j];
  }

  lemma DecryptIsIge(aes: Aes, key: seq<byte>, data: seq<byte>, iv: seq<byte>, i: nat)
    requires IsPermutation(aes) && |data| % BLOCK_SIZE == 0 && |iv| == 32 && 16 * i + 16 <= |data|
    ensures Deciphers(aes, key, iv, data, Decrypt(aes, key, data, iv[..16], iv[16..]), i)
  {
    hide Decrypt, IsPermutation;
    var d := Decrypt(aes, key, data, iv[..16], iv[16..]);
    DecryptedBlock(aes, key, data, iv[..16], iv[16..], i);
    MixedIsXor(BlockOf(data, iv[..16], i), BlockOf(d, iv[16..], i - 1));
    assert forall j :: 0 <= j < 16 ==> d[16 * i + j] == BlockOf(d, iv[16..], i)[j];
  }

  /** The equations of the mode leave one ciphertext: the one that Encrypt gives. */
  lemma OnlyOneCipher(aes: Aes, key: seq<byte>, plain: seq<byte>, cipher: seq<byte>, iv: seq<byte>)
    requires IsPermutation(aes) && |plain| % BLOCK_SIZE == 0 && |plain| == |cipher| && |iv| == 32
    requires forall i: nat :: 16 * i + 16 <= |plain| ==> Enciphers(aes, key, iv, plain, cipher, i)
    ensures cipher == Encrypt(aes, key, plain, iv[..16], iv[16..])
  {
    hide Encrypt, IsPermutation, Enciphers;
    var e := Encrypt(aes, key, plain, iv[..16], iv[16..]);
    forall j | 0 <= j < |plain|
      ensures cipher[j] == e[j]
    {
      SameBlock(aes, key, plain, cipher, iv, j / 16);
      assert cipher[j] == BlockOf(cipher, iv[..16], j / 16)[j % 16];
      assert e[j] == BlockOf(e, iv[..16], j / 16)[j % 16];
    }
  }

  lemma {:induction false} SameBlock(aes: Aes, key: seq<byte>, plain: seq<byte>, cipher: seq<byte>, iv: seq<byte>, i: int)
    requires IsPermutation(aes) && |plain| % BLOCK_SIZE == 0 && |plain| == |cipher| && |iv| == 32
    requires forall i: nat :: 16 * i + 16 <= |plain| ==> Enciphers(aes, key, iv, plain, cipher, i)
    requires -1 <= i && 16 * i + 16 <= |plain|
    ensures BlockOf(cipher, iv[..16], i) == BlockOf(Encrypt(aes, key, plain, iv[..16], iv[16..]), iv[..16], i)
    decreases i + 1
  {
    hide Encrypt, IsPermutation, Enciphers;
    if i >= 0 {
      SameBlock(aes, key, plain, cipher, iv, i - 1);
      EncryptIsIge(aes, key, plain, iv, i);
      SameNext(aes, key, plain, cipher, Encrypt(aes, key, plain, iv[..16], iv[16..]), iv, i);
    }
  }

  lemma SameNext(aes: Aes, key: seq<byte>, plain: seq<byte>, cipher: seq<byte>, e: seq<byte>, iv: seq<byte>, i: nat)
    requires IsPermutation(aes) && |plain| == |cipher| == |e| && |iv| == 32 && 16 * i + 16 <= |plain|
    requires Enciphers(aes, key, iv, plain, cipher, i) && Enciphers(aes, key, iv, plain, e, i)
    requires BlockOf(cipher, iv[..16], i - 1) == BlockOf(e, iv[..16], i - 1)
    ensures BlockOf(cipher, iv[..16], i) == BlockOf(e, iv[..16], i)
  {
    var p, p', c' := BlockOf(plain, iv[16..], i), BlockOf(plain, iv[16..], i - 1), BlockOf(cipher, iv[..16], i - 1);
    var x := aes.encrypt(key, Mixed(p, c'));
    forall j | 0 <= j < 16
      ensures BlockOf(cipher, iv[..16], i)[j] == BlockOf(e, iv[..16], i)[j]
    {
      assert cipher[16 * i + j] == x[j] ^ p'[j] == e[16 * i + j];
    }
  }

  /** The lengths that both functions insist on; otherwise they throw. */
  predicate GoodLengths(data: seq<byte>, key: seq<byte>, iv: seq<byte>) {
    |data| % BLOCK_SIZE == 0 && |key| == 32 && |iv| == 32
  }

  method AesIgeEncrypt(aes: Aes, data: seq<byte>, key: seq<byte>, iv: seq<byte>) returns (r: Option<array<byte>>)
    requires IsPermutation(aes)
    ensures r.Some? <==> GoodLengths(data, key, iv)
    ensures r.Some? ==> fresh(r.value) && r.value[..] == Encrypt(aes, key, data, iv[..16], iv[16..])
    ensures forall i: nat :: r.Some? && 16 * i + 16 <= |data| ==> Enciphers(aes, key, iv, data, r.value[..], i)
  {
    hide Encrypt, EncryptBlock, IsPermutation, Enciphers;
    if |data| % BLOCK_SIZE != 0 { return None; }
    if |key| != 32 { return None; }
    if |iv| != 32 { return None; }
    var result := new byte[|data|];
    var ivCipherPrev, ivPlainPrev := iv[..BLOCK_SIZE], iv[BLOCK_SIZE..];
    ghost var whole := Encrypt(aes, key, data, ivCipherPrev, ivPlainPrev);
    assert data[0..] == data;
    var offset := 0;
    while offset < |data|
      invariant 0 <= offset <= |data| && offset % BLOCK_SIZE == 0
      invariant |ivCipherPrev| == |ivPlainPrev| == BLOCK_SIZE
      invariant whole == result[..offset] + Encrypt(aes, key, data[offset..], ivCipherPrev, ivPlainPrev)
    {
      var plainBlock := data[offset..offset + BLOCK_SIZE];
      var encrypted := EncryptBlock(aes, key, plainBlock, ivCipherPrev, ivPlainPrev);
      NextBlock(data, offset);
      EncryptOne(aes, key, data[offset..], ivCipherPrev, ivPlainPrev);
      Associative(result[..offset], encrypted, Encrypt(aes, key, data[offset + BLOCK_SIZE..], encrypted, plainBlock));
      Fill(encrypted, result, offset);
      ivCipherPrev := encrypted;
      ivPlainPrev := plainBlock;
      offset := offset + BLOCK_SIZE;
    }
    assert result[..offset] == result[..];
    ghost var out := result[..];
    assert data[offset..] == [] && out == whole == Encrypt(aes, key, data, iv[..16], iv[16..]);
    forall i: nat | 16 * i + 16 <= |data| ensures Enciphers(aes, key, iv, data, out, i) { EncryptIsIge(aes, key, data, iv, i); }
    return Some(result);
  }

  method AesIgeDecrypt(aes: Aes, data: seq<byte>, key: seq<byte>, iv: seq<byte>) returns (r: Option<array<byte>>)
    requires IsPermutation(aes)
    ensures r.Some? <==> GoodLengths(data, key, iv)
    ensures r.Some? ==> fresh(r.value) && r.value[..] == Decrypt(aes, key, data, iv[..16], iv[16..])
    ensures forall i: nat :: r.Some? && 16 * i + 16 <= |data| ==> Deciphers(aes, key, iv, data, r.value[..], i)
  {
    hide Decrypt, DecryptBlock, IsPermutation, Deciphers;
    if |data| % BLOCK_SIZE != 0 { return None; }
    if |key| != 32 { return None; }
    if |iv| != 32 { return None; }
    var result := new byte[|data|];
    var ivCipherPrev, ivPlainPrev := iv[..BLOCK_SIZE], iv[BLOCK_SIZE..];
    ghost var whole := Decrypt(aes, key, data, ivCipherPrev, ivPlainPrev);
    assert data[0..] == data;
    var offset := 0;
    while offset < |data|
      invariant 0 <= offset <= |data| && offset % BLOCK_SIZE == 0
      invariant |ivCipherPrev| == |ivPlainPrev| == BLOCK_SIZE
      invariant whole == result[..offset] + Decrypt(aes, key, data[offset..], ivCipherPrev, ivPlainPrev)
    {
      var cipherBlock := data[offset..offset + BLOCK_SIZE];
      var decrypted := DecryptBlock(aes, key, cipherBlock, ivCipherPrev, ivPlainPrev);
      NextBlock(data, offset);
      DecryptOne(aes, key, data[offset..], ivCipherPrev, ivPlainPrev);
      Associative(result[..offset], decrypted, Decrypt(aes, key, data[offset + BLOCK_SIZE..], cipherBlock, decrypted));
      Fill(decrypted, result, offset);
      ivCipherPrev := cipherBlock;
      ivPlainPrev := decrypted;
      offset := offset + BLOCK_SIZE;
    }
    assert result[..offset] == result[..];
    ghost var out := result[..];
    assert data[offset..] == [] && out == whole == Decrypt(aes, key, data, iv[..16], iv[16..]);
    forall i: nat | 16 * i + 16 <= |data| ensures Deciphers(aes, key, iv, data, out, i) { DecryptIsIge(aes, key, data, iv, i); }
    return Some(result);
  }

  lemma EncryptOne(aes: Aes, key: seq<byte>, data: seq<byte>, ivCipher: seq<byte>, ivPlain: seq<byte>)
    requires IsPermutation(aes) && |data| % BLOCK_SIZE == 0 && |ivCipher| == |ivPlain| == BLOCK_SIZE && data != []
    ensures var b := data[..BLOCK_SIZE];
            var c := EncryptBlock(aes, key, b, ivCipher, ivPlain);
            Encrypt(aes, key, data, ivCipher, ivPlain) == c + Encrypt(aes, key, data[BLOCK_SIZE..], c, b)
  {
    hide EncryptBlock, IsPermutation;
  }

  lemma DecryptOne(aes: Aes, key: seq<byte>, data: seq<byte>, ivCipher: seq<byte>, ivPlain: seq<byte>)
    requires IsPermutation(aes) && |data| % BLOCK_SIZE == 0 && |ivCipher| == |ivPlain| == BLOCK_SIZE && data != []
    ensures var b := data[..BLOCK_SIZE];
            var c := DecryptBlock(aes, key, b, ivCipher, ivPlain);
            Decrypt(aes, key, data, ivCipher, ivPlain) == c + Decrypt(aes, key, data[BLOCK_SIZE..], b, c)
  {
    hide DecryptBlock, IsPermutation;
  }

  lemma Associative(a: seq<byte>, b: seq<byte>, c: seq<byte>)
    ensures a + (b + c) == (a + b) + c
  {}

  lemma NextBlock(data: seq<byte>, offset: nat)
    requires offset < |data| && offset % BLOCK_SIZE == 0 && |data| % BLOCK_SIZE == 0
    ensures offset + BLOCK_SIZE <= |data|
    ensures data[offset..][..BLOCK_SIZE] == data[offset..offset + BLOCK_SIZE]
    ensures data[offset..][BLOCK_SIZE..] == data[offset + BLOCK_SIZE..]
  {}
}
