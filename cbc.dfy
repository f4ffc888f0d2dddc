/** `encrypt` and `decrypt` of main.rs: AES-128 in CBC mode (section 6.2 of
    NIST SP 800-38A) with PKCS#7 padding (section 6.3 of RFC 5652), as the
    `block_modes` crate's `Cbc<Aes128, Pkcs7>` computes them. */
module Cbc {
  import opened Results
  import opened Bytes
  import opened Primitives

  /** PKCS#7: append n copies of the byte n, where n = 16 - |data| mod 16 is in 1..16. */
  function Pad(data: Bytes): (r: Bytes)
    ensures |r| % BLOCK_SIZE == 0
    ensures |data| < |r| <= |data| + BLOCK_SIZE
    ensures r[..|data|] == data
  {
    var n := BLOCK_SIZE - |data| % BLOCK_SIZE;
    data + seq(n, _ => n as byte)
  }

  /** Padding `block_modes`' `Pkcs7` accepts: the last byte n is non-zero and at most the
      buffer length, and the last n bytes all equal n. */
  predicate ValidPadding(data: Bytes) {
    |data| > 0 &&
    var n := data[|data| - 1] as int;
    0 < n <= |data| && forall i :: |data| - n <= i < |data| ==> data[i] as int == n
  }

  /** The unpadding of `block_modes`' `Pkcs7`: strip the padding, or fail if it is not valid. */
  function Unpad(data: Bytes): (r: Option<Bytes>)
    ensures r.Some? <==> ValidPadding(data)
    ensures r.Some? ==> |r.value| < |data| && r.value == data[..|r.value|]
    ensures r.Some? ==> forall i :: |r.value| <= i < |data| ==> data[i] as int == |data| - |r.value|
  {
    if data == [] then None
    else
      var n := data[|data| - 1] as int;
      if n == 0 || n > |data| then None
      else if exists i :: |data| - n <= i < |data| - 1 && data[i] as int != n then None
      else Some(data[..|data| - n])
  }

  lemma UnpadPad(data: Bytes)
    ensures Unpad(Pad(data)) == Some(data)
  {
  }

  function XorBlock(a: Bytes, b: Bytes): (r: Bytes)
    requires |a| == |b|
    ensures |r| == |a|
    ensures forall i :: 0 <= i < |a| ==> r[i] == a[i] ^ b[i]
  {
    seq(|a|, i requires 0 <= i < |a| => a[i] ^ b[i])
  }

  lemma XorBlockTwice(a: Bytes, b: Bytes)
    requires |a| == |b|
    ensures XorBlock(XorBlock(a, b), b) == a
  {
  }

  /** CBC chaining: each plaintext block is XORed with the previous ciphertext block
      (the IV for the first one) before it is enciphered. */
  function ChainEncrypt(aes: Aes128, key: Bytes, prev: Bytes, plain: Bytes): (r: Bytes)
    requires aes.Valid() && |key| == KEY_SIZE && |prev| == BLOCK_SIZE
    requires |plain| % BLOCK_SIZE == 0
    ensures |r| == |plain|
    decreases |plain|
  {
    if plain == [] then []
    else
      var block := aes.encryptBlock(key, XorBlock(plain[..BLOCK_SIZE], prev));
      block + ChainEncrypt(aes, key, block, plain[BLOCK_SIZE..])
  }

  /** CBC unchaining: decipher each block and XOR with the previous ciphertext block. */
  function ChainDecrypt(aes: Aes128, key: Bytes, prev: Bytes, cipher: Bytes): (r: Bytes)
    requires aes.Valid() && |key| == KEY_SIZE && |prev| == BLOCK_SIZE
    requires |cipher| % BLOCK_SIZE == 0
    ensures |r| == |cipher|
    decreases |cipher|
  {
    if cipher == [] then []
    else
      var block := cipher[..BLOCK_SIZE];
      XorBlock(aes.decryptBlock(key, block), prev) + ChainDecrypt(aes, key, block, cipher[BLOCK_SIZE..])
  }

  /** Block j (counting from 0) of a byte string. */
  function BlockAt(s: Bytes, j: nat): (r: Bytes)
    requires (j + 1) * BLOCK_SIZE <= |s|
    ensures |r| == BLOCK_SIZE
  {
    s[j * BLOCK_SIZE..(j + 1) * BLOCK_SIZE]
  }

  /** Block j + 1 of `first + rest`, with `first` one block long, is block j of `rest`. */
  lemma BlockAtTail(first: Bytes, rest: Bytes, j: nat)
    requires |first| == BLOCK_SIZE && (j + 1) * BLOCK_SIZE <= |rest|
    ensures BlockAt(first + rest, j + 1) == BlockAt(rest, j)
  {
  }

  /** Section 6.2 of NIST SP 800-38A, block by block: C_0 = CIPH_K(P_0 xor IV) and
      C_j = CIPH_K(P_j xor C_(j-1)). */
  lemma {:induction false} ChainEncryptBlocks(aes: Aes128, key: Bytes, prev: Bytes, plain: Bytes)
    requires aes.Valid() && |key| == KEY_SIZE && |prev| == BLOCK_SIZE
    requires |plain| % BLOCK_SIZE == 0
    ensures var c := ChainEncrypt(aes, key, prev, plain);
      && (plain != [] ==> BlockAt(c, 0) == aes.encryptBlock(key, XorBlock(BlockAt(plain, 0), prev)))
      && forall j: nat :: 0 < j < |plain| / BLOCK_SIZE ==>
           BlockAt(c, j) == aes.encryptBlock(key, XorBlock(BlockAt(plain, j), BlockAt(c, j - 1)))
    decreases |plain|
  {
    if plain != [] {
      var c := ChainEncrypt(aes, key, prev, plain);
      var block := aes.encryptBlock(key, XorBlock(plain[..BLOCK_SIZE], prev));
      var tail := plain[BLOCK_SIZE..];
      var rest := ChainEncrypt(aes, key, block, tail);
      assert c == block + rest;
      assert plain == plain[..BLOCK_SIZE] + tail;
      assert |tail| / BLOCK_SIZE == |plain| / BLOCK_SIZE - 1;
      assert BlockAt(c, 0) == block;
      ChainEncryptBlocks(aes, key, block, tail);
      forall j: nat | 0 < j < |plain| / BLOCK_SIZE
        ensures BlockAt(c, j) == aes.encryptBlock(key, XorBlock(BlockAt(plain, j), BlockAt(c, j - 1)))
      {
        BlockAtTail(block, rest, j - 1);
        BlockAtTail(plain[..BLOCK_SIZE], tail, j - 1);
        if j > 1 {
          BlockAtTail(block, rest, j - 2);
        }
      }
    }
  }

  /** Section 6.2 of NIST SP 800-38A, block by block: P_0 = CIPH^-1_K(C_0) xor IV and
      P_j = CIPH^-1_K(C_j) xor C_(j-1). */
  lemma {:induction false} ChainDecryptBlocks(aes: Aes128, key: Bytes, prev: Bytes, cipher: Bytes)
    requires aes.Valid() && |key| == KEY_SIZE && |prev| == BLOCK_SIZE
    requires |cipher| % BLOCK_SIZE == 0
    ensures var p := ChainDecrypt(aes, key, prev, cipher);
      && (cipher != [] ==> BlockAt(p, 0) == XorBlock(aes.decryptBlock(key, BlockAt(cipher, 0)), prev))
      && forall j: nat :: 0 < j < |cipher| / BLOCK_SIZE ==>
           BlockAt(p, j) == XorBlock(aes.decryptBlock(key, BlockAt(cipher, j)), BlockAt(cipher, j - 1))
    decreases |cipher|
  {
    if cipher != [] {
      var p := ChainDecrypt(aes, key, prev, cipher);
      var block := cipher[..BLOCK_SIZE];
      var tail := cipher[BLOCK_SIZE..];
      var first := XorBlock(aes.decryptBlock(key, block), prev);
      var rest := ChainDecrypt(aes, key, block, tail);
      assert p == first + rest;
      assert cipher == block + tail;
      assert |tail| / BLOCK_SIZE == |cipher| / BLOCK_SIZE - 1;
      ChainDecryptBlocks(aes, key, block, tail);
      forall j: nat | 0 < j < |cipher| / BLOCK_SIZE
        ensures BlockAt(p, j) == XorBlock(aes.decryptBlock(key, BlockAt(cipher, j)), BlockAt(cipher, j - 1))
      {
        BlockAtTail(first, rest, j - 1);
        BlockAtTail(block, tail, j - 1);
        if j > 1 {
          BlockAtTail(block, tail, j - 2);
        }
      }
    }
  }

  lemma {:induction false} ChainRoundTrip(aes: Aes128, key: Bytes, prev: Bytes, plain: Bytes)
    requires aes.Valid() && |key| == KEY_SIZE && |prev| == BLOCK_SIZE
    requires |plain| % BLOCK_SIZE == 0
    ensures ChainDecrypt(aes, key, prev, ChainEncrypt(aes, key, prev, plain)) == plain
    decreases |plain|
  {
    if plain != [] {
      var x := XorBlock(plain[..BLOCK_SIZE], prev);
      var block := aes.encryptBlock(key, x);
      var rest := ChainEncrypt(aes, key, block, plain[BLOCK_SIZE..]);
      var c := ChainEncrypt(aes, key, prev, plain);
      assert c == block + rest;
      assert c[..BLOCK_SIZE] == block && c[BLOCK_SIZE..] == rest;
      XorBlockTwice(plain[..BLOCK_SIZE], prev);
      ChainRoundTrip(aes, key, block, plain[BLOCK_SIZE..]);
      assert plain == plain[..BLOCK_SIZE] + plain[BLOCK_SIZE..];
    }
  }

  /** `encrypt` (lines 82-85): abort on a key or IV that is not 16 bytes, otherwise pad and chain. */
  function Encrypt(aes: Aes128, data: Bytes, key: Bytes, iv: Bytes): (r: Result<Bytes>)
    requires aes.Valid()
    ensures r.Err? <==> |key| != KEY_SIZE || |iv| != BLOCK_SIZE
    ensures r.Err? ==> r.error == InvalidKeyIvLength
    ensures r.Ok? ==> |r.value| % BLOCK_SIZE == 0 && |data| < |r.value| <= |data| + BLOCK_SIZE
  {
    if |key| != KEY_SIZE || |iv| != BLOCK_SIZE then Err(InvalidKeyIvLength)
    else Ok(ChainEncrypt(aes, key, iv, Pad(data)))
  }

  /** `decrypt` (lines 87-90): abort on a bad key or IV, on a length that is not a whole
      number of blocks, or on padding that does not check out. */
  function Decrypt(aes: Aes128, data: Bytes, key: Bytes, iv: Bytes): (r: Result<Bytes>)
    requires aes.Valid()
    ensures |key| != KEY_SIZE || |iv| != BLOCK_SIZE ==> r == Err(InvalidKeyIvLength)
    ensures |key| == KEY_SIZE && |iv| == BLOCK_SIZE && |data| % BLOCK_SIZE != 0 ==> r == Err(BlockModeError)
    ensures |key| == KEY_SIZE && |iv| == BLOCK_SIZE && data == [] ==> r == Err(BlockModeError)
    ensures r.Ok? ==> |r.value| < |data|
  {
    if |key| != KEY_SIZE || |iv| != BLOCK_SIZE then Err(InvalidKeyIvLength)
    else if |data| % BLOCK_SIZE != 0 then Err(BlockModeError)
    else
      match Unpad(ChainDecrypt(aes, key, iv, data))
      case None => Err(BlockModeError)
      case Some(plain) => Ok(plain)
  }

  /** Once key, IV and length are right, `decrypt` fails exactly when the deciphered bytes
      do not end in valid padding, and on success it strips exactly that padding: the last
      deciphered byte n is zero, or exceeds the length, or one of the last n bytes is not n,
      precisely when the result is Err(BlockModeError). */
  lemma DecryptPadding(aes: Aes128, data: Bytes, key: Bytes, iv: Bytes)
    requires aes.Valid() && |key| == KEY_SIZE && |iv| == BLOCK_SIZE && |data| % BLOCK_SIZE == 0
    ensures var plain := ChainDecrypt(aes, key, iv, data);
      var r := Decrypt(aes, data, key, iv);
      && (r.Err? <==> !ValidPadding(plain))
      && (r.Err? ==> r.error == BlockModeError)
      && (r.Ok? ==> r.value == plain[..|plain| - plain[|plain| - 1] as int])
  {
  }

  /** Decryption undoes encryption under the same key and IV, for every message. */
  lemma DecryptEncrypt(aes: Aes128, data: Bytes, key: Bytes, iv: Bytes)
    requires aes.Valid() && |key| == KEY_SIZE && |iv| == BLOCK_SIZE
    ensures Encrypt(aes, data, key, iv).Ok?
    ensures Decrypt(aes, Encrypt(aes, data, key, iv).value, key, iv) == Ok(data)
  {
    ChainRoundTrip(aes, key, iv, Pad(data));
    UnpadPad(data);
  }

  /** Encryption is injective for a fixed key and IV, and never returns its input. */
  lemma EncryptInjective(aes: Aes128, a: Bytes, b: Bytes, key: Bytes, iv: Bytes)
    requires aes.Valid() && |key| == KEY_SIZE && |iv| == BLOCK_SIZE
    ensures Encrypt(aes, a, key, iv) == Encrypt(aes, b, key, iv) <==> a == b
    ensures Encrypt(aes, a, key, iv).value != a
  {
    DecryptEncrypt(aes, a, key, iv);
    DecryptEncrypt(aes, b, key, iv);
  }
}
