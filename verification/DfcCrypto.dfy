/**
 AES in cipher-block-chaining mode, as the buffer overloads of `AESEncrypt` and `AESDecrypt` use it.
 The block cipher itself is a parameter; the chaining (section 6.2 of NIST SP 800-38A), the padding
 and the length arithmetic are modelled.
 */
module DfcCrypto {
  import opened Bytes

  const BLOCK: nat := 16

  /** The initialization vector of every call: one block of zeros. */
  function ZeroIv(): (iv: Bytes)
    ensures |iv| == BLOCK
  {
    seq(BLOCK, _ => 0)
  }

  /** `accepts` is whether the key schedule can be set up. */
  datatype BlockCipher = BlockCipher(
    accepts: Bytes -> bool,
    encrypt: (Bytes, Bytes) -> Bytes,
    decrypt: (Bytes, Bytes) -> Bytes)

  ghost predicate Lawful(c: BlockCipher) {
    && (forall key, b :: c.accepts(key) && |b| == BLOCK ==> |c.encrypt(key, b)| == BLOCK)
    && (forall key, b :: c.accepts(key) && |b| == BLOCK ==> |c.decrypt(key, b)| == BLOCK)
    && (forall key, b :: c.accepts(key) && |b| == BLOCK ==> c.decrypt(key, c.encrypt(key, b)) == b)
  }

  /** Bitwise exclusive or of the low `n` binary digits of two numbers. */
  function XorDigits(n: nat, x: nat, y: nat): nat {
    if n == 0 then 0 else (x + y) % 2 + 2 * XorDigits(n - 1, x / 2, y / 2)
  }

  function TwoTo(n: nat): nat {
    if n == 0 then 1 else 2 * TwoTo(n - 1)
  }

  lemma {:induction false} XorDigitsBound(n: nat, x: nat, y: nat)
    ensures XorDigits(n, x, y) < TwoTo(n)
  {
    if n == 0 {
    } else {
      XorDigitsBound(n - 1, x / 2, y / 2);
    }
  }

  lemma Parity(x: nat, y: nat, a: nat)
    ensures ((x + y) % 2 + 2 * a + y) % 2 == x % 2
    ensures ((x + y) % 2 + 2 * a) / 2 == a
  {
  }

  lemma {:induction false} XorDigitsTwice(n: nat, x: nat, y: nat)
    requires x < TwoTo(n)
    ensures XorDigits(n, XorDigits(n, x, y), y) == x
  {
    if n == 0 {
    } else {
      var a := XorDigits(n - 1, x / 2, y / 2);
      XorDigitsTwice(n - 1, x / 2, y / 2);
      Parity(x, y, a);
      assert x == x % 2 + 2 * (x / 2);
    }
  }

  lemma TwoToEight()
    ensures TwoTo(8) == 0x100
  {
    assert TwoTo(4) == 16;
    assert TwoTo(6) == 64;
  }

  function XorByte(x: Byte, y: Byte): Byte {
    XorDigitsBound(8, x as nat, y as nat);
    TwoToEight();
    XorDigits(8, x as nat, y as nat) as Byte
  }

  function Xor(a: Bytes, b: Bytes): (r: Bytes)
    requires |a| == |b|
    ensures |r| == |a|
  {
    seq(|a|, i requires 0 <= i < |a| => XorByte(a[i], b[i]))
  }

  lemma XorTwice(a: Bytes, b: Bytes)
    requires |a| == |b|
    ensures Xor(Xor(a, b), b) == a
  {
    forall i | 0 <= i < |a| ensures XorByte(XorByte(a[i], b[i]), b[i]) == a[i] {
      XorByteTwice(a[i], b[i]);
    }
  }

  lemma XorByteTwice(x: Byte, y: Byte)
    ensures XorByte(XorByte(x, y), y) == x
  {
    TwoToEight();
    XorDigitsTwice(8, x as nat, y as nat);
  }

  function CbcEncrypt(c: BlockCipher, key: Bytes, iv: Bytes, plain: Bytes): (r: Bytes)
    requires Lawful(c) && c.accepts(key) && |iv| == BLOCK && |plain| % BLOCK == 0
    ensures |r| == |plain|
    decreases |plain|
  {
    if plain == [] then [] else
    var block := c.encrypt(key, Xor(plain[..BLOCK], iv));
    block + CbcEncrypt(c, key, block, plain[BLOCK..])
  }

  function CbcDecrypt(c: BlockCipher, key: Bytes, iv: Bytes, cipher: Bytes): (r: Bytes)
    requires Lawful(c) && c.accepts(key) && |iv| == BLOCK && |cipher| % BLOCK == 0
    ensures |r| == |cipher|
    decreases |cipher|
  {
    if cipher == [] then [] else
    Xor(c.decrypt(key, cipher[..BLOCK]), iv) + CbcDecrypt(c, key, cipher[..BLOCK], cipher[BLOCK..])
  }

  lemma {:induction false} CbcRoundTrip(c: BlockCipher, key: Bytes, iv: Bytes, plain: Bytes)
    requires Lawful(c) && c.accepts(key) && |iv| == BLOCK && |plain| % BLOCK == 0
    ensures CbcDecrypt(c, key, iv, CbcEncrypt(c, key, iv, plain)) == plain
    decreases |plain|
  {
    if plain == [] {
    } else {
      var mixed := Xor(plain[..BLOCK], iv);
      var block := c.encrypt(key, mixed);
      var cipher := CbcEncrypt(c, key, iv, plain);
      assert cipher[..BLOCK] == block && cipher[BLOCK..] == CbcEncrypt(c, key, block, plain[BLOCK..]);
      CbcRoundTrip(c, key, block, plain[BLOCK..]);
      assert c.decrypt(key, block) == mixed;
      XorTwice(plain[..BLOCK], iv);
      assert plain == plain[..BLOCK] + plain[BLOCK..];
    }
  }

  lemma ZeroIvIsZero()
    ensures |ZeroIv()| == 16 && forall i :: 0 <= i < 16 ==> ZeroIv()[i] == 0
  {
  }

  /** Block `i` of a text. */
  function BlockOf(text: Bytes, i: nat): (b: Bytes)
    requires 16 * i + 16 <= |text|
    ensures |b| == 16
  {
    text[16 * i..16 * i + 16]
  }

  /** Section 6.2 of NIST SP 800-38A: each block is mixed with the ciphertext before it, the first with the vector. */
  lemma {:induction false} CbcBlocks(c: BlockCipher, key: Bytes, iv: Bytes, plain: Bytes, i: nat)
    requires Lawful(c) && c.accepts(key) && |iv| == BLOCK && |plain| % BLOCK == 0 && 16 * i + 16 <= |plain|
    ensures var cipher := CbcEncrypt(c, key, iv, plain);
      BlockOf(cipher, i) == c.encrypt(key, Xor(BlockOf(plain, i), if i == 0 then iv else BlockOf(cipher, i - 1)))
    decreases i
  {
    hide CbcEncrypt, Xor, Lawful, BlockOf;
    CbcFirst(c, key, iv, plain);
    var cipher := CbcEncrypt(c, key, iv, plain);
    var block := c.encrypt(key, Xor(plain[..BLOCK], iv));
    var rest := CbcEncrypt(c, key, block, plain[BLOCK..]);
    LaterBlocks(cipher, block, rest, i);
    LaterBlocks(plain, plain[..BLOCK], plain[BLOCK..], i);
    if i == 0 {
    } else {
      CbcBlocks(c, key, block, plain[BLOCK..], i - 1);
      LaterBlocks(cipher, block, rest, i - 1);
    }
  }

  lemma CbcFirst(c: BlockCipher, key: Bytes, iv: Bytes, plain: Bytes)
    requires Lawful(c) && c.accepts(key) && |iv| == BLOCK && |plain| % BLOCK == 0 && plain != []
    ensures var block := c.encrypt(key, Xor(plain[..BLOCK], iv));
      && |block| == BLOCK && plain == plain[..BLOCK] + plain[BLOCK..]
      && CbcEncrypt(c, key, iv, plain) == block + CbcEncrypt(c, key, block, plain[BLOCK..])
  {
  }

  lemma LaterBlocks(text: Bytes, first: Bytes, rest: Bytes, i: nat)
    requires text == first + rest && |first| == 16 && 16 * i + 16 <= |text|
    ensures i == 0 ==> BlockOf(text, i) == first
    ensures i > 0 ==> BlockOf(text, i) == BlockOf(rest, i - 1)
  {
  }

  lemma {:induction false} CbcBlocksBack(c: BlockCipher, key: Bytes, iv: Bytes, cipher: Bytes, i: nat)
    requires Lawful(c) && c.accepts(key) && |iv| == BLOCK && |cipher| % BLOCK == 0 && 16 * i + 16 <= |cipher|
    ensures BlockOf(CbcDecrypt(c, key, iv, cipher), i)
         == Xor(c.decrypt(key, BlockOf(cipher, i)), if i == 0 then iv else BlockOf(cipher, i - 1))
    decreases i
  {
    hide CbcDecrypt, Xor, Lawful, BlockOf;
    CbcFirstBack(c, key, iv, cipher);
    var plain, first := CbcDecrypt(c, key, iv, cipher), cipher[..BLOCK];
    LaterBlocks(plain, Xor(c.decrypt(key, first), iv), CbcDecrypt(c, key, first, cipher[BLOCK..]), i);
    LaterBlocks(cipher, first, cipher[BLOCK..], i);
    if i == 0 {
    } else {
      CbcBlocksBack(c, key, first, cipher[BLOCK..], i - 1);
      LaterBlocks(cipher, first, cipher[BLOCK..], i - 1);
    }
  }

  lemma CbcFirstBack(c: BlockCipher, key: Bytes, iv: Bytes, cipher: Bytes)
    requires Lawful(c) && c.accepts(key) && |iv| == BLOCK && |cipher| % BLOCK == 0 && cipher != []
    ensures var first := cipher[..BLOCK];
      && |c.decrypt(key, first)| == BLOCK && cipher == first + cipher[BLOCK..]
      && CbcDecrypt(c, key, iv, cipher)
      == Xor(c.decrypt(key, first), iv) + CbcDecrypt(c, key, first, cipher[BLOCK..])
  {
  }

  /** Binary digit `j`. */
  function Digit(x: nat, j: nat): nat {
    if j == 0 then x % 2 else Digit(x / 2, j - 1)
  }

  lemma {:induction false} XorDigit(n: nat, x: nat, y: nat, j: nat)
    requires j < n
    ensures Digit(XorDigits(n, x, y), j) == (Digit(x, j) + Digit(y, j)) % 2
  {
    hide XorDigits;
    XorHead(n, x, y);
    if j == 0 {
    } else {
      XorDigit(n - 1, x / 2, y / 2, j - 1);
    }
  }

  lemma XorHead(n: nat, x: nat, y: nat)
    requires n > 0
    ensures XorDigits(n, x, y) % 2 == (x % 2 + y % 2) % 2
    ensures XorDigits(n, x, y) / 2 == XorDigits(n - 1, x / 2, y / 2)
  {
    var a := XorDigits(n - 1, x / 2, y / 2);
    assert XorDigits(n, x, y) == (x + y) % 2 + 2 * a;
    hide XorDigits;
    LastDigit(x, y, a);
  }

  lemma LastDigit(x: nat, y: nat, a: nat)
    ensures ((x + y) % 2 + 2 * a) % 2 == (x % 2 + y % 2) % 2 && ((x + y) % 2 + 2 * a) / 2 == a
  {
  }

  /** The exclusive or of two blocks, bit by bit. */
  lemma XorBits(a: Bytes, b: Bytes, i: nat, j: nat)
    requires |a| == |b| && i < |a| && j < 8
    ensures Digit(Xor(a, b)[i] as nat, j) == (Digit(a[i] as nat, j) + Digit(b[i] as nat, j)) % 2
  {
    XorDigit(8, a[i] as nat, b[i] as nat, j);
  }

  /** Plain lengths are rounded up to whole blocks. */
  function PaddedLength(n: nat): (r: nat)
    ensures r % BLOCK == 0 && n <= r < n + BLOCK
  {
    if n % BLOCK == 0 then n else (n / BLOCK + 1) * BLOCK
  }

  /** A buffer of `max` bytes takes the ciphertext of every plaintext it could hold iff 16 divides `max`. */
  lemma PaddingFitsExactly(max: nat)
    ensures (forall n: nat :: n <= max ==> PaddedLength(n) <= max) <==> max % BLOCK == 0
  {
    if max % BLOCK != 0 {
      assert PaddedLength(max) > max;
    }
  }

  /** `cipherLen` is the capacity on entry; the result says how much of it was used. */
  method AESEncrypt(c: BlockCipher, ciphertext: array<Byte>, cipherLen: nat, key: Bytes,
                    plaintext: array<Byte>, plainLen: nat)
    returns (ok: bool, newLen: nat, padNum: int)
    requires Lawful(c) && ciphertext != plaintext
    requires cipherLen <= ciphertext.Length && plainLen <= plaintext.Length
    requires PaddedLength(plainLen) <= cipherLen ==> PaddedLength(plainLen) <= plaintext.Length
    modifies ciphertext
    ensures ok <==> c.accepts(key) && PaddedLength(plainLen) <= cipherLen
    ensures c.accepts(key) ==> padNum == PaddedLength(plainLen) - plainLen
    ensures ok ==> newLen == PaddedLength(plainLen)
    ensures ok ==> ciphertext[..newLen] == CbcEncrypt(c, key, ZeroIv(), plaintext[..newLen])
    ensures ok ==> ciphertext[newLen..] == old(ciphertext[newLen..])
    ensures !ok ==> newLen == cipherLen && ciphertext[..] == old(ciphertext[..])
  {
    newLen, padNum := cipherLen, 0;
    if !c.accepts(key) {
      return false, newLen, padNum;
    }
    var len;
    if plainLen % BLOCK == 0 {
      len := plainLen;
      padNum := 0;
    } else {
      len := (plainLen / BLOCK + 1) * BLOCK;
      padNum := len - plainLen;
    }
    if cipherLen < len {
      return false, newLen, padNum;
    }
    newLen := len;
    var input := plaintext[..len];
    var out := CbcEncrypt(c, key, ZeroIv(), input);
    forall i | 0 <= i < len {
      ciphertext[i] := out[i];
    }
    assert plaintext[..len] == input && ciphertext[..len] == out;
    ok := true;
  }

  /** All of the ciphertext is decrypted in place; the length then leaves the padding out. */
  method AESDecrypt(c: BlockCipher, decrypttext: array<Byte>, decryptLen: nat, key: Bytes,
                    ciphertext: Bytes, padNum: nat)
    returns (ok: bool, newLen: nat)
    requires Lawful(c) && |ciphertext| % BLOCK == 0 && padNum <= |ciphertext|
    requires |ciphertext| - padNum <= decryptLen ==> |ciphertext| <= decrypttext.Length
    modifies decrypttext
    ensures ok <==> c.accepts(key) && |ciphertext| - padNum <= decryptLen
    ensures ok ==> newLen == |ciphertext| - padNum <= decrypttext.Length
    ensures ok ==> decrypttext[..newLen] == CbcDecrypt(c, key, ZeroIv(), ciphertext)[..newLen]
    ensures !ok ==> newLen == decryptLen && decrypttext[..] == old(decrypttext[..])
  {
    newLen := decryptLen;
    if !c.accepts(key) {
      return false, newLen;
    }
    var len := |ciphertext|;
    if decryptLen < len - padNum {
      return false, newLen;
    }
    var out := CbcDecrypt(c, key, ZeroIv(), ciphertext);
    forall i | 0 <= i < len {
      decrypttext[i] := out[i];
    }
    newLen := len - padNum;
    ok := true;
  }
}
