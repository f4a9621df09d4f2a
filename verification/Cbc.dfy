/** AES-CBC payload encryption: padding, the IV in front, and removal of the padding (section 3.14 of RFC 7296). */
module Cbc {
  import opened Bytes
  import opened Modular

  const BLOCK := 16

  // ----- Exclusive or

  function Pow2(n: nat): nat {
    if n == 0 then 1 else 2 * Pow2(n - 1)
  }

  /** Exclusive or of the low `n` bits. */
  function XorBits(a: nat, b: nat, n: nat): (r: nat)
    ensures r < Pow2(n)
  {
    if n == 0 then 0 else 2 * XorBits(a / 2, b / 2, n - 1) + (a + b) % 2
  }

  lemma {:induction false} XorBitsUndone(a: nat, b: nat, n: nat)
    requires a < Pow2(n)
    ensures XorBits(XorBits(a, b, n), b, n) == a
  {
    if n > 0 {
      Halves(a, Pow2(n - 1));
      XorBitsUndone(a / 2, b / 2, n - 1);
      XorBitsStep(a, b, n, XorBits(a / 2, b / 2, n - 1), XorBits(a, b, n));
    }
  }

  lemma Halves(a: nat, m: nat)
    requires a < 2 * m
    ensures a / 2 < m
  {
  }

  /** One bit in front of bits that are already undone. */
  lemma XorBitsStep(a: nat, b: nat, n: nat, q: nat, x: nat)
    requires n > 0 && x == 2 * q + (a + b) % 2 && XorBits(q, b / 2, n - 1) == a / 2
    ensures XorBits(x, b, n) == a
  {
    BitUndone(a, b, q);
    assert XorBits(x, b, n) == 2 * XorBits(x / 2, b / 2, n - 1) + (x + b) % 2;
  }

  lemma BitUndone(a: nat, b: nat, q: nat)
    ensures var x := 2 * q + (a + b) % 2; x / 2 == q && (x + b) % 2 == a % 2
  {
  }

  function Xor(a: byte, b: byte): byte {
    assert Pow2(8) == 256;
    XorBits(a, b, 8)
  }

  function XorBytes(x: bytes, y: bytes): (r: bytes)
    requires |x| == |y|
    ensures |r| == |x|
  {
    seq(|x|, i requires 0 <= i < |x| => Xor(x[i], y[i]))
  }

  lemma XorUndone(x: bytes, y: bytes)
    requires |x| == |y|
    ensures XorBytes(XorBytes(x, y), y) == x
  {
    forall i | 0 <= i < |x|
      ensures Xor(Xor(x[i], y[i]), y[i]) == x[i]
    {
      assert Pow2(8) == 256;
      XorBitsUndone(x[i], y[i], 8);
    }
  }

  // ----- The block cipher and its chaining mode

  /** A block cipher under a fixed key. */
  datatype BlockCipher = BlockCipher(encrypt: bytes -> bytes, decrypt: bytes -> bytes)

  /** Encryption permutes the 16-byte blocks, and decryption undoes it. */
  ghost predicate Invertible(c: BlockCipher) {
    && (forall x: bytes {:trigger c.encrypt(x)} :: |x| == BLOCK ==> |c.encrypt(x)| == BLOCK && c.decrypt(c.encrypt(x)) == x)
    && (forall x: bytes {:trigger c.decrypt(x)} :: |x| == BLOCK ==> |c.decrypt(x)| == BLOCK)
  }

  function CbcEncrypt(c: BlockCipher, iv: bytes, p: bytes): (x: bytes)
    requires Invertible(c) && |iv| == BLOCK && |p| % BLOCK == 0
    ensures |x| == |p|
    decreases |p|
  {
    if p == [] then []
    else
      var block := c.encrypt(XorBytes(p[..BLOCK], iv));
      block + CbcEncrypt(c, block, p[BLOCK..])
  }

  function CbcDecrypt(c: BlockCipher, iv: bytes, x: bytes): (p: bytes)
    requires Invertible(c) && |iv| == BLOCK && |x| % BLOCK == 0
    ensures |p| == |x|
    decreases |x|
  {
    if x == [] then []
    else XorBytes(c.decrypt(x[..BLOCK]), iv) + CbcDecrypt(c, x[..BLOCK], x[BLOCK..])
  }

  lemma {:induction false} CbcRoundTrip(c: BlockCipher, iv: bytes, p: bytes)
    requires Invertible(c) && |iv| == BLOCK && |p| % BLOCK == 0
    ensures CbcDecrypt(c, iv, CbcEncrypt(c, iv, p)) == p
    decreases |p|
  {
    if p != [] {
      var first := XorBytes(p[..BLOCK], iv);
      var block := c.encrypt(first);
      var rest := CbcEncrypt(c, block, p[BLOCK..]);
      var x := CbcEncrypt(c, iv, p);
      assert x[..BLOCK] == block && x[BLOCK..] == rest;
      XorUndone(p[..BLOCK], iv);
      CbcRoundTrip(c, block, p[BLOCK..]);
      assert p == p[..BLOCK] + p[BLOCK..];
    }
  }

  // ----- Padding

  /** How many bytes of padding are added: at least one, at most a block. */
  function PaddingSize(n: nat, blockSize: nat): (k: nat)
    requires blockSize > 0
    ensures 1 <= k <= blockSize
  {
    blockSize - n % blockSize
  }

  /** The first `n` bytes of a random source. */
  function Draw(n: nat, random: nat -> byte): (r: bytes)
    ensures |r| == n
  {
    seq(n, i requires 0 <= i < n => random(i))
  }

  function Padded(p: bytes, blockSize: nat, random: nat -> byte): Outcome<bytes>
    requires blockSize > 0
  {
    var k := PaddingSize(|p|, blockSize);
    if k > 0xFF then Error
    else Ok(p + Draw(k - 1, random) + [k - 1])
  }

  lemma PaddedWhole(n: nat, blockSize: nat)
    requires blockSize > 0
    ensures (n + PaddingSize(n, blockSize)) % blockSize == 0
  {
    var q := n / blockSize;
    assert n + PaddingSize(n, blockSize) == blockSize * (q + 1) by {
      assert n == blockSize * q + n % blockSize;
      assert blockSize * (q + 1) == blockSize * q + blockSize;
    }
    RemainderUnique(n + PaddingSize(n, blockSize), blockSize, q + 1, 0);
  }

  /** Padding fills whole blocks, its last byte is one less than its length, and the text in front is untouched. */
  method Pkcs7Padding(p: bytes, blockSize: nat, random: nat -> byte) returns (r: Outcome<bytes>)
    requires blockSize > 0
    ensures r == Padded(p, blockSize, random)
    ensures r.Ok? ==> && |r.value| > 0 && |r.value| % blockSize == 0
                      && p <= r.value && r.value[|r.value| - 1] as int + 1 == |r.value| - |p|
  {
    var padding := blockSize - |p| % blockSize;
    if padding == 0 {
      padding := blockSize;
    }
    if padding < 0 || padding > 0xFF {
      return Error;
    }
    var paddingText := new byte[padding](i => random(i));
    paddingText[padding - 1] := padding - 1;
    assert paddingText[..] == Draw(padding - 1, random) + [padding - 1];
    PaddedWhole(|p|, blockSize);
    assert p + paddingText[..] == p + Draw(padding - 1, random) + [padding - 1];
    return Ok(p + paddingText[..]);
  }

  // ----- The cipher object

  /** The IV and the padding are random unless they have been fixed. */
  datatype CbcCrypto = CbcCrypto(block: BlockCipher, iv: Option<bytes>, padding: Option<bytes>)

  /** The random bytes one encryption draws. */
  datatype Random = Random(iv: nat -> byte, padding: nat -> byte)

  function IvUsed(e: CbcCrypto, random: Random): bytes {
    match e.iv
    case Some(iv) => iv
    case None => Draw(BLOCK, random.iv)
  }

  function PlainPadded(e: CbcCrypto, p: bytes, random: Random): Outcome<bytes> {
    match e.padding
    case Some(padding) => Ok(p + padding)
    case None => Padded(p, BLOCK, random.padding)
  }

  function EncryptBytes(e: CbcCrypto, p: bytes, random: Random): Outcome<bytes>
    requires Invertible(e.block)
  {
    var padded :- PlainPadded(e, p, random);
    var iv := IvUsed(e, random);
    if |iv| != BLOCK || |padded| % BLOCK != 0 then Fault else Ok(iv + CbcEncrypt(e.block, iv, padded))
  }

  /** A decrypted text, and the padding that still stands behind it in its array. */
  datatype Plain = Plain(text: bytes, behind: bytes)

  function DecryptBytes(e: CbcCrypto, x: bytes): Outcome<Plain>
    requires Invertible(e.block)
  {
    if |x| < BLOCK then Error
    else
      var iv := if e.iv.None? then x[..BLOCK] else e.iv.value;
      var message := x[BLOCK..];
      if |message| % BLOCK != 0 then Error
      else if |iv| != BLOCK then Fault
      else Unpad(CbcDecrypt(e.block, iv, message))
  }

  /** Removes as many bytes as the last one says, plus one. */
  function Unpad(plain: bytes): Outcome<Plain> {
    if plain == [] then Fault
    else
      var padding := plain[|plain| - 1] as int + 1;
      if padding > |plain| then Error else Ok(Plain(plain[..|plain| - padding], plain[|plain| - padding..]))
  }

  /** A fixed padding that says its own length, or the padding the code chooses. */
  predicate RemovablePadding(e: CbcCrypto) {
    e.padding.Some? ==> SaysLength(e.padding.value)
  }

  /** What encryption adds behind a plaintext. */
  function Added(e: CbcCrypto, p: bytes, random: Random): bytes
    requires PlainPadded(e, p, random).Ok?
  {
    PaddingAdded(e, p, random);
    PlainPadded(e, p, random).value[|p|..]
  }

  /**
   A receiver with the same key, and no IV of its own or the same one, recovers the plaintext from every
   encryption, whatever was drawn, if and only if the padding is removable; what was added stands behind it.
   */
  lemma DecryptEncrypt(e: CbcCrypto, d: CbcCrypto, p: bytes, random: Random)
    requires Invertible(e.block) && d.block == e.block && (d.iv.Some? ==> d.iv == e.iv)
    requires EncryptBytes(e, p, random).Ok?
    ensures var r := DecryptBytes(d, EncryptBytes(e, p, random).value);
            && (r.Ok? && r.value.text == p <==> RemovablePadding(e))
            && (RemovablePadding(e) ==> r == Ok(Plain(p, Added(e, p, random))))
  {
    var iv, padded := IvUsed(e, random), PlainPadded(e, p, random).value;
    var x := EncryptBytes(e, p, random).value;
    assert x[..BLOCK] == iv && x[BLOCK..] == CbcEncrypt(e.block, iv, padded);
    CbcRoundTrip(e.block, iv, padded);
    PaddingAdded(e, p, random);
    UnpadIff(p, padded[|p|..]);
  }

  /** What is added behind the plaintext says its own length exactly when the padding is removable. */
  lemma PaddingAdded(e: CbcCrypto, p: bytes, random: Random)
    requires PlainPadded(e, p, random).Ok?
    ensures var padded := PlainPadded(e, p, random).value;
            && |p| <= |padded| && padded == p + padded[|p|..]
            && (RemovablePadding(e) <==> SaysLength(padded[|p|..]))
  {
    if e.padding.None? {
      var k := PaddingSize(|p|, BLOCK);
      assert PlainPadded(e, p, random).value == p + (Draw(k - 1, random.padding) + [k - 1]);
    }
  }

  predicate SaysLength(q: bytes) {
    q != [] && q[|q| - 1] as int + 1 == |q|
  }

  lemma UnpadIff(p: bytes, q: bytes)
    ensures var r := Unpad(p + q);
            && (r.Ok? && r.value.text == p <==> SaysLength(q))
            && (SaysLength(q) ==> r == Ok(Plain(p, q)))
  {
    var plain := p + q;
    assert plain[..|p|] == p && plain[|p|..] == q;
    if q != [] {
      assert plain[|plain| - 1] == q[|q| - 1];
    }
  }

  /** A fixed IV is one block, and a fixed padding fills up the last block. */
  predicate CanEncrypt(e: CbcCrypto, p: bytes) {
    (e.iv.Some? ==> |e.iv.value| == BLOCK) && (e.padding.Some? ==> (|p| + |e.padding.value|) % BLOCK == 0)
  }

  function AddedLength(e: CbcCrypto, p: bytes): nat {
    if e.padding.Some? then |e.padding.value| else PaddingSize(|p|, BLOCK)
  }

  /** Whether encryption succeeds, and how long the result is, does not depend on what is drawn. */
  lemma EncryptsExactly(e: CbcCrypto, p: bytes, random: Random)
    requires Invertible(e.block)
    ensures EncryptBytes(e, p, random).Ok? <==> CanEncrypt(e, p)
    ensures CanEncrypt(e, p) ==> |EncryptBytes(e, p, random).value| == BLOCK + |p| + AddedLength(e, p)
  {
    PaddedWhole(|p|, BLOCK);
  }

  method Encrypt(e: CbcCrypto, p: bytes, random: Random) returns (r: Outcome<bytes>)
    requires Invertible(e.block)
    ensures r == EncryptBytes(e, p, random)
  {
    var plainText: bytes;
    if e.padding.None? {
      // Padding to 16-byte blocks never exceeds the one-byte limit.
      var padded := Pkcs7Padding(p, BLOCK, random.padding);
      plainText := padded.value;
    } else {
      plainText := p + e.padding.value;
    }
    var iv: bytes;
    if e.iv.None? {
      iv := Draw(BLOCK, random.iv);
    } else {
      iv := e.iv.value;
    }
    if |iv| != BLOCK || |plainText| % BLOCK != 0 {
      return Fault;
    }
    return Ok(iv + CbcEncrypt(e.block, iv, plainText));
  }

  method Decrypt(e: CbcCrypto, x: bytes) returns (r: Outcome<Plain>)
    requires Invertible(e.block)
    ensures r == DecryptBytes(e, x)
  {
    if |x| < BLOCK {
      return Error;
    }
    var iv := if e.iv.None? then x[..BLOCK] else e.iv.value;
    var message := x[BLOCK..];
    if |message| % BLOCK != 0 {
      return Error;
    }
    if |iv| != BLOCK {
      return Fault;
    }
    var plainText := CbcDecrypt(e.block, iv, message);
    if |plainText| == 0 {
      return Fault;
    }
    var padding := plainText[|plainText| - 1] as int + 1;
    if padding > |plainText| {
      return Error;
    }
    return Ok(Plain(plainText[..|plainText| - padding], plainText[|plainText| - padding..]));
  }
}
