/**
 Cipher feedback with full-block segments (section 6.3 of NIST SP 800-38A) over an arbitrary block
 function: the keystream of a segment is the enciphered previous ciphertext block, the
 initialisation vector standing before the first one. Decryption runs in place.
 */
module Cfb {
  import opened Bytes

  /** The ciphertext block that precedes segment q. */
  function Previous(iv: Block, c: seq<byte>, q: nat): (b: Block)
    requires 16 * q <= |c|
  {
    (iv + c)[16 * q..16 * q + 16]
  }

  lemma PreviousOfFirst(iv: Block, c: seq<byte>)
    ensures Previous(iv, c, 0) == iv
  {}

  lemma PreviousOfLater(iv: Block, segment: Block, rest: seq<byte>, q: nat)
    requires 16 * q <= |rest|
    ensures Previous(iv, segment + rest, q + 1) == Previous(segment, rest, q)
  {
    assert iv + (segment + rest) == (iv + segment) + rest;
  }

  lemma PreviousOfPrefix(iv: Block, c: seq<byte>, d: seq<byte>, q: nat)
    requires 16 * q <= |c| <= |d| && c == d[..|c|]
    ensures Previous(iv, c, q) == Previous(iv, d, q)
  {
    assert (iv + d)[..16 + |c|] == iv + c;
  }

  /** The keystream byte that meets ciphertext byte i. */
  function Keystream(e: Block -> Block, iv: Block, c: seq<byte>, i: nat): byte
    requires i < |c|
  {
    e(Previous(iv, c, i / 16))[i % 16]
  }

  /** c is the encryption of p: every byte differs from the plaintext by its keystream byte. */
  ghost predicate IsCfb(e: Block -> Block, iv: Block, p: seq<byte>, c: seq<byte>) {
    |c| == |p| && forall i :: 0 <= i < |p| ==> c[i] == Xor(p[i], Keystream(e, iv, c, i))
  }

  /** One segment after the other; the last may be short. */
  function Encrypt(e: Block -> Block, iv: Block, p: seq<byte>): (c: seq<byte>)
    ensures |c| == |p|
    decreases |p|
  {
    if |p| <= 16 then XorWith(p, e(iv))
    else
      var segment: Block := XorWith(p[..16], e(iv));
      segment + Encrypt(e, segment, p[16..])
  }

  function XorWith(p: seq<byte>, mask: seq<byte>): (c: seq<byte>)
    requires |p| <= |mask|
    ensures |c| == |p|
    ensures forall i :: 0 <= i < |p| ==> c[i] == Xor(p[i], mask[i])
  {
    seq(|p|, i requires 0 <= i < |p| => Xor(p[i], mask[i]))
  }

  function Decrypt(e: Block -> Block, iv: Block, c: seq<byte>): (p: seq<byte>)
    ensures |p| == |c|
    ensures forall i :: 0 <= i < |c| ==> p[i] == Xor(c[i], Keystream(e, iv, c, i))
  {
    seq(|c|, i requires 0 <= i < |c| => Xor(c[i], Keystream(e, iv, c, i)))
  }

  lemma {:induction false} EncryptIsCfb(e: Block -> Block, iv: Block, p: seq<byte>)
    ensures IsCfb(e, iv, p, Encrypt(e, iv, p))
    decreases |p|
  {
    if |p| <= 16 {
      ShortIsCfb(e, iv, p);
    } else {
      var segment: Block := XorWith(p[..16], e(iv));
      EncryptIsCfb(e, segment, p[16..]);
      ChainCfb(e, iv, p[..16], p[16..], segment, Encrypt(e, segment, p[16..]));
      assert p == p[..16] + p[16..];
    }
  }

  lemma ShortIsCfb(e: Block -> Block, iv: Block, p: seq<byte>)
    requires |p| <= 16
    ensures IsCfb(e, iv, p, XorWith(p, e(iv)))
  {
    var c := XorWith(p, e(iv));
    forall i | 0 <= i < |p| && i < 16 ensures c[i] == Xor(p[i], Keystream(e, iv, c, i)) {
      FirstKeystream(e, iv, c, i);
    }
  }

  lemma ChainCfb(e: Block -> Block, iv: Block, first: Block, later: seq<byte>, segment: Block,
      rest: seq<byte>)
    requires segment == XorWith(first, e(iv))
    requires IsCfb(e, segment, later, rest)
    ensures IsCfb(e, iv, first + later, segment + rest)
  {
    var p, c := first + later, segment + rest;
    forall i | 0 <= i < |p| ensures c[i] == Xor(p[i], Keystream(e, iv, c, i)) {
      if i < 16 {
        FirstKeystream(e, iv, c, i);
      } else {
        LaterKeystream(e, iv, segment, rest, i - 16);
        assert rest[i - 16] == Xor(later[i - 16], Keystream(e, segment, rest, i - 16));
      }
    }
  }

  lemma FirstKeystream(e: Block -> Block, iv: Block, c: seq<byte>, i: nat)
    requires i < 16 && i < |c|
    ensures Keystream(e, iv, c, i) == e(iv)[i]
  {
    PreviousOfFirst(iv, c);
    assert i / 16 == 0 && i % 16 == i;
  }

  lemma LaterKeystream(e: Block -> Block, iv: Block, segment: Block, rest: seq<byte>, j: nat)
    requires j < |rest|
    ensures Keystream(e, iv, segment + rest, 16 + j) == Keystream(e, segment, rest, j)
  {
    NextSegment(j);
    PreviousOfLater(iv, segment, rest, j / 16);
  }

  lemma NextSegment(j: nat)
    ensures (16 + j) / 16 == j / 16 + 1 && (16 + j) % 16 == j % 16
  {}

  /** The ciphertext decides the plaintext, and is decided by it: CFB is a bijection for each IV. */
  lemma DecryptIffCfb(e: Block -> Block, iv: Block, p: seq<byte>, c: seq<byte>)
    ensures IsCfb(e, iv, p, c) <==> p == Decrypt(e, iv, c)
  {
    if IsCfb(e, iv, p, c) {
      forall i | 0 <= i < |p| ensures p[i] == Decrypt(e, iv, c)[i] {
        XorInvolution(p[i], Keystream(e, iv, c, i));
      }
    }
    if p == Decrypt(e, iv, c) {
      forall i | 0 <= i < |p| ensures c[i] == Xor(p[i], Keystream(e, iv, c, i)) {
        XorInvolution(c[i], Keystream(e, iv, c, i));
      }
    }
  }

  lemma {:induction false} CfbDeterminesCiphertext(e: Block -> Block, iv: Block, p: seq<byte>, c: seq<byte>,
      d: seq<byte>, n: nat)
    requires IsCfb(e, iv, p, c) && IsCfb(e, iv, p, d) && n <= |p|
    ensures c[..n] == d[..n]
  {
    if n > 0 {
      var i := n - 1;
      CfbDeterminesCiphertext(e, iv, p, c, d, i);
      PreviousOfPrefix(iv, c[..i], c, i / 16);
      PreviousOfPrefix(iv, d[..i], d, i / 16);
      assert c[..n] == c[..i] + [c[i]];
      assert d[..n] == d[..i] + [d[i]];
    }
  }

  /** The byte that meets plaintext byte k: of the enciphered vector first, then of enciphered ciphertext blocks. */
  function MaskByte(e: Block -> Block, iv: Block, c: seq<byte>, k: nat): byte
    requires k < |c|
  {
    if k < 16 then e(iv)[k] else e(c[k - k % 16 - 16..k - k % 16])[k % 16]
  }

  /** Bit by bit: every ciphertext bit is the sum of its plaintext bit and the bit of the mask, modulo 2. */
  lemma {:induction false} EncryptBits(e: Block -> Block, iv: Block, p: seq<byte>, k: nat, i: nat)
    requires k < |p| && i < 8
    ensures var c := Encrypt(e, iv, p);
            c[k] / Pow2(i) % 2 == (p[k] / Pow2(i) + MaskByte(e, iv, c, k) / Pow2(i)) % 2
  {
    var c := Encrypt(e, iv, p);
    EncryptIsCfb(e, iv, p);
    KeystreamIsMask(e, iv, c, k);
    XorBit(p[k], Keystream(e, iv, c, k), i);
  }

  lemma KeystreamIsMask(e: Block -> Block, iv: Block, c: seq<byte>, k: nat)
    requires k < |c|
    ensures Keystream(e, iv, c, k) == MaskByte(e, iv, c, k)
  {
    if k < 16 {
      FirstKeystream(e, iv, c, k);
    } else {
      assert k - k % 16 == 16 * (k / 16);
      assert Previous(iv, c, k / 16) == c[k - k % 16 - 16..k - k % 16];
    }
  }

  /** Each direction undoes the other, for every length, vector and block function. */
  lemma {:induction false} RoundTrip(e: Block -> Block, iv: Block, t: seq<byte>)
    ensures Decrypt(e, iv, Encrypt(e, iv, t)) == t
    ensures Encrypt(e, iv, Decrypt(e, iv, t)) == t
  {
    EncryptIsCfb(e, iv, t);
    DecryptIffCfb(e, iv, t, Encrypt(e, iv, t));
    var p := Decrypt(e, iv, t);
    DecryptIffCfb(e, iv, p, t);
    CfbIsEncrypt(e, iv, p, t);
  }

  /** Decrypting the first bytes gives the first bytes. */
  lemma DecryptOfPrefix(e: Block -> Block, iv: Block, c: seq<byte>, n: nat)
    requires n <= |c|
    ensures Decrypt(e, iv, c[..n]) == Decrypt(e, iv, c)[..n]
  {
    forall i | 0 <= i < n ensures Keystream(e, iv, c[..n], i) == Keystream(e, iv, c, i) {
      PreviousOfPrefix(iv, c[..n], c, i / 16);
    }
  }

  /** c is the encryption of p so far, and out the block in use, unless the next segment starts. */
  ghost predicate Streamed(e: Block -> Block, iv: Block, p: seq<byte>, c: seq<byte>, out: Block) {
    IsCfb(e, iv, p, c) && (|c| % 16 != 0 ==> out == e(Previous(iv, c, |c| / 16)))
  }

  lemma SegmentStart(iv: Block, c: seq<byte>, filled: seq<byte>)
    requires filled == iv + c && |c| % 16 == 0
    ensures filled[|c|..|c| + 16] == Previous(iv, c, |c| / 16)
  {
    assert 16 * (|c| / 16) == |c|;
  }

  /** XORKeyStream of the encrypter: the buffer holds the IV, then receives the ciphertext. */
  method EncryptStream(e: Block -> Block, buffer: array<byte>, plaintext: seq<byte>)
    requires buffer.Length == 16 + |plaintext|
    modifies buffer
    ensures buffer[..16] == old(buffer[..16])
    ensures buffer[16..] == Encrypt(e, old(buffer[..16]), plaintext)
  {
    ghost var iv: Block := buffer[..16];
    ghost var c := [];
    var out: Block := buffer[..16];
    for i := 0 to |plaintext|
      invariant buffer[..16 + i] == iv + c && |c| == i
      invariant Streamed(e, iv, plaintext[..i], c, out)
    {
      if i % 16 == 0 {
        SegmentStart(iv, c, buffer[..16 + i]);
        assert buffer[i..i + 16] == buffer[..16 + i][i..i + 16];
        out := e(buffer[i..i + 16]);
      }
      var y := Xor(plaintext[i], out[i % 16]);
      buffer[16 + i] := y;
      ExtendCfb(e, iv, plaintext[..i], c, plaintext[i], out);
      c := c + [y];
      assert plaintext[..i + 1] == plaintext[..i] + [plaintext[i]];
    }
    assert plaintext[..|plaintext|] == plaintext;
    assert buffer[..] == buffer[..16 + |plaintext|] == iv + c;
    CfbIsEncrypt(e, iv, plaintext, c);
  }

  lemma {:induction false} CfbIsEncrypt(e: Block -> Block, iv: Block, p: seq<byte>, c: seq<byte>)
    requires IsCfb(e, iv, p, c)
    ensures c == Encrypt(e, iv, p)
  {
    var d := Encrypt(e, iv, p);
    EncryptIsCfb(e, iv, p);
    CfbDeterminesCiphertext(e, iv, p, c, d, |p|);
    assert c[..|p|] == c && d[..|p|] == d;
  }

  lemma KeystreamOfPrefix(e: Block -> Block, iv: Block, c: seq<byte>, d: seq<byte>, i: nat)
    requires i < |c| <= |d| && c == d[..|c|]
    ensures Keystream(e, iv, c, i) == Keystream(e, iv, d, i)
  {
    PreviousOfPrefix(iv, c, d, i / 16);
  }

  lemma LastKeystream(e: Block -> Block, iv: Block, c: seq<byte>, y: byte)
    ensures Previous(iv, c + [y], |c| / 16) == Previous(iv, c, |c| / 16)
    ensures Keystream(e, iv, c + [y], |c|) == e(Previous(iv, c, |c| / 16))[|c| % 16]
  {
    PreviousOfPrefix(iv, c, c + [y], |c| / 16);
  }

  lemma SameSegment(n: nat)
    requires (n + 1) % 16 != 0
    ensures (n + 1) / 16 == n / 16
  {}

  lemma ExtendCfb(e: Block -> Block, iv: Block, p: seq<byte>, c: seq<byte>, x: byte, out: Block)
    requires IsCfb(e, iv, p, c)
    requires out == e(Previous(iv, c, |c| / 16))
    ensures var d := c + [Xor(x, out[|c| % 16])];
            Streamed(e, iv, p + [x], d, out)
  {
    var y := Xor(x, out[|c| % 16]);
    var d := c + [y];
    LastKeystream(e, iv, c, y);
    if |d| % 16 != 0 {
      SameSegment(|c|);
    }
    forall i | 0 <= i < |d| ensures d[i] == Xor((p + [x])[i], Keystream(e, iv, d, i)) {
      if i < |c| {
        KeystreamOfPrefix(e, iv, c, d, i);
        assert c[i] == Xor(p[i], Keystream(e, iv, c, i));
      }
    }
  }

  /**
   XORKeyStream of the decrypter with source and destination the same bytes: the ciphertext block
   that the next segment needs is copied before it is overwritten.
   */
  method DecryptStream(e: Block -> Block, iv: Block, text: array<byte>)
    modifies text
    ensures text[..] == Decrypt(e, iv, old(text[..]))
  {
    ghost var c, p := text[..], Decrypt(e, iv, text[..]);
    var next: Block, q, i := iv, 0, 0;
    while i < text.Length
      invariant i <= text.Length
      invariant i < text.Length ==> i == 16 * q && next == Previous(iv, c, q)
      invariant Halfway(text[..], p, c, i)
    {
      var n := if text.Length - i < 16 then text.Length - i else 16;
      next := DecryptSegment(e, iv, text, c, next, q, n);
      q, i := q + 1, i + n;
    }
  }

  /** One segment in place; the ciphertext block is copied first if another segment may follow. */
  method DecryptSegment(e: Block -> Block, ghost iv: Block, text: array<byte>, ghost c: seq<byte>, block: Block,
      q: nat, n: nat)
    returns (next: Block)
    requires n <= 16 && 16 * q + n <= |c| && block == Previous(iv, c, q)
    requires Halfway(text[..], Decrypt(e, iv, c), c, 16 * q)
    modifies text
    ensures Halfway(text[..], Decrypt(e, iv, c), c, 16 * q + n)
    ensures n == 16 ==> next == Previous(iv, c, q + 1)
  {
    var i, out := 16 * q, e(block);
    ghost var before := text[..];
    SliceHalfway(before, Decrypt(e, iv, c), c, i, n);
    next := block;
    if n == 16 {
      next := text[i..i + n];
      assert text[i..i + n] == before[i..i + n];
      PreviousIsSegment(iv, c, q);
    }
    XorSegment(text, i, out, n);
    SegmentOfDecrypt(e, iv, c, q, n);
    assert before[i..i + n] == c[i..i + n];
    Advance(before, text[..], Decrypt(e, iv, c), c, i, n);
  }

  /** The first i elements are those of p, the others those of c. */
  ghost predicate Halfway<T>(text: seq<T>, p: seq<T>, c: seq<T>, i: nat) {
    |text| == |p| == |c| && i <= |c| && text == p[..i] + c[i..]
  }

  lemma SliceHalfway<T>(text: seq<T>, p: seq<T>, c: seq<T>, i: nat, n: nat)
    requires Halfway(text, p, c, i) && i + n <= |c|
    ensures text[i..i + n] == c[i..i + n]
  {}

  lemma Advance<T>(before: seq<T>, after: seq<T>, p: seq<T>, c: seq<T>, i: nat, n: nat)
    requires Halfway(before, p, c, i) && i + n <= |c| == |after|
    requires after[..i] == before[..i] && after[i + n..] == before[i + n..] && after[i..i + n] == p[i..i + n]
    ensures Halfway(after, p, c, i + n)
  {
    assert after == after[..i] + after[i..i + n] + after[i + n..];
    assert before[..i] == p[..i] && before[i + n..] == c[i + n..];
    assert p[..i + n] == p[..i] + p[i..i + n];
  }

  lemma PreviousIsSegment(iv: Block, c: seq<byte>, q: nat)
    requires 16 * q + 16 <= |c|
    ensures c[16 * q..16 * q + 16] == Previous(iv, c, q + 1)
  {}

  lemma SegmentOfDecrypt(e: Block -> Block, iv: Block, c: seq<byte>, q: nat, n: nat)
    requires n <= 16 && 16 * q + n <= |c|
    ensures Decrypt(e, iv, c)[16 * q..16 * q + n] == XorWith(c[16 * q..16 * q + n], e(Previous(iv, c, q)))
  {
    forall j | 0 <= j < n
      ensures Decrypt(e, iv, c)[16 * q + j] == Xor(c[16 * q + j], e(Previous(iv, c, q))[j])
    {
      assert (16 * q + j) / 16 == q && (16 * q + j) % 16 == j;
    }
  }

  method XorSegment(text: array<byte>, i: nat, out: Block, n: nat)
    requires n <= 16 && i + n <= text.Length
    modifies text
    ensures text[..i] == old(text[..i]) && text[i + n..] == old(text[i + n..])
    ensures text[i..i + n] == XorWith(old(text[i..i + n]), out)
  {
    for j := 0 to n
      invariant text[..i] == old(text[..i]) && text[i + j..] == old(text[i + j..])
      invariant text[i..i + j] == XorWith(old(text[i..i + j]), out)
    {
      text[i + j] := Xor(text[i + j], out[j]);
    }
  }
}

/** The codec of the shared key: crypto.InitCipher, crypto.Encrypt and crypto.Decrypt. */
module Crypto {
  import opened Bytes
  import Base64
  import Cfb

  datatype Error = NotInitialised | NoRandomness | BadBase64 | TooShort

  datatype Result = Ok(text: seq<byte>) | Err(error: Error)

  function Seal(e: Block -> Block, iv: Block, plaintext: seq<byte>): (text: seq<byte>)
    ensures |text| == 4 * ((|plaintext| + 18) / 3)
  {
    Base64.Encode(iv + Cfb.Encrypt(e, iv, plaintext))
  }

  function Unseal(e: Block -> Block, text: seq<byte>): Result {
    match Base64.Decode(text)
    case None => Err(BadBase64)
    case Some(bytes) =>
      if |bytes| < 16 then Err(TooShort) else Ok(Cfb.Decrypt(e, bytes[..16], bytes[16..]))
  }

  /** Decrypt undoes Encrypt for every plaintext, vector and block function. */
  lemma UnsealOfSeal(e: Block -> Block, iv: Block, plaintext: seq<byte>)
    ensures Unseal(e, Seal(e, iv, plaintext)) == Ok(plaintext)
  {
    var bytes := iv + Cfb.Encrypt(e, iv, plaintext);
    Base64.DecodeOfEncode(bytes);
    assert bytes[..16] == iv && bytes[16..] == Cfb.Encrypt(e, iv, plaintext);
    Cfb.RoundTrip(e, iv, plaintext);
  }

  /** Encrypted text that is cut short gives an error or a proper prefix of the plaintext. */
  lemma UnsealOfCut(e: Block -> Block, iv: Block, plaintext: seq<byte>, n: nat)
    requires n < |Seal(e, iv, plaintext)|
    ensures match Unseal(e, Seal(e, iv, plaintext)[..n])
            case Ok(cut) => |cut| < |plaintext| && cut <= plaintext
            case Err(_) => true
    ensures n % 4 != 0 ==> Unseal(e, Seal(e, iv, plaintext)[..n]) == Err(BadBase64)
  {
    if n % 4 != 0 {
      Base64.DecodeOfOddCut(iv + Cfb.Encrypt(e, iv, plaintext), n);
    } else {
      UnsealOfQuanta(e, iv, plaintext, n / 4);
    }
  }

  lemma UnsealOfQuanta(e: Block -> Block, iv: Block, plaintext: seq<byte>, k: nat)
    requires 4 * k < |Seal(e, iv, plaintext)|
    ensures match Unseal(e, Seal(e, iv, plaintext)[..4 * k])
            case Ok(cut) => |cut| < |plaintext| && cut <= plaintext
            case Err(_) => true
  {
    var c := Cfb.Encrypt(e, iv, plaintext);
    var bytes := iv + c;
    var text := Base64.Encode(bytes);
    assert 3 * k < |bytes|;
    Base64.DecodeOfCutEncode(bytes, k);
    if 16 <= 3 * k {
      UnsealOfShorter(e, iv, plaintext, text[..4 * k], 3 * k - 16);
    }
  }

  lemma {:induction false} UnsealOfShorter(e: Block -> Block, iv: Block, plaintext: seq<byte>, text: seq<byte>, n: nat)
    requires n < |plaintext|
    requires Base64.Decode(text) == Some((iv + Cfb.Encrypt(e, iv, plaintext))[..16 + n])
    ensures Unseal(e, text) == Ok(plaintext[..n])
  {
    var c := Cfb.Encrypt(e, iv, plaintext);
    VectorThenCut(iv, c, n);
    UnsealParts(e, text, (iv + c)[..16 + n], iv, c[..n]);
    Cfb.DecryptOfPrefix(e, iv, c, n);
    Cfb.RoundTrip(e, iv, plaintext);
  }

  lemma VectorThenCut<T>(iv: seq<T>, c: seq<T>, n: nat)
    requires |iv| == 16 && n <= |c|
    ensures (iv + c)[..16 + n][..16] == iv && (iv + c)[..16 + n][16..] == c[..n]
  {}

  lemma UnsealParts(e: Block -> Block, text: seq<byte>, bytes: seq<byte>, iv: Block, c: seq<byte>)
    requires Base64.Decode(text) == Some(bytes) && |bytes| >= 16 && bytes[..16] == iv && bytes[16..] == c
    ensures Unseal(e, text) == Ok(Cfb.Decrypt(e, iv, c))
  {}

  /** The encoded size is never zero, and fits the server's limit exactly up to 49136 plaintext bytes. */
  lemma SealedSize(e: Block -> Block, iv: Block, plaintext: seq<byte>)
    ensures |Seal(e, iv, plaintext)| > 0
    ensures |Seal(e, iv, plaintext)| <= 65536 <==> |plaintext| <= 49136
  {}

  /** Encrypt with a cipher that may not be there, and randomness that may fail. */
  function SealWith(block: Option<Block -> Block>, random: Option<Block>, plaintext: seq<byte>): Result {
    if block.None? then Err(NotInitialised)
    else if random.None? then Err(NoRandomness)
    else Ok(Seal(block.value, random.value, plaintext))
  }

  class Cipher {
    var block: Option<Block -> Block>

    constructor ()
      ensures block == None
    {
      block := None;
    }

    /** aes.NewCipher is a parameter: it succeeds for the 16-byte key. */
    method InitCipher(newCipher: Option<Block -> Block>)
      modifies this
      ensures block == newCipher
    {
      block := newCipher;
    }

    method Encrypt(plaintext: seq<byte>, random: Option<Block>) returns (r: Result)
      ensures block.None? ==> r == Err(NotInitialised)
      ensures block.Some? && random.None? ==> r == Err(NoRandomness)
      ensures block.Some? && random.Some? ==> r == Ok(Seal(block.value, random.value, plaintext))
      ensures r == SealWith(block, random, plaintext)
    {
      if block.None? {
        return Err(NotInitialised);
      }
      if random.None? {
        return Err(NoRandomness);
      }
      var iv := random.value;
      var ciphertext := new byte[16 + |plaintext|](i requires 0 <= i => if i < 16 then iv[i] else 0);
      assert ciphertext[..16] == iv;
      Cfb.EncryptStream(block.value, ciphertext, plaintext);
      assert ciphertext[..] == ciphertext[..16] + ciphertext[16..];
      return Ok(Base64.Encode(ciphertext[..]));
    }

    method Decrypt(cryptoText: seq<byte>) returns (r: Result)
      ensures r == if block.None? then Err(NotInitialised) else Unseal(block.value, cryptoText)
    {
      if block.None? {
        return Err(NotInitialised);
      }
      var decoded := Base64.Decode(cryptoText);
      if decoded.None? {
        return Err(BadBase64);
      }
      var bytes := decoded.value;
      if |bytes| < 16 {
        return Err(TooShort);
      }
      var ciphertext := new byte[|bytes| - 16](i requires 0 <= i < |bytes| - 16 => bytes[16 + i]);
      assert ciphertext[..] == bytes[16..];
      Cfb.DecryptStream(block.value, bytes[..16], ciphertext);
      return Ok(ciphertext[..]);
    }
  }
}
