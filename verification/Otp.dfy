/**
 The one-time code of a client: its key, its time step (section 4.2 of RFC 6238) and its six digits
 (section 5.3 of RFC 4226). SHA-1 and HMAC are arbitrary functions with 20-byte results.
 */
module Otp {
  import opened Bytes
  import opened Decimal
  import opened Names
  import Tile

  type Digest = s: seq<byte> | |s| == 20 witness seq(20, i => 0)

  const PERIOD := 30

  const DIGITS := 6

  /** The five parts of the digest in the order 5, 1, 4, 2, 3; the text sent on is base32 of this. */
  method GenerateOTPSecret(sha1: Digest) returns (secret: seq<byte>)
    ensures secret == Permuted(sha1)
  {
    var p1, p2, p3, p4, p5 := sha1[0..4], sha1[4..8], sha1[8..12], sha1[12..16], sha1[16..20];
    secret := [];
    secret := secret + p5;
    secret := secret + p1;
    secret := secret + p4;
    secret := secret + p2;
    secret := secret + p3;
  }

  /** Where byte i of the secret stands in the digest. */
  function Source(i: nat): (j: nat)
    requires i < 20
    ensures j < 20
  {
    if i < 4 then i + 16 else if i < 8 then i - 4 else if i < 12 then i + 4 else i - 8
  }

  function Permuted(d: Digest): (r: Digest) {
    seq(20, i requires 0 <= i < 20 => d[Source(i)])
  }

  /** Every byte of the digest is used once, so different digests have different secrets. */
  lemma SecretKeepsDigest(d: Digest, e: Digest)
    ensures forall i, j :: 0 <= i < j < 20 ==> Source(i) != Source(j)
    ensures Permuted(d) == Permuted(e) <==> d == e
  {
    if Permuted(d) == Permuted(e) {
      forall j | 0 <= j < 20 ensures d[j] == e[j] {
        var i := Place(j);
        assert Permuted(d)[i] == Permuted(e)[i];
      }
    }
  }

  function Place(j: nat): (i: nat)
    requires j < 20
    ensures i < 20 && Source(i) == j
  {
    if j < 4 then j + 4 else if j < 8 then j + 8 else if j < 12 then j + 8 else if j < 16 then j - 4 else j - 16
  }

  /** The remainder of Go's % operator, which has the sign of the dividend. */
  function TruncatedRemainder(a: int, b: int): (r: int)
    requires b > 0
    ensures -b < r < b
  {
    if a >= 0 then a % b else -((-a) % b)
  }

  function SecondsLeft(unix: int): int {
    PERIOD - TruncatedRemainder(unix, PERIOD)
  }

  /** T in section 4.2 of RFC 6238, with T0 the epoch. */
  function TimeStep(unix: int): int {
    unix / PERIOD
  }

  /** In range exactly for clocks at or after the epoch, or before it on a multiple of the period. */
  lemma SecondsLeftInRangeIff(unix: int)
    ensures 1 <= SecondsLeft(unix) <= 30 <==> unix >= 0 || unix % 30 == 0
  {
    if unix < 0 {
      assert unix % PERIOD == 0 <==> (-unix) % PERIOD == 0;
    }
  }

  /** The code stays for the seconds that are left, less one, and the step changes right after. */
  lemma StepLastsSecondsLeft(unix: int, later: nat)
    requires unix >= 0
    ensures TimeStep(unix + later) == TimeStep(unix) <==> later < SecondsLeft(unix)
    ensures later == SecondsLeft(unix) ==> TimeStep(unix + later) == TimeStep(unix) + 1
  {
    var step, rem := unix / PERIOD, unix % PERIOD;
    assert unix + later == PERIOD * step + (rem + later);
    if later == SecondsLeft(unix) {
      assert unix + later == PERIOD * (step + 1);
    }
  }

  /** Dynamic truncation, byte by byte. */
  function Truncate(mac: Digest): (n: nat)
    ensures n < 0x8000_0000
  {
    var offset := (mac[19] as int) % 16;
    var b0: int, b1: int, b2: int, b3: int := mac[offset], mac[offset + 1], mac[offset + 2], mac[offset + 3];
    b0 % 0x80 * 0x100_0000 + b1 * 0x1_0000 + b2 * 0x100 + b3
  }

  /** It is the low 31 bits of four consecutive bytes, which never include the last one. */
  lemma TruncateTakesFourBytes(mac: Digest)
    ensures var offset := (mac[19] as int) % 16;
            offset + 4 <= 19 && Truncate(mac) == Uint32(mac[offset..offset + 4]) % 0x8000_0000
  {
    var offset := (mac[19] as int) % 16;
    var b := mac[offset..offset + 4];
    var first: int, rest: int := b[0], (b[1] as int) * 0x1_0000 + (b[2] as int) * 0x100 + b[3] as int;
    assert Uint32(b) == first * 0x100_0000 + rest;
    LowBits(first, rest);
  }

  lemma LowBits(first: int, rest: int)
    requires 0 <= first < 0x100 && 0 <= rest < 0x100_0000
    ensures (first * 0x100_0000 + rest) % 0x8000_0000 == first % 0x80 * 0x100_0000 + rest
  {}

  function CodeOf(mac: Digest): string {
    Padded(Truncate(mac) % 1_000_000, DIGITS)
  }

  lemma CodeHasSixDigits(mac: Digest)
    ensures |CodeOf(mac)| == 6 && forall c :: c in CodeOf(mac) ==> IsDigit(c)
    ensures Value(CodeOf(mac)) == Truncate(mac) % 1_000_000
  {
    assert Pow10(6) == 1_000_000;
    PaddedWidth(Truncate(mac) % 1_000_000, DIGITS);
    ValueOfPadded(Truncate(mac) % 1_000_000, DIGITS);
  }

  /** The code and how long it lasts, for a clock at or after the epoch. */
  method GetTOTPWithExpire(hmac: (seq<byte>, int) -> Digest, sha1: Digest, unix: int)
      returns (code: string, secondsLeft: int)
    ensures code == CodeAt(hmac, sha1, unix) && secondsLeft == SecondsLeft(unix)
    ensures unix >= 0 ==> 1 <= secondsLeft <= 30 && (unix + secondsLeft) % 30 == 0
    ensures forall k: int :: 30 * k <= unix < 30 * k + 30 ==> code == CodeOf(hmac(Permuted(sha1), k))
  {
    var secret := GenerateOTPSecret(sha1);
    code := CodeOf(hmac(secret, unix / PERIOD));
    secondsLeft := PERIOD - TruncatedRemainder(unix, PERIOD);
  }

  function CodeAt(hmac: (seq<byte>, int) -> Digest, sha1: Digest, unix: int): string {
    CodeOf(hmac(Permuted(sha1), TimeStep(unix)))
  }

  function WideDigit(c: char): wchar
    requires IsDigit(c)
  {
    c as int
  }

  /** The digits as wide characters, as they are typed. */
  function Typed(code: string): (w: Wide)
    requires forall c :: c in code ==> IsDigit(c)
    ensures |w| == |code|
  {
    seq(|code|, i requires 0 <= i < |code| => assert code[i] in code; WideDigit(code[i]))
  }

  lemma TypedIsText(code: string, other: string)
    requires (forall c :: c in code ==> IsDigit(c)) && (forall c :: c in other ==> IsDigit(c))
    ensures Typed(code) == Typed(other) <==> code == other
    ensures forall i :: 0 <= i < |code| ==> Typed(code)[i] == code[i] as int
  {
    forall i | 0 <= i < |code| ensures Typed(code)[i] == code[i] as int {}
    forall i | 0 <= i < |other| ensures Typed(other)[i] == other[i] as int {}
    if Typed(code) == Typed(other) {
      assert |code| == |Typed(code)| == |other|;
      forall i | 0 <= i < |code| ensures code[i] == other[i] {
        assert Typed(code)[i] == Typed(other)[i];
      }
    }
  }

  /**
   Of all six-digit codes, the tile accepts just the one of the time step at which its secret is
   fetched, before any password of 1 to 255 characters and no other.
   */
  lemma OnlyThatCodeOpensTile(
    hmac: (seq<byte>, int) -> Digest, sha1: Digest, unix: int, code: string, password: Wide, os: Tile.Os)
    requires |code| == 6 && forall c :: c in code ==> IsDigit(c)
    requires forall c :: c in CodeAt(hmac, sha1, unix) ==> IsDigit(c)
    requires os.secret == Some(Typed(CodeAt(hmac, sha1, unix)))
    ensures Tile.Accepts(Some(Typed(code) + password), os) <==>
            code == CodeAt(hmac, sha1, unix) && 1 <= |password| <= 255
  {
    var fetched := CodeAt(hmac, sha1, unix);
    CodeHasSixDigits(hmac(Permuted(sha1), TimeStep(unix)));
    Tile.CodeThenPassword(Typed(code), password, os);
    TypedIsText(code, fetched);
  }

  /**
   A code shown at one time, followed by a password, is accepted by the tile whose secret is fetched
   within the seconds left, for every password of 1 to 255 characters and for no other.
   */
  lemma ShownCodeOpensTile(
    hmac: (seq<byte>, int) -> Digest, sha1: Digest, unix: int, later: nat, password: Wide, os: Tile.Os)
    requires unix >= 0 && later < SecondsLeft(unix)
    ensures var shown, fetched := CodeAt(hmac, sha1, unix), CodeAt(hmac, sha1, unix + later);
            && (forall c :: c in shown + fetched ==> IsDigit(c))
            && (os.secret == Some(Typed(fetched)) ==>
                  (Tile.Accepts(Some(Typed(shown) + password), os) <==> 1 <= |password| <= 255))
  {
    StepLastsSecondsLeft(unix, later);
    var shown := CodeAt(hmac, sha1, unix);
    CodeHasSixDigits(hmac(Permuted(sha1), TimeStep(unix)));
    Tile.CodeThenPassword(Typed(shown), password, os);
  }
}
