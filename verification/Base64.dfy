/**
 Base64 as the message codec uses it: the padded encoder of RFC 4648, section 4, and the decoder
 of Go's StdEncoding, which drops carriage returns and line feeds and ignores the unused low bits
 of the last symbol.
 */
module Base64 {
  import opened Bytes

  const PAD: byte := 61

  type sextet = x: int | 0 <= x < 64

  /** The alphabet of RFC 4648, section 4: A-Z, a-z, 0-9, plus, slash. */
  function Symbol(v: sextet): byte {
    if v < 26 then 65 + v
    else if v < 52 then 71 + v
    else if v < 62 then v - 4
    else if v == 62 then 43
    else 47
  }

  function Value(c: byte): Option<sextet> {
    if 65 <= c <= 90 then Some(c - 65)
    else if 97 <= c <= 122 then Some(c - 71)
    else if 48 <= c <= 57 then Some(c + 4)
    else if c == 43 then Some(62)
    else if c == 47 then Some(63)
    else None
  }

  lemma ValueOfSymbol(v: sextet)
    ensures Value(Symbol(v)) == Some(v)
  {}

  function Encode(b: seq<byte>): (s: seq<byte>)
    ensures |s| == 4 * ((|b| + 2) / 3)
  {
    if b == [] then []
    else if |b| == 1 then [Symbol(b[0] / 4), Symbol(b[0] % 4 * 16), PAD, PAD]
    else if |b| == 2 then [Symbol(b[0] / 4), Symbol(b[0] % 4 * 16 + b[1] / 16), Symbol(b[1] % 16 * 4), PAD]
    else EncodeGroup(b[0], b[1], b[2]) + Encode(b[3..])
  }

  function EncodeGroup(x: byte, y: byte, z: byte): (s: seq<byte>)
    ensures |s| == 4
  {
    [Symbol(x / 4), Symbol(x % 4 * 16 + y / 16), Symbol(y % 16 * 4 + z / 64), Symbol(z % 64)]
  }

  function DropNewlines(s: seq<byte>): (r: seq<byte>)
    ensures |r| <= |s|
  {
    if s == [] then []
    else (if s[0] == 10 || s[0] == 13 then [] else [s[0]]) + DropNewlines(s[1..])
  }

  function Decode(s: seq<byte>): Option<seq<byte>> {
    DecodeQuanta(DropNewlines(s))
  }

  function FirstByte(a: int, b: int): byte
    requires 0 <= a < 64 && 0 <= b < 64
  {
    a * 4 + b / 16
  }

  function SecondByte(b: int, c: int): byte
    requires 0 <= b < 64 && 0 <= c < 64
  {
    b % 16 * 16 + c / 4
  }

  function ThirdByte(c: int, d: int): byte
    requires 0 <= c < 64 && 0 <= d < 64
  {
    c % 4 * 64 + d
  }

  /** Four symbols at a time; only the last quantum may be padded. */
  function DecodeQuanta(s: seq<byte>): Option<seq<byte>> {
    if s == [] then Some([])
    else if |s| < 4 then None
    else
      match (Value(s[0]), Value(s[1]), Value(s[2]), Value(s[3]))
      case (Some(a), Some(b), Some(c), Some(d)) =>
        (match DecodeQuanta(s[4..])
         case Some(rest) => Some([FirstByte(a, b), SecondByte(b, c), ThirdByte(c, d)] + rest)
         case None => None)
      case (Some(a), Some(b), Some(c), None) =>
        if s[3] == PAD && |s| == 4 then Some([FirstByte(a, b), SecondByte(b, c)]) else None
      case (Some(a), Some(b), None, None) =>
        if s[2] == PAD && s[3] == PAD && |s| == 4 then Some([FirstByte(a, b)]) else None
      case _ => None
  }

  ghost predicate NoNewlines(s: seq<byte>) {
    forall i :: 0 <= i < |s| ==> s[i] != 10 && s[i] != 13
  }

  lemma {:induction false} EncodeHasNoNewlines(b: seq<byte>)
    ensures NoNewlines(Encode(b))
  {
    if |b| >= 3 {
      EncodeHasNoNewlines(b[3..]);
    }
  }

  /** Line breaks are passed over wherever they stand. */
  lemma {:induction false} LineBreaksAreSkipped(a: seq<byte>, c: byte, b: seq<byte>)
    requires c == 10 || c == 13
    ensures Decode(a + [c] + b) == Decode(a + b)
  {
    DropNewlinesAppend(a + [c], b);
    DropNewlinesAppend(a, [c]);
    DropNewlinesAppend(a, b);
    assert DropNewlines([c]) == [] by {
      assert [c][1..] == [];
    }
    assert DropNewlines(a) + [] == DropNewlines(a);
  }

  lemma {:induction false} DropNewlinesAppend(a: seq<byte>, b: seq<byte>)
    ensures DropNewlines(a + b) == DropNewlines(a) + DropNewlines(b)
  {
    if a == [] {
      assert a + b == b;
    } else {
      assert (a + b)[0] == a[0] && (a + b)[1..] == a[1..] + b;
      DropNewlinesAppend(a[1..], b);
      Regroup(if a[0] == 10 || a[0] == 13 then [] else [a[0]], DropNewlines(a[1..]), DropNewlines(b));
    }
  }

  /** Text that decodes has, apart from line breaks, just the length of the encoding of what it decodes to. */
  lemma {:induction false} DecodedSize(s: seq<byte>)
    requires DecodeQuanta(s).Some?
    ensures |s| == 4 * ((|DecodeQuanta(s).value| + 2) / 3)
  {
    if |s| > 4 {
      var more := QuantumAndMore(s);
      DecodedSize(s[4..]);
      ThreeMore(|more|);
    }
  }

  /** Unless it is the last, a quantum gives three bytes. */
  lemma {:induction false} QuantumAndMore(s: seq<byte>) returns (more: seq<byte>)
    requires |s| > 4 && DecodeQuanta(s).Some?
    ensures DecodeQuanta(s[4..]) == Some(more) && |DecodeQuanta(s).value| == 3 + |more|
  {
    more := DecodeQuanta(s[4..]).value;
  }

  lemma ThreeMore(n: nat)
    ensures (3 + n + 2) / 3 == 1 + (n + 2) / 3
  {}

  /** The examples of section 10 of RFC 4648. */
  lemma {:induction false} KnownTexts()
    ensures Encode([]) == [] && Encode([102]) == [90, 103, 61, 61] && Encode([102, 111]) == [90, 109, 56, 61]
    ensures Encode([102, 111, 111]) == [90, 109, 57, 118]
    ensures Encode([102, 111, 111, 98]) == [90, 109, 57, 118, 89, 103, 61, 61]
  {
    assert [102, 111, 111][3..] == [] && [102, 111, 111, 98][3..] == [98];
  }

  lemma {:induction false} NothingToDrop(s: seq<byte>)
    requires NoNewlines(s)
    ensures DropNewlines(s) == s
  {
    if s != [] {
      NothingToDrop(s[1..]);
    }
  }

  lemma SplitBytes(x: byte, y: byte, z: byte)
    ensures FirstByte(x / 4, x % 4 * 16 + y / 16) == x
    ensures SecondByte(x % 4 * 16 + y / 16, y % 16 * 4 + z / 64) == y
    ensures ThirdByte(y % 16 * 4 + z / 64, z % 64) == z
  {}

  lemma {:induction false} DecodeFullQuantum(a: sextet, b: sextet, c: sextet, d: sextet, rest: seq<byte>)
    ensures DecodeQuanta([Symbol(a), Symbol(b), Symbol(c), Symbol(d)] + rest) ==
            match DecodeQuanta(rest)
            case Some(r) => Some([FirstByte(a, b), SecondByte(b, c), ThirdByte(c, d)] + r)
            case None => None
  {
    var s := [Symbol(a), Symbol(b), Symbol(c), Symbol(d)] + rest;
    assert s[4..] == rest;
    assert s[0] == Symbol(a) && s[1] == Symbol(b) && s[2] == Symbol(c) && s[3] == Symbol(d);
    ValueOfSymbol(a);
    ValueOfSymbol(b);
    ValueOfSymbol(c);
    ValueOfSymbol(d);
  }

  lemma {:induction false} DecodeGroup(x: byte, y: byte, z: byte, rest: seq<byte>)
    ensures DecodeQuanta(EncodeGroup(x, y, z) + rest) ==
            match DecodeQuanta(rest) case Some(r) => Some([x, y, z] + r) case None => None
  {
    DecodeFullQuantum(x / 4, x % 4 * 16 + y / 16, y % 16 * 4 + z / 64, z % 64, rest);
    SplitBytes(x, y, z);
  }

  lemma DecodePaddedQuantum(a: sextet, b: sextet, c: sextet)
    ensures DecodeQuanta([Symbol(a), Symbol(b), PAD, PAD]) == Some([FirstByte(a, b)])
    ensures DecodeQuanta([Symbol(a), Symbol(b), Symbol(c), PAD]) == Some([FirstByte(a, b), SecondByte(b, c)])
  {
    ValueOfSymbol(a);
    ValueOfSymbol(b);
    ValueOfSymbol(c);
  }

  lemma EncodeShort(x: byte, y: byte)
    ensures Encode([x]) == [Symbol(x / 4), Symbol(x % 4 * 16), PAD, PAD]
    ensures Encode([x, y]) == [Symbol(x / 4), Symbol(x % 4 * 16 + y / 16), Symbol(y % 16 * 4), PAD]
  {}

  lemma SplitShort(x: byte, y: byte)
    ensures FirstByte(x / 4, x % 4 * 16) == x
    ensures FirstByte(x / 4, x % 4 * 16 + y / 16) == x && SecondByte(x % 4 * 16 + y / 16, y % 16 * 4) == y
  {}

  lemma DecodeShort(x: byte, y: byte)
    ensures DecodeQuanta(Encode([x])) == Some([x])
    ensures DecodeQuanta(Encode([x, y])) == Some([x, y])
  {
    EncodeShort(x, y);
    SplitShort(x, y);
    DecodePaddedQuantum(x / 4, x % 4 * 16, 0);
    DecodePaddedQuantum(x / 4, x % 4 * 16 + y / 16, y % 16 * 4);
  }

  lemma {:induction false} DecodeQuantaOfEncode(b: seq<byte>)
    ensures DecodeQuanta(Encode(b)) == Some(b)
  {
    if |b| == 1 {
      DecodeShort(b[0], 0);
      assert b == [b[0]];
    } else if |b| == 2 {
      DecodeShort(b[0], b[1]);
      assert b == [b[0], b[1]];
    } else if |b| >= 3 {
      DecodeQuantaOfEncode(b[3..]);
      DecodeGroup(b[0], b[1], b[2], Encode(b[3..]));
      assert b == [b[0], b[1], b[2]] + b[3..];
    }
  }

  /** Decoding recovers exactly the bytes that were encoded. */
  lemma {:induction false} DecodeOfEncode(b: seq<byte>)
    ensures Decode(Encode(b)) == Some(b)
  {
    EncodeHasNoNewlines(b);
    NothingToDrop(Encode(b));
    DecodeQuantaOfEncode(b);
  }

  /** A cut of encoded text at a proper multiple of four symbols decodes to the first bytes alone. */
  lemma {:induction false} DecodeOfCutEncode(b: seq<byte>, k: nat)
    requires 4 * k < |Encode(b)|
    ensures Decode(Encode(b)[..4 * k]) == Some(b[..3 * k])
  {
    var cut := Encode(b)[..4 * k];
    EncodeHasNoNewlines(b);
    NothingToDrop(cut);
    QuantaOfCutEncode(b, k, Encode(b));
  }

  lemma {:induction false} RefusedRest(s: seq<byte>)
    requires |s| > 4 && DecodeQuanta(s[4..]) == None
    ensures DecodeQuanta(s) == None
  {}

  lemma LessFour(n: nat)
    requires n > 4 && n % 4 != 0
    ensures (n - 4) % 4 != 0
  {}

  /** Text that is not a whole number of quanta is refused. */
  lemma {:induction false} OddLengthIsRefused(s: seq<byte>)
    requires |s| % 4 != 0
    ensures DecodeQuanta(s) == None
  {
    if |s| > 4 {
      LessFour(|s|);
      OddLengthIsRefused(s[4..]);
      RefusedRest(s);
    }
  }

  /** So is encoded text that is cut anywhere else. */
  lemma {:induction false} DecodeOfOddCut(b: seq<byte>, n: nat)
    requires n <= |Encode(b)| && n % 4 != 0
    ensures Decode(Encode(b)[..n]) == None
  {
    EncodeHasNoNewlines(b);
    NothingToDrop(Encode(b)[..n]);
    OddLengthIsRefused(Encode(b)[..n]);
  }

  lemma CutGroup<T>(all: seq<T>, group: seq<T>, rest: seq<T>, n: nat)
    requires all == group + rest && |group| <= n <= |all|
    ensures all[..n] == group + rest[..n - |group|]
  {}

  lemma {:induction false} FirstGroup(b: seq<byte>)
    requires |b| >= 3
    ensures Encode(b) == EncodeGroup(b[0], b[1], b[2]) + Encode(b[3..])
  {}

  lemma DecodeCutGroup(x: byte, y: byte, z: byte, b: seq<byte>, all: seq<byte>, rest: seq<byte>,
      k: nat)
    requires 3 <= 3 * k <= |b| && b == [x, y, z] + b[3..]
    requires all == EncodeGroup(x, y, z) + rest && 4 * k <= |all|
    requires DecodeQuanta(rest[..4 * k - 4]) == Some(b[3..][..3 * k - 3])
    ensures DecodeQuanta(all[..4 * k]) == Some(b[..3 * k])
  {
    var group := EncodeGroup(x, y, z);
    CutGroup(all, group, rest, 4 * k);
    CutGroup(b, [x, y, z], b[3..], 3 * k);
    DecodeGroup(x, y, z, rest[..4 * k - 4]);
  }

  lemma {:induction false} QuantaOfCutEncode(b: seq<byte>, k: nat, text: seq<byte>)
    requires text == Encode(b) && 4 * k < |text|
    ensures 3 * k <= |b| && DecodeQuanta(text[..4 * k]) == Some(b[..3 * k])
  {
    if k > 0 {
      var rest := Encode(b[3..]);
      FirstGroup(b);
      QuantaOfCutEncode(b[3..], k - 1, rest);
      DecodeCutGroup(b[0], b[1], b[2], b, text, rest, k);
    }
  }
}
