/**
 The JSON text of an archived log entry, character by character: what json.Marshal writes and how
 json.Decoder reads objects with string members back.
 */
module Json {
  import opened Bytes

  function HexDigit(n: nat): (c: char)
    requires n < 16
  {
    if n < 10 then '0' + n as char else 'a' + (n - 10) as char
  }

  function HexValue(c: char): (n: Option<nat>)
    ensures n.Some? ==> n.value < 16
  {
    if '0' <= c <= '9' then Some((c - '0') as nat)
    else if 'a' <= c <= 'f' then Some((c - 'a') as nat + 10)
    else if 'A' <= c <= 'F' then Some((c - 'A') as nat + 10)
    else None
  }

  lemma HexValueOfDigit(n: nat)
    requires n < 16
    ensures HexValue(HexDigit(n)) == Some(n)
  {}

  function Hex4(n: nat): (s: string)
    requires n < 0x10000
    ensures |s| == 4
  {
    [HexDigit(n / 0x1000), HexDigit(n / 0x100 % 16), HexDigit(n / 0x10 % 16), HexDigit(n % 16)]
  }

  function ReadHex4(s: string): Option<nat>
    requires |s| >= 4
  {
    var a, b, c, d := HexValue(s[0]), HexValue(s[1]), HexValue(s[2]), HexValue(s[3]);
    if a.None? || b.None? || c.None? || d.None? then None
    else Some(a.value * 0x1000 + b.value * 0x100 + c.value * 0x10 + d.value)
  }

  lemma ReadHex4OfHex4(n: nat, rest: string)
    requires n < 0x10000
    ensures ReadHex4(Hex4(n) + rest) == Some(n)
  {
    HexValueOfDigit(n / 0x1000);
    HexValueOfDigit(n / 0x100 % 16);
    HexValueOfDigit(n / 0x10 % 16);
    HexValueOfDigit(n % 16);
    ReadFourDigits(Hex4(n) + rest, n / 0x1000, n / 0x100 % 16, n / 0x10 % 16, n % 16);
    FourDigits(n);
  }

  lemma ReadFourDigits(s: string, a: nat, b: nat, c: nat, d: nat)
    requires |s| >= 4 && HexValue(s[0]) == Some(a) && HexValue(s[1]) == Some(b)
    requires HexValue(s[2]) == Some(c) && HexValue(s[3]) == Some(d)
    ensures ReadHex4(s) == Some(a * 0x1000 + b * 0x100 + c * 0x10 + d)
  {}

  lemma FourDigits(n: nat)
    ensures n / 0x1000 * 0x1000 + n / 0x100 % 16 * 0x100 + n / 0x10 % 16 * 0x10 + n % 16 == n
  {
    assert n / 0x100 == (n / 0x1000) * 16 + n / 0x100 % 16;
    assert n / 0x10 == (n / 0x100) * 16 + n / 0x10 % 16;
  }

  /** Characters that are written as they are; <, > and & are escaped too. */
  predicate IsPlain(c: char) {
    ' ' <= c && c != '"' && c != '\\' && c != '<' && c != '>' && c != '&' && c != '\U{2028}' && c != '\U{2029}'
  }

  /** The escape of a character, after its backslash. */
  function Escaped(c: char): (s: string)
    requires !IsPlain(c)
    ensures s != []
  {
    if c == '"' || c == '\\' then [c]
    else if c == '\U{0008}' then "b"
    else if c == '\U{000c}' then "f"
    else if c == '\n' then "n"
    else if c == '\r' then "r"
    else if c == '\t' then "t"
    else ['u'] + Hex4(c as nat)
  }

  function CharText(c: char): string {
    if IsPlain(c) then [c] else ['\\'] + Escaped(c)
  }

  function Escape(s: string): string {
    if s == [] then [] else CharText(s[0]) + Escape(s[1..])
  }

  function Quoted(s: string): string {
    ['"'] + Escape(s) + ['"']
  }

  /** One escape, after its backslash. Surrogates are not read. */
  function ReadEscape(text: string): (r: Option<(char, string)>)
    ensures r.Some? ==> |r.value.1| < |text|
  {
    if text == [] then None
    else
      var c, rest := text[0], text[1..];
      if c == '"' || c == '\\' || c == '/' then Some((c, rest))
      else if c == 'b' then Some(('\U{0008}', rest))
      else if c == 'f' then Some(('\U{000c}', rest))
      else if c == 'n' then Some(('\n', rest))
      else if c == 'r' then Some(('\r', rest))
      else if c == 't' then Some(('\t', rest))
      else if c != 'u' || |rest| < 4 then None
      else
        match ReadHex4(rest)
        case None => None
        case Some(n) => if 0xD800 <= n < 0xE000 || n >= 0x10000 then None else Some((n as char, rest[4..]))
  }

  /** The rest of a string after its opening quote: the string, and what follows its closing quote. */
  function Unescape(text: string): (r: Option<(string, string)>)
    ensures r.Some? ==> |r.value.1| < |text|
    decreases |text|
  {
    if text == [] || text[0] < ' ' then None
    else if text[0] == '"' then Some(([], text[1..]))
    else if text[0] != '\\' then Prepend(text[0], Unescape(text[1..]))
    else
      match ReadEscape(text[1..])
      case None => None
      case Some((c, rest)) => Prepend(c, Unescape(rest))
  }

  function Prepend(c: char, r: Option<(string, string)>): (p: Option<(string, string)>)
    ensures p.Some? ==> r.Some? && p.value.1 == r.value.1
  {
    match r case None => None case Some((s, rest)) => Some(([c] + s, rest))
  }

  lemma ReadShortEscape(e: char, c: char, rest: string)
    requires !IsPlain(c) && Escaped(c) == [e] && e != 'u'
    ensures ReadEscape([e] + rest) == Some((c, rest))
  {
    assert ([e] + rest)[1..] == rest;
  }

  lemma ReadUnicodeEscape(c: char, rest: string)
    requires (c as nat) < 0x10000
    ensures ReadEscape(['u'] + (Hex4(c as nat) + rest)) == Some((c, rest))
  {
    var hex := Hex4(c as nat) + rest;
    ReadHex4OfHex4(c as nat, rest);
    assert (['u'] + hex)[1..] == hex && hex[4..] == rest;
  }

  lemma ReadEscapeOfEscaped(c: char, rest: string)
    requires !IsPlain(c)
    ensures ReadEscape(Escaped(c) + rest) == Some((c, rest))
  {
    var e := Escaped(c);
    if |e| == 1 {
      assert e == [e[0]];
      ReadShortEscape(e[0], c, rest);
    } else {
      ReadUnicodeEscape(c, rest);
      assert e + rest == ['u'] + (Hex4(c as nat) + rest);
    }
  }

  lemma {:induction false} UnescapePlain(c: char, more: string)
    requires c >= ' ' && c != '"' && c != '\\'
    ensures Unescape([c] + more) == Prepend(c, Unescape(more))
  {
    assert ([c] + more)[1..] == more;
  }

  lemma {:induction false} UnescapeEscaped(e: string, c: char, more: string)
    requires ReadEscape(e + more) == Some((c, more))
    ensures Unescape((['\\'] + e) + more) == Prepend(c, Unescape(more))
  {
    var text := (['\\'] + e) + more;
    assert text[1..] == e + more;
  }

  lemma {:induction false} UnescapeFirst(c: char, more: string)
    ensures Unescape(CharText(c) + more) == Prepend(c, Unescape(more))
  {
    if IsPlain(c) {
      UnescapePlain(c, more);
    } else {
      ReadEscapeOfEscaped(c, more);
      UnescapeEscaped(Escaped(c), c, more);
    }
  }

  lemma {:induction false} UnescapeOfEscape(s: string, rest: string)
    ensures Unescape(Escape(s) + (['"'] + rest)) == Some((s, rest))
  {
    var end := ['"'] + rest;
    if s == [] {
      assert Escape(s) + end == end && end[1..] == rest;
    } else {
      UnescapeOfEscape(s[1..], rest);
      UnescapeMore(s[0], s[1..], Escape(s[1..]), end, rest);
      assert s == [s[0]] + s[1..];
    }
  }

  lemma {:induction false} UnescapeMore(c: char, t: string, escaped: string, end: string, rest: string)
    requires Unescape(escaped + end) == Some((t, rest))
    ensures Unescape((CharText(c) + escaped) + end) == Some(([c] + t, rest))
  {
    UnescapeFirst(c, escaped + end);
    Regroup(CharText(c), escaped, end);
  }

  /** How the characters that cannot stand for themselves are written. */
  lemma {:induction false} KnownEscapes()
    ensures CharText('\t') == "\\t" && CharText('\n') == "\\n" && CharText('\r') == "\\r"
    ensures CharText('"') == "\\\"" && CharText('\\') == "\\\\" && CharText('<') == "\\u003c"
    ensures CharText('>') == "\\u003e" && CharText('&') == "\\u0026" && CharText('\U{2028}') == "\\u2028"
    ensures CharText('A') == "A" && CharText(' ') == " "
  {}

  /** What is read although it is never written: an escaped slash, capital hex digits, an empty object. */
  lemma {:induction false} OtherSpellings(n: nat, rest: string)
    ensures ReadEscape(['/'] + rest) == Some(('/', rest))
    ensures n < 6 ==> HexValue('A' + n as char) == Some(10 + n)
    ensures ReadObject(['{', '}'] + rest) == Some(([], rest))
  {
    assert (['/'] + rest)[1..] == rest;
    assert (['{', '}'] + rest)[1..] == ['}'] + rest && (['}'] + rest)[1..] == rest;
  }

  /** A string with a raw control character is refused. */
  lemma {:induction false} ControlIsRefused(s: string, c: char, rest: string)
    requires c < ' ' && forall i :: 0 <= i < |s| ==> ' ' <= s[i] && s[i] != '"' && s[i] != '\\'
    ensures Unescape(s + [c] + rest) == None
  {
    var text := s + [c] + rest;
    if s != [] {
      assert text[1..] == s[1..] + [c] + rest && text[0] == s[0];
      ControlIsRefused(s[1..], c, rest);
    }
  }

  /** Nothing that ends a line or that HTML gives a meaning is left in an escaped text. */
  predicate IsSafe(c: char) {
    ' ' <= c && c !in {'<', '>', '&', '\U{2028}', '\U{2029}'}
  }

  ghost predicate AllSafe(s: string) {
    forall x :: x in s ==> IsSafe(x)
  }

  lemma CharTextIsSafe(c: char)
    ensures AllSafe(CharText(c))
  {
    if !IsPlain(c) && c !in {'"', '\\', '\U{0008}', '\U{000c}', '\n', '\r', '\t'} {
      Hex4IsSafe(c as nat);
    }
  }

  lemma Hex4IsSafe(n: nat)
    requires n < 0x10000
    ensures AllSafe(Hex4(n))
  {
    HexDigitIsSafe(n / 0x1000);
    HexDigitIsSafe(n / 0x100 % 16);
    HexDigitIsSafe(n / 0x10 % 16);
    HexDigitIsSafe(n % 16);
  }

  lemma HexDigitIsSafe(n: nat)
    requires n < 16
    ensures IsSafe(HexDigit(n))
  {}

  lemma {:induction false} EscapeIsSafe(s: string)
    ensures AllSafe(Escape(s))
  {
    if s != [] {
      CharTextIsSafe(s[0]);
      EscapeIsSafe(s[1..]);
    }
  }

  function ReadString(text: string): (r: Option<(string, string)>)
    ensures r.Some? ==> |r.value.1| < |text|
  {
    if text == [] || text[0] != '"' then None else Unescape(text[1..])
  }

  lemma ReadStringOfQuoted(s: string, rest: string)
    ensures ReadString(Quoted(s) + rest) == Some((s, rest))
  {
    UnescapeOfEscape(s, rest);
    QuotedParts(Escape(s), rest);
  }

  lemma QuotedParts(escaped: string, rest: string)
    ensures var text := (['"'] + escaped + ['"']) + rest; text[0] == '"' && text[1..] == escaped + (['"'] + rest)
  {}

  predicate IsSpace(c: char) {
    c == ' ' || c == '\t' || c == '\n' || c == '\r'
  }

  function SkipSpace(text: string): (r: string)
    ensures |r| <= |text| && (r != [] ==> !IsSpace(r[0]))
  {
    if text == [] || !IsSpace(text[0]) then text else SkipSpace(text[1..])
  }

  /** The given character, after white space. */
  function Expect(c: char, text: string): (r: Option<string>)
    ensures r.Some? ==> |r.value| < |text|
  {
    var t := SkipSpace(text);
    if t == [] || t[0] != c then None else Some(t[1..])
  }

  type Member = (string, string)

  /** "key":"value" */
  function ReadMember(text: string): (r: Option<(Member, string)>)
    ensures r.Some? ==> |r.value.1| < |text|
  {
    match ReadString(SkipSpace(text))
    case None => None
    case Some((key, t)) =>
      match Expect(':', t)
      case None => None
      case Some(t) =>
        match ReadString(SkipSpace(t))
        case None => None
        case Some((value, t)) => Some(((key, value), t))
  }

  /** Members separated by commas, up to and with the closing brace. */
  function ReadMembers(text: string): (r: Option<(seq<Member>, string)>)
    ensures r.Some? ==> |r.value.1| < |text|
    decreases |text|
  {
    match ReadMember(text)
    case None => None
    case Some((m, t)) =>
      match Expect('}', t)
      case Some(rest) => Some(([m], rest))
      case None =>
        match Expect(',', t)
        case None => None
        case Some(t) =>
          match ReadMembers(t)
          case None => None
          case Some((ms, rest)) => Some(([m] + ms, rest))
  }

  function ReadObject(text: string): (r: Option<(seq<Member>, string)>)
    ensures r.Some? ==> |r.value.1| < |text|
  {
    match Expect('{', text)
    case None => None
    case Some(t) =>
      match Expect('}', t)
      case Some(rest) => Some(([], rest))
      case None => ReadMembers(t)
  }

  function MemberText(m: Member): string {
    Quoted(m.0) + ([':'] + Quoted(m.1))
  }

  function MembersText(ms: seq<Member>): string
    requires ms != []
  {
    MemberText(ms[0]) + if |ms| == 1 then ['}'] else [','] + MembersText(ms[1..])
  }

  function ObjectText(ms: seq<Member>): string
    requires ms != []
  {
    ['{'] + MembersText(ms)
  }

  lemma ExpectNow(c: char, rest: string)
    requires !IsSpace(c)
    ensures Expect(c, [c] + rest) == Some(rest)
    ensures forall d :: d != c ==> Expect(d, [c] + rest) == None
  {
    assert SkipSpace([c] + rest) == [c] + rest;
    assert ([c] + rest)[1..] == rest;
  }

  lemma {:induction false} ExpectOther(c: char, text: string)
    requires text != [] && !IsSpace(text[0]) && text[0] != c
    ensures SkipSpace(text) == text && Expect(c, text) == None
  {}

  lemma {:induction false} ReadStringAfterSpace(s: string, rest: string)
    ensures ReadString(SkipSpace(Quoted(s) + rest)) == Some((s, rest))
  {
    QuotedParts(Escape(s), rest);
    ExpectOther('}', Quoted(s) + rest);
    ReadStringOfQuoted(s, rest);
  }

  lemma {:induction false} ReadMemberParts(text: string, key: string, after: string, value: string, more: string,
      rest: string)
    requires ReadString(SkipSpace(text)) == Some((key, after))
    requires Expect(':', after) == Some(more)
    requires ReadString(SkipSpace(more)) == Some((value, rest))
    ensures ReadMember(text) == Some(((key, value), rest))
  {}

  lemma ReadMemberOfText(m: Member, rest: string)
    ensures ReadMember(MemberText(m) + rest) == Some((m, rest))
  {
    var more := Quoted(m.1) + rest;
    Regroup(Quoted(m.0), [':'] + Quoted(m.1), rest);
    Regroup([':'], Quoted(m.1), rest);
    ReadStringAfterSpace(m.0, [':'] + more);
    ExpectNow(':', more);
    ReadStringAfterSpace(m.1, rest);
    ReadMemberParts(MemberText(m) + rest, m.0, [':'] + more, m.1, more, rest);
  }

  lemma {:induction false} ReadLastMember(m: Member, rest: string)
    ensures ReadMembers(MemberText(m) + (['}'] + rest)) == Some(([m], rest))
  {
    ReadMemberOfText(m, ['}'] + rest);
    ExpectNow('}', rest);
  }

  lemma {:induction false} ReadFirstMember(m: Member, more: string)
    ensures ReadMembers(MemberText(m) + ([','] + more)) ==
            match ReadMembers(more) case None => None case Some((ms, rest)) => Some(([m] + ms, rest))
  {
    ReadMemberOfText(m, [','] + more);
    ExpectNow(',', more);
  }

  lemma {:induction false} ReadMoreMembers(m: Member, ms: seq<Member>, text: string, rest: string)
    requires ReadMembers(text + rest) == Some((ms, rest))
    ensures ReadMembers((MemberText(m) + ([','] + text)) + rest) == Some(([m] + ms, rest))
  {
    ReadFirstMember(m, text + rest);
    Regroup(MemberText(m), [','] + text, rest);
    Regroup([','], text, rest);
  }

  lemma {:induction false} ReadMembersOfText(ms: seq<Member>, rest: string)
    requires ms != []
    ensures ReadMembers(MembersText(ms) + rest) == Some((ms, rest))
  {
    if |ms| == 1 {
      ReadLastMember(ms[0], rest);
      Regroup(MemberText(ms[0]), ['}'], rest);
      assert ms == [ms[0]];
    } else {
      ReadMembersOfText(ms[1..], rest);
      ReadMoreMembers(ms[0], ms[1..], MembersText(ms[1..]), rest);
      assert ms == [ms[0]] + ms[1..];
    }
  }

  lemma {:induction false} MembersStart(ms: seq<Member>)
    requires ms != []
    ensures MembersText(ms) != [] && MembersText(ms)[0] == '"'
  {}

  /** Reading an object back gives its members and leaves what follows it. */
  lemma ReadObjectOfText(ms: seq<Member>, rest: string)
    requires ms != []
    ensures ReadObject(ObjectText(ms) + rest) == Some((ms, rest))
  {
    var text := MembersText(ms);
    MembersStart(ms);
    ReadMembersOfText(ms, rest);
    ReadObjectParts(text, ms, rest);
  }

  lemma {:induction false} ReadObjectParts(text: string, ms: seq<Member>, rest: string)
    requires text != [] && text[0] == '"' && ReadMembers(text + rest) == Some((ms, rest))
    ensures ReadObject((['{'] + text) + rest) == Some((ms, rest))
  {
    Regroup(['{'], text, rest);
    ExpectNow('{', text + rest);
    ExpectOther('}', text + rest);
  }

  /** What is read does not change when more text follows. */
  lemma ReadEscapeFurther(text: string, more: string)
    requires ReadEscape(text).Some?
    ensures ReadEscape(text + more) == Some((ReadEscape(text).value.0, ReadEscape(text).value.1 + more))
  {
    assert (text + more)[1..] == text[1..] + more;
    if text[0] == 'u' && |text| >= 5 {
      assert (text[1..] + more)[4..] == text[1..][4..] + more;
      assert ReadHex4(text[1..] + more) == ReadHex4(text[1..]);
    }
  }

  lemma {:induction false} UnescapeFurther(text: string, more: string)
    requires Unescape(text).Some?
    ensures Unescape(text + more) == Some((Unescape(text).value.0, Unescape(text).value.1 + more))
    decreases |text|
  {
    assert (text + more)[1..] == text[1..] + more;
    if text[0] == '\\' {
      ReadEscapeFurther(text[1..], more);
      UnescapeFurther(ReadEscape(text[1..]).value.1, more);
    } else if text[0] != '"' {
      UnescapeFurther(text[1..], more);
    }
  }

  lemma ReadStringFurther(text: string, more: string)
    requires ReadString(text).Some?
    ensures ReadString(text + more) == Some((ReadString(text).value.0, ReadString(text).value.1 + more))
  {
    assert (text + more)[1..] == text[1..] + more;
    UnescapeFurther(text[1..], more);
  }

  lemma {:induction false} SkipSpaceFurther(text: string, more: string)
    requires SkipSpace(text) != []
    ensures SkipSpace(text + more) == SkipSpace(text) + more
  {
    if IsSpace(text[0]) {
      assert (text + more)[1..] == text[1..] + more;
      SkipSpaceFurther(text[1..], more);
    }
  }

  lemma {:induction false} ExpectFurther(c: char, text: string, more: string)
    requires SkipSpace(text) != []
    ensures Expect(c, text + more) == match Expect(c, text) case None => None case Some(t) => Some(t + more)
  {
    SkipSpaceFurther(text, more);
    assert (SkipSpace(text) + more)[1..] == SkipSpace(text)[1..] + more;
  }

  lemma ReadMemberFurther(text: string, more: string)
    requires ReadMember(text).Some?
    ensures ReadMember(text + more) == Some((ReadMember(text).value.0, ReadMember(text).value.1 + more))
  {
    SkipSpaceFurther(text, more);
    ReadStringFurther(SkipSpace(text), more);
    var t := ReadString(SkipSpace(text)).value.1;
    ExpectFurther(':', t, more);
    var v := Expect(':', t).value;
    SkipSpaceFurther(v, more);
    ReadStringFurther(SkipSpace(v), more);
  }

  lemma {:induction false} ReadMembersFurther(text: string, more: string)
    requires ReadMembers(text).Some?
    ensures ReadMembers(text + more) == Some((ReadMembers(text).value.0, ReadMembers(text).value.1 + more))
    decreases |text|
  {
    ReadMemberFurther(text, more);
    var t := ReadMember(text).value.1;
    ExpectFurther('}', t, more);
    if Expect('}', t).None? {
      ExpectFurther(',', t, more);
      ReadMembersFurther(Expect(',', t).value, more);
    }
  }

  lemma ReadObjectFurther(text: string, more: string)
    requires ReadObject(text).Some?
    ensures ReadObject(text + more) == Some((ReadObject(text).value.0, ReadObject(text).value.1 + more))
  {
    ExpectFurther('{', text, more);
    var t := Expect('{', text).value;
    ExpectFurther('}', t, more);
    if Expect('}', t).None? {
      ReadMembersFurther(t, more);
    }
  }

  /** So no beginning of an object is an object: a torn write is never read as an entry. */
  lemma BeginningIsNoObject(ms: seq<Member>, n: nat)
    requires ms != [] && n < |ObjectText(ms)|
    ensures ReadObject(ObjectText(ms)[..n]) == None
  {
    ReadObjectOfText(ms, []);
    assert ObjectText(ms) + [] == ObjectText(ms);
    BeginningOfRead(ObjectText(ms), ms, n);
  }

  lemma {:induction false} BeginningOfRead(text: string, ms: seq<Member>, n: nat)
    requires ReadObject(text) == Some((ms, [])) && n < |text|
    ensures ReadObject(text[..n]) == None
  {
    assert text[..n] + text[n..] == text;
    if ReadObject(text[..n]).Some? {
      ReadObjectFurther(text[..n], text[n..]);
    }
  }
}

/** The log archive: two appends for each entry, from any number of connections, and reading it all back. */
module Archive {
  import opened Bytes
  import opened Json

  datatype LogEntry = LogEntry(time: string, agentID: string, message: string)

  function Members(e: LogEntry): seq<Member> {
    [("time", e.time), ("agent_id", e.agentID), ("message", e.message)]
  }

  /** json.Marshal of an entry. */
  function Marshal(e: LogEntry): string {
    ObjectText(Members(e))
  }

  function SetField(e: LogEntry, m: Member): LogEntry {
    if m.0 == "time" then e.(time := m.1)
    else if m.0 == "agent_id" then e.(agentID := m.1)
    else if m.0 == "message" then e.(message := m.1)
    else e
  }

  /** Members are stored in order, so the last of a name stays; other names are passed over. */
  function FromMembers(ms: seq<Member>): LogEntry {
    if ms == [] then LogEntry("", "", "") else SetField(FromMembers(ms[..|ms| - 1]), ms[|ms| - 1])
  }

  datatype Decoded = Eof | Malformed | Entry(entry: LogEntry, rest: string)

  /** Decoder.Decode into a fresh entry. */
  function Decode(text: string): (d: Decoded)
    ensures d.Entry? ==> |d.rest| < |text|
  {
    if SkipSpace(text) == [] then Eof
    else match ReadObject(text) case None => Malformed case Some((ms, rest)) => Entry(FromMembers(ms), rest)
  }

  function Load(text: string): Option<seq<LogEntry>>
    decreases |text|
  {
    match Decode(text)
    case Eof => Some([])
    case Malformed => None
    case Entry(e, rest) => After([e], Load(rest))
  }

  function After(first: seq<LogEntry>, more: Option<seq<LogEntry>>): Option<seq<LogEntry>> {
    match more case None => None case Some(es) => Some(first + es)
  }

  /** archive is the file's text, None when it cannot be opened. */
  method LoadArchiveLogs(archive: Option<string>) returns (logs: Option<seq<LogEntry>>)
    ensures logs == if archive.None? then None else Load(archive.value)
  {
    if archive.None? {
      return None;
    }
    var text, found := archive.value, [];
    AfterNothing([], Load(text));
    while true
      invariant Load(archive.value) == After(found, Load(text))
      decreases |text|
    {
      match Decode(text) {
        case Eof =>
          AfterNothing(found, None);
          return Some(found);
        case Malformed =>
          return None;
        case Entry(e, rest) =>
          AfterAfter(found, [e], Load(rest));
          found, text := found + [e], rest;
      }
    }
  }

  lemma AfterNothing(first: seq<LogEntry>, more: Option<seq<LogEntry>>)
    ensures After([], more) == more && After(first, Some([])) == Some(first)
  {
    assert first + [] == first;
    if more.Some? {
      assert [] + more.value == more.value;
    }
  }

  lemma AfterAfter(a: seq<LogEntry>, b: seq<LogEntry>, more: Option<seq<LogEntry>>)
    ensures After(a, After(b, more)) == After(a + b, more)
  {
    if more.Some? {
      assert a + (b + more.value) == (a + b) + more.value;
    }
  }

  lemma FromMembersOfEntry(e: LogEntry)
    ensures FromMembers(Members(e)) == e
  {
    var ms := Members(e);
    assert ms[..2] == [("time", e.time), ("agent_id", e.agentID)] && ms[..2][..1] == [("time", e.time)];
    assert FromMembers([("time", e.time)]) == LogEntry(e.time, "", "") by {
      assert [("time", e.time)][..0] == [];
    }
    assert FromMembers(ms[..2]) == LogEntry(e.time, e.agentID, "");
  }

  lemma {:induction false} MarshalStarts(e: LogEntry, rest: string)
    ensures SkipSpace(Marshal(e) + rest) == Marshal(e) + rest != []
  {}

  /** An entry is read back as it was, whatever follows. */
  lemma DecodeOfMarshal(e: LogEntry, rest: string)
    ensures Decode(Marshal(e) + rest) == Entry(e, rest)
  {
    MarshalStarts(e, rest);
    ReadObjectOfText(Members(e), rest);
    FromMembersOfEntry(e);
  }

  lemma DecodePastNewline(rest: string)
    ensures Decode(['\n'] + rest) == Decode(rest)
  {
    assert (['\n'] + rest)[1..] == rest;
  }

  /** One append, by the handler of a connection. */
  datatype Append = Object(conn: nat, entry: LogEntry) | Newline(conn: nat)

  /** pending holds the connections between their two appends; landed the entries in file order. */
  datatype State = State(file: string, pending: set<nat>, landed: seq<LogEntry>)

  function Step(s: State, a: Append): Option<State> {
    match a
    case Object(conn, e) =>
      if conn in s.pending then None
      else Some(State(s.file + Marshal(e), s.pending + {conn}, s.landed + [e]))
    case Newline(conn) =>
      if conn !in s.pending then None
      else Some(State(s.file + ['\n'], s.pending - {conn}, s.landed))
  }

  function Run(appends: seq<Append>): Option<State> {
    if appends == [] then Some(State([], {}, []))
    else
      match Run(appends[..|appends| - 1])
      case None => None
      case Some(s) => Step(s, appends[|appends| - 1])
  }

  lemma {:induction false} ObjectIsRead(file: string, landed: seq<LogEntry>, e: LogEntry, rest: string)
    requires Load(file + (Marshal(e) + rest)) == After(landed, Load(Marshal(e) + rest))
    ensures Load((file + Marshal(e)) + rest) == After(landed + [e], Load(rest))
  {
    Regroup(file, Marshal(e), rest);
    DecodeOfMarshal(e, rest);
    AfterAfter(landed, [e], Load(rest));
  }

  lemma {:induction false} NewlineIsPassed(file: string, rest: string)
    ensures (file + ['\n']) + rest == file + (['\n'] + rest)
    ensures Load(['\n'] + rest) == Load(rest)
  {
    Regroup(file, ['\n'], rest);
    DecodePastNewline(rest);
  }

  lemma {:induction false} RunIsReadThenRest(appends: seq<Append>, rest: string)
    requires Run(appends).Some?
    ensures Load(Run(appends).value.file + rest) == After(Run(appends).value.landed, Load(rest))
  {
    if appends == [] {
      assert [] + rest == rest;
      AfterNothing([], Load(rest));
    } else {
      var before, last := appends[..|appends| - 1], appends[|appends| - 1];
      var s := Run(before).value;
      match last {
        case Object(conn, e) =>
          RunIsReadThenRest(before, Marshal(e) + rest);
          ObjectIsRead(s.file, s.landed, e, rest);
        case Newline(conn) =>
          RunIsReadThenRest(before, ['\n'] + rest);
          NewlineIsPassed(s.file, rest);
      }
    }
  }

  /** The appends of whole entries, one after the other. */
  function Written(entries: seq<LogEntry>): string {
    if entries == [] then [] else Written(entries[..|entries| - 1]) + (Marshal(entries[|entries| - 1]) + ['\n'])
  }

  /** An object holds no newline and nothing that HTML gives a meaning, whatever the entry says. */
  lemma {:induction false} MembersAreSafe(ms: seq<Member>)
    requires ms != []
    ensures AllSafe(MembersText(ms))
  {
    MemberIsSafe(ms[0]);
    var more := if |ms| == 1 then ['}'] else [','] + MembersText(ms[1..]);
    if |ms| > 1 {
      MembersAreSafe(ms[1..]);
      BothSafe([','], MembersText(ms[1..]));
    }
    BothSafe(MemberText(ms[0]), more);
  }

  lemma MemberIsSafe(m: Member)
    ensures AllSafe(MemberText(m))
  {
    QuotedIsSafe(m.0);
    QuotedIsSafe(m.1);
    BothSafe([':'], Quoted(m.1));
    BothSafe(Quoted(m.0), [':'] + Quoted(m.1));
  }

  lemma QuotedIsSafe(s: string)
    ensures AllSafe(Quoted(s))
  {
    EscapeIsSafe(s);
    BothSafe(['"'], Escape(s));
    BothSafe(['"'] + Escape(s), ['"']);
  }

  lemma BothSafe(a: string, b: string)
    requires AllSafe(a) && AllSafe(b)
    ensures AllSafe(a + b)
  {}

  lemma {:induction false} MarshalHasNoNewline(e: LogEntry)
    ensures AllSafe(Marshal(e)) && multiset(Marshal(e))['\n'] == 0
  {
    MembersAreSafe(Members(e));
    BothSafe(['{'], MembersText(Members(e)));
    assert '\n' !in Marshal(e);
  }

  /**
   However the appends interleave, there is one newline for each entry, except for the entries whose
   connection is between its two appends.
   */
  lemma {:induction false} OneNewlinePerEntry(appends: seq<Append>)
    requires Run(appends).Some?
    ensures var s := Run(appends).value; multiset(s.file)['\n'] + |s.pending| == |s.landed|
  {
    if appends != [] {
      OneNewlinePerEntry(appends[..|appends| - 1]);
      if appends[|appends| - 1].Object? {
        MarshalHasNoNewline(appends[|appends| - 1].entry);
      }
    }
  }

  /** One connection alone: each entry and its newline before the next entry. */
  function OneByOne(entries: seq<LogEntry>): seq<Append> {
    if entries == [] then []
    else OneByOne(entries[..|entries| - 1]) + [Object(0, entries[|entries| - 1]), Newline(0)]
  }

  /** Then the file is what the handler of that connection writes. */
  lemma {:induction false} OneByOneIsWritten(entries: seq<LogEntry>)
    ensures Run(OneByOne(entries)) == Some(State(Written(entries), {}, entries))
  {
    if entries != [] {
      var most, e := entries[..|entries| - 1], entries[|entries| - 1];
      OneByOneIsWritten(most);
      AppendBoth(OneByOne(most), Written(most), most, e);
      WrittenMore(most, e);
      LastApart(entries);
    }
  }

  lemma {:induction false} AppendBoth(before: seq<Append>, file: string, landed: seq<LogEntry>, e: LogEntry)
    requires Run(before) == Some(State(file, {}, landed))
    ensures Run(before + [Object(0, e), Newline(0)]) == Some(State(file + (Marshal(e) + ['\n']), {}, landed + [e]))
  {
    var nobody: set<nat> := {};
    assert nobody + {0} == {0} && {0} - {0} == nobody;
    RunAppend(before, Object(0, e), State(file + Marshal(e), {0}, landed + [e]));
    Regroup(file, Marshal(e), ['\n']);
    RunAppend(before + [Object(0, e)], Newline(0), State(file + (Marshal(e) + ['\n']), {}, landed + [e]));
    Regroup(before, [Object(0, e)], [Newline(0)]);
    assert [Object(0, e)] + [Newline(0)] == [Object(0, e), Newline(0)];
  }

  lemma {:induction false} RunAppend(appends: seq<Append>, a: Append, t: State)
    requires Run(appends).Some? && Step(Run(appends).value, a) == Some(t)
    ensures Run(appends + [a]) == Some(t)
  {
    assert (appends + [a])[..|appends|] == appends;
  }

  lemma {:induction false} WrittenMore(entries: seq<LogEntry>, e: LogEntry)
    ensures Written(entries + [e]) == Written(entries) + (Marshal(e) + ['\n'])
  {
    assert (entries + [e])[..|entries|] == entries;
  }

  /** Entries written one after the other are read back in their order, whatever follows them. */
  lemma {:induction false} WrittenIsRead(entries: seq<LogEntry>, rest: string)
    ensures Load(Written(entries) + rest) == After(entries, Load(rest))
  {
    if entries == [] {
      assert [] + rest == rest;
      AfterNothing([], Load(rest));
    } else {
      var most, e := entries[..|entries| - 1], entries[|entries| - 1];
      LastApart(entries);
      WrittenIsRead(most, Marshal(e) + (['\n'] + rest));
      WrittenStep(most, e, rest);
    }
  }

  lemma {:induction false} WrittenStep(most: seq<LogEntry>, e: LogEntry, rest: string)
    requires Load(Written(most) + (Marshal(e) + (['\n'] + rest))) == After(most, Load(Marshal(e) + (['\n'] + rest)))
    ensures Load(Written(most + [e]) + rest) == After(most + [e], Load(rest))
  {
    WrittenMore(most, e);
    EntryIsRead(Written(most), most, e, rest);
  }

  lemma {:induction false} EntryIsRead(file: string, landed: seq<LogEntry>, e: LogEntry, rest: string)
    requires Load(file + (Marshal(e) + (['\n'] + rest))) == After(landed, Load(Marshal(e) + (['\n'] + rest)))
    ensures Load((file + (Marshal(e) + ['\n'])) + rest) == After(landed + [e], Load(rest))
  {
    ObjectIsRead(file, landed, e, ['\n'] + rest);
    DecodePastNewline(rest);
    Regroup(file, Marshal(e), ['\n'] + rest);
    Regroup(Marshal(e), ['\n'], rest);
    Regroup(file, Marshal(e) + ['\n'], rest);
  }

  /** Whatever the interleaving, every entry is read exactly once, in the order the objects landed. */
  lemma {:induction false} EveryEntryIsRead(appends: seq<Append>)
    requires Run(appends).Some?
    ensures Load(Run(appends).value.file) == Some(Run(appends).value.landed)
  {
    var s := Run(appends).value;
    RunIsReadThenRest(appends, []);
    assert s.file + [] == s.file && s.landed + [] == s.landed;
  }

  lemma TornEntry(e: LogEntry, n: nat)
    requires n <= |Marshal(e)|
    ensures Load(Marshal(e)[..n]) == if n == 0 then Some([]) else if n < |Marshal(e)| then None else Some([e])
  {
    if n == |Marshal(e)| {
      assert Marshal(e)[..n] == Marshal(e) + [];
      DecodeOfMarshal(e, []);
      assert Load([]) == Some([]) && [e] + [] == [e];
    } else if n > 0 {
      BeginningIsNoObject(Members(e), n);
      assert Marshal(e)[..n][0] == '{';
    }
  }

  /**
   An object of which only n characters reached the file makes the whole archive unreadable, unless
   that is all or none.
   */
  lemma {:induction false} TornArchiveIsReadIff(appends: seq<Append>, e: LogEntry, n: nat)
    requires Run(appends).Some? && n <= |Marshal(e)|
    ensures Load(Run(appends).value.file + Marshal(e)[..n]).Some? <==> n == 0 || n == |Marshal(e)|
  {
    RunIsReadThenRest(appends, Marshal(e)[..n]);
    TornEntry(e, n);
  }
}
