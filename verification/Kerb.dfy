/** Zero-terminated wide strings, and the domain\user names that the provider splits and joins. */
module Names {
  /** A wide character of a zero-terminated string. */
  type wchar = x: int | 1 <= x < 0x1_0000 witness 1

  type Wide = seq<wchar>

  const BACKSLASH: wchar := 92

  datatype Hresult = S_OK | E_INVALIDARG | E_OVERFLOW | E_FAIL | E_OUTOFMEMORY | E_UNEXPECTED | E_INSUFFICIENT_BUFFER
      | OsError(code: nat)

  datatype Result<+T> = Ok(value: T) | Error(hr: Hresult)

  predicate HasBackslash(s: Wide) {
    exists k :: 0 <= k < |s| && s[k] == BACKSLASH
  }

  /** DomainUsernameStringAlloc; allocOk tells whether HeapAlloc succeeds. */
  method DomainUsernameStringAlloc(domain: Wide, username: Wide, allocOk: bool) returns (r: Result<Wide>)
    ensures r.Ok? <==> allocOk
    ensures r.Error? ==> r.hr == E_OUTOFMEMORY
    ensures r.Ok? ==> |r.value| == |domain| + 1 + |username| && domain <= r.value && r.value[|domain| + 1..] == username
    ensures r.Ok? ==> (IsSplit(r.value, domain, username) <==> !HasBackslash(domain))
    ensures r.Ok? ==> r.value[|domain|] as int == 92
  {
    if !allocOk {
      return Error(E_OUTOFMEMORY);
    }
    return Ok(domain + [BACKSLASH] + username);
  }

  /** wcschr for a backslash. */
  method FindBackslash(s: Wide) returns (at: nat)
    ensures at <= |s| && (forall k :: 0 <= k < at ==> s[k] != BACKSLASH) && (at < |s| ==> s[at] == BACKSLASH)
  {
    at := 0;
    while at < |s| && s[at] != BACKSLASH
      invariant at <= |s| && forall k :: 0 <= k < at ==> s[k] != BACKSLASH
    {
      at := at + 1;
    }
  }

  /** The parts of a name around its first backslash. */
  ghost predicate IsSplit(name: Wide, domain: Wide, username: Wide) {
    name == domain + [BACKSLASH] + username && !HasBackslash(domain)
  }

  /** The flags tell whether the two allocations succeed. */
  method SplitDomainAndUsername(name: Wide, domainAllocOk: bool, usernameAllocOk: bool)
      returns (r: Result<(Wide, Wide)>)
    ensures r.Ok? ==> IsSplit(name, r.value.0, r.value.1)
    ensures r.Error? ==> r.hr == if !HasBackslash(name) then E_UNEXPECTED else E_OUTOFMEMORY
    ensures r.Ok? <==> HasBackslash(name) && domainAllocOk && usernameAllocOk
  {
    r := Error(E_UNEXPECTED);
    var whack := FindBackslash(name);
    if whack < |name| {
      if domainAllocOk {
        var domain := name[..whack];
        if usernameAllocOk {
          var username := name[whack + 1..];
          assert name == domain + [BACKSLASH] + username;
          r := Ok((domain, username));
        } else {
          r := Error(E_OUTOFMEMORY);
        }
      } else {
        r := Error(E_OUTOFMEMORY);
      }
    }
  }

  /** There is at most one split, so the join of two parts splits into them iff the domain has no backslash. */
  lemma SplitOfJoinIff(domain: Wide, username: Wide, d: Wide, u: Wide)
    requires IsSplit(domain + [BACKSLASH] + username, d, u)
    ensures (d, u) == (domain, username) <==> !HasBackslash(domain)
  {
    var name := domain + [BACKSLASH] + username;
    assert name == d + [BACKSLASH] + u;
    assert name[|d|] == BACKSLASH && name[|domain|] == BACKSLASH;
    assert forall k :: 0 <= k < |d| ==> d[k] == name[k];
    assert forall k :: 0 <= k < |domain| ==> domain[k] == name[k];
    if !HasBackslash(domain) {
      assert |d| == |domain|;
      assert d == name[..|d|] == name[..|domain|] == domain;
      assert u == name[|d| + 1..] == username;
    }
  }

  lemma SplitExistsIff(name: Wide)
    ensures (exists d, u :: IsSplit(name, d, u)) <==> HasBackslash(name)
  {
    if HasBackslash(name) {
      var n := FirstBackslash(name);
      assert name == name[..n] + [BACKSLASH] + name[n + 1..];
      assert IsSplit(name, name[..n], name[n + 1..]);
    } else {
      forall d, u ensures !IsSplit(name, d, u) {
        assert |d| < |name| ==> name[|d|] != BACKSLASH;
      }
    }
  }

  ghost function FirstBackslash(name: Wide): (n: nat)
    requires HasBackslash(name)
    ensures n < |name| && name[n] == BACKSLASH && !HasBackslash(name[..n])
  {
    if name[0] == BACKSLASH then 0
    else
      assert name[1..] == name[1..] && HasBackslash(name[1..]) by {
        var k :| 0 <= k < |name| && name[k] == BACKSLASH;
        assert name[1..][k - 1] == BACKSLASH;
      }
      var n := 1 + FirstBackslash(name[1..]);
      assert forall k :: 0 < k < n ==> name[k] == name[1..][..n - 1][k - 1];
      n
  }
}

/**
 The packed logon credential: a structure with three counted strings, whose buffers are offsets into
 the one allocation while it travels, and addresses again after it was unpacked in place.
 */
module Kerb {
  import opened Bytes
  import opened Names

  /** The structure on a 64-bit system: message type, three counted strings, logon id. */
  const STRUCT_SIZE := 64

  const TWO_64 := 0x1_0000_0000_0000_0000

  type ushort = x: int | 0 <= x < 0x1_0000

  datatype Scenario = CPUS_LOGON | CPUS_UNLOCK_WORKSTATION | CPUS_CREDUI | CPUS_CHANGE_PASSWORD | CPUS_PLAP
      | CPUS_INVALID

  /** KERB_LOGON_SUBMIT_TYPE; the zero stands for no message type. */
  datatype MessageType = Zero | KerbInteractiveLogon | KerbWorkstationUnlockLogon

  /** A UNICODE_STRING whose buffer refers to a string of the caller. */
  datatype Weak = Weak(length: ushort, maximumLength: ushort, text: Wide)

  datatype UnlockLogon = UnlockLogon(messageType: MessageType, domain: Weak, username: Weak, password: Weak)

  /** SizeTToUShort, then UShortMult by the size of a wide character. None is a null pointer. */
  method UnicodeStringInitWithString(pwz: Option<Wide>) returns (r: Result<Weak>)
    ensures r.Ok? <==> pwz.Some? && |pwz.value| <= 32767
    ensures r.Ok? ==> Holds(r.value, pwz.value)
    ensures r.Error? ==> r.hr == if pwz.None? then E_INVALIDARG else E_OVERFLOW
  {
    if pwz.None? {
      return Error(E_INVALIDARG);
    }
    var count := |pwz.value|;
    if count > 0xFFFF {
      return Error(E_OVERFLOW);
    }
    var size := count * 2;
    if size > 0xFFFF {
      return Error(E_OVERFLOW);
    }
    return Ok(Weak(size, size, pwz.value));
  }

  predicate Holds(w: Weak, text: Wide) {
    w.text == text && w.length == w.maximumLength == 2 * |text|
  }

  method KerbInteractiveUnlockLogonInit(domain: Wide, username: Wide, password: Wide, cpus: Scenario)
    returns (r: Result<UnlockLogon>)
    ensures r.Ok? <==> Fits(domain) && Fits(username) && Fits(password) && HasMessageType(cpus)
    ensures r.Ok? ==> && Holds(r.value.domain, domain) && Holds(r.value.username, username)
                      && Holds(r.value.password, password) && r.value.messageType == MessageFor(cpus)
    ensures r.Error? ==> r.hr == if Fits(domain) && Fits(username) && Fits(password) then E_FAIL else E_OVERFLOW
  {
    var d := UnicodeStringInitWithString(Some(domain));
    if d.Error? {
      return Error(d.hr);
    }
    var u := UnicodeStringInitWithString(Some(username));
    if u.Error? {
      return Error(u.hr);
    }
    var p := UnicodeStringInitWithString(Some(password));
    if p.Error? {
      return Error(p.hr);
    }
    var messageType: MessageType;
    match cpus {
      case CPUS_UNLOCK_WORKSTATION => messageType := KerbWorkstationUnlockLogon;
      case CPUS_LOGON => messageType := KerbInteractiveLogon;
      case CPUS_CREDUI => messageType := Zero;
      case _ => return Error(E_FAIL);
    }
    return Ok(UnlockLogon(messageType, d.value, u.value, p.value));
  }

  predicate Fits(text: Wide) {
    |text| <= 32767
  }

  predicate HasMessageType(cpus: Scenario) {
    cpus in {CPUS_LOGON, CPUS_UNLOCK_WORKSTATION, CPUS_CREDUI}
  }

  function MessageFor(cpus: Scenario): MessageType {
    match cpus
    case CPUS_UNLOCK_WORKSTATION => KerbWorkstationUnlockLogon
    case CPUS_LOGON => KerbInteractiveLogon
    case _ => Zero
  }

  /** A UNICODE_STRING of a packed or unpacked structure: its buffer is a 64-bit word. */
  datatype UnicodeString = UnicodeString(length: ushort, maximumLength: ushort, buffer: nat)

  /** One allocation: its address, the structure at its start, and the bytes behind the structure. */
  datatype View = View(address: nat, messageType: MessageType, logonId: nat,
                       domain: UnicodeString, username: UnicodeString, password: UnicodeString, extra: seq<byte>)

  function Low(c: int): byte
    requires 0 <= c < 0x1_0000
  {
    c % 0x100
  }

  function High(c: int): byte
    requires 0 <= c < 0x1_0000
  {
    c / 0x100
  }

  function Char(low: int, high: int): ushort
    requires 0 <= low < 0x100 && 0 <= high < 0x100
  {
    high * 0x100 + low
  }

  lemma CharOfBytes(c: int)
    requires 0 <= c < 0x1_0000
    ensures Char(Low(c), High(c)) == c
  {}

  /** Little-endian wide characters, as they lie in memory. */
  function WideBytes(text: Wide): (b: seq<byte>)
    ensures |b| == 2 * |text|
  {
    if text == [] then []
    else
      var last := text[|text| - 1];
      WideBytes(text[..|text| - 1]) + [Low(last), High(last)]
  }

  lemma WideBytesMore(text: Wide, i: nat)
    requires i < |text|
    ensures WideBytes(text[..i + 1]) == WideBytes(text[..i]) + [Low(text[i]), High(text[i])]
  {
    assert text[..i + 1][..i] == text[..i];
  }

  /** Each character is two bytes, the low one first. */
  lemma {:induction false} WideBytesAt(text: Wide, i: nat)
    requires i < |text|
    ensures WideBytes(text)[2 * i] as int == text[i] as int % 256
    ensures WideBytes(text)[2 * i + 1] as int == text[i] as int / 256
  {
    if i < |text| - 1 {
      WideBytesAt(text[..|text| - 1], i);
    }
  }

  /** The n wide characters that these bytes stand for. */
  function WideOf(b: seq<byte>, n: nat): (w: seq<ushort>)
    requires |b| == 2 * n
    ensures |w| == n
  {
    if n == 0 then [] else WideOf(b[..2 * n - 2], n - 1) + [Char(b[2 * n - 2], b[2 * n - 1])]
  }

  lemma WideOfMore(b: seq<byte>, n: nat, low: byte, high: byte, c: ushort)
    requires |b| == 2 * n && Char(low, high) == c
    ensures WideOf(b + [low, high], n + 1) == WideOf(b, n) + [c]
  {
    assert (b + [low, high])[..2 * n] == b;
  }

  lemma {:induction false} WideOfBytes(text: Wide)
    ensures WideOf(WideBytes(text), |text|) == text
  {
    if text != [] {
      var most, last := text[..|text| - 1], text[|text| - 1];
      WideOfBytes(most);
      CharOfBytes(last);
      WideOfMore(WideBytes(most), |most|, Low(last), High(last), last);
      assert text == most + [last];
    }
  }

  lemma PairWritten<T>(was: seq<T>, now: seq<T>, before: seq<T>, at: nat, done: seq<T>, low: T,
      high: T)
    requires at + |done| + 2 <= |before|
    requires was == before[..at] + done + before[at + |done|..]
    requires now == was[at + |done| := low][at + |done| + 1 := high]
    ensures now == before[..at] + (done + [low, high]) + before[at + |done| + 2..]
  {}

  class Blob {
    const address: nat
    var messageType: MessageType
    var logonId: nat
    var domain: UnicodeString
    var username: UnicodeString
    var password: UnicodeString
    const extra: array<byte>

    /** CoTaskMemAlloc: nothing is initialised. */
    constructor (address: nat, size: nat)
      requires size >= STRUCT_SIZE
      ensures this.address == address && extra.Length == size - STRUCT_SIZE && fresh(extra)
    {
      this.address := address;
      messageType, logonId := *, *;
      domain, username, password := *, *, *;
      extra := new byte[size - STRUCT_SIZE];
    }

    ghost function AsView(): View
      reads this, extra
    {
      View(address, messageType, logonId, domain, username, password, extra[..])
    }

    method PutChar(at: nat, c: wchar)
      requires at + 2 <= extra.Length
      modifies extra
      ensures extra[..] == old(extra[..])[at := Low(c)][at + 1 := High(c)]
    {
      extra[at], extra[at + 1] := Low(c), High(c);
    }

    /** CopyMemory to the bytes behind the structure, of as many bytes as the string counts. */
    method CopyText(w: Weak, at: nat)
      requires w.length == 2 * |w.text| && at + w.length <= extra.Length
      modifies extra
      ensures extra[..] == old(extra[..])[..at] + WideBytes(w.text) + old(extra[..])[at + w.length..]
    {
      var i := 0;
      ghost var before := extra[..];
      while i < |w.text|
        invariant i <= |w.text|
        invariant extra[..] == before[..at] + WideBytes(w.text[..i]) + before[at + 2 * i..]
      {
        ghost var was := extra[..];
        PutChar(at + 2 * i, w.text[i]);
        PairWritten(was, extra[..], before, at, WideBytes(w.text[..i]), Low(w.text[i]), High(w.text[i]));
        WideBytesMore(w.text, i);
        i := i + 1;
      }
      assert w.text[..|w.text|] == w.text;
    }

    method KerbInteractiveUnlockLogonUnpackInPlace(cb: nat)
      modifies this
      ensures AsView() == Unpacked(old(AsView()), cb)
    {
      if STRUCT_SIZE <= cb {
        if (domain.buffer + domain.maximumLength) % TWO_64 <= cb
           && (username.buffer + username.maximumLength) % TWO_64 <= cb
           && (password.buffer + password.maximumLength) % TWO_64 <= cb {
          domain := domain.(buffer := if domain.buffer != 0 then (address + domain.buffer) % TWO_64 else 0);
          username := username.(buffer := if username.buffer != 0 then (address + username.buffer) % TWO_64 else 0);
          password := password.(buffer := if password.buffer != 0 then (address + password.buffer) % TWO_64 else 0);
        }
      }
    }
  }

  lemma EndToEnd<T>(e0: seq<T>, e1: seq<T>, e2: seq<T>, e3: seq<T>, a: seq<T>, b: seq<T>, c: seq<T>)
    requires |e0| == |a| + |b| + |c|
    requires e1 == e0[..0] + a + e0[|a|..]
    requires e2 == e1[..|a|] + b + e1[|a| + |b|..]
    requires e3 == e2[..|a| + |b|] + c + e2[|a| + |b| + |c|..]
    ensures e3 == a + b + c
  {
    assert e2[..|a| + |b|] == a + b;
  }

  /** address is where the allocation lands, None when it fails. */
  method KerbInteractiveUnlockLogonPack(logon: UnlockLogon, address: Option<nat>) returns (r: Result<(Blob, nat)>)
    requires Packable(logon, logon.domain.text, logon.username.text, logon.password.text)
    ensures r.Ok? <==> address.Some?
    ensures r.Error? ==> r.hr == E_OUTOFMEMORY
    ensures r.Ok? ==> fresh(r.value.0) && fresh(r.value.0.extra)
    ensures r.Ok? ==> && r.value.1 == TotalSize(logon) < TWO_32
                      && r.value.0.AsView() == Packed(logon, address.value)
  {
    var cb := STRUCT_SIZE + logon.domain.length + logon.username.length + logon.password.length;
    if address.None? {
      return Error(E_OUTOFMEMORY);
    }
    var out := new Blob(address.value, cb);
    out.logonId := 0;
    out.messageType := logon.messageType;
    CopyTexts(out, logon);
    return Ok((out, cb));
  }

  /** Copies each string, makes its buffer an offset, and moves on over the copied bytes. */
  method CopyTexts(out: Blob, logon: UnlockLogon)
    requires Packable(logon, logon.domain.text, logon.username.text, logon.password.text)
    requires out.extra.Length == TotalSize(logon) - STRUCT_SIZE
    modifies out`domain, out`username, out`password, out.extra
    ensures var v := Packed(logon, out.address);
            && out.domain == v.domain && out.username == v.username && out.password == v.password
              && out.extra[..] == v.extra
  {
    ghost var e0 := out.extra[..];
    var pb := STRUCT_SIZE;
    out.CopyText(logon.domain, pb - STRUCT_SIZE);
    ghost var e1 := out.extra[..];
    out.domain := UnicodeString(logon.domain.length, logon.domain.length, pb);
    pb := pb + out.domain.length;

    out.CopyText(logon.username, pb - STRUCT_SIZE);
    ghost var e2 := out.extra[..];
    out.username := UnicodeString(logon.username.length, logon.username.length, pb);
    pb := pb + out.username.length;

    out.CopyText(logon.password, pb - STRUCT_SIZE);
    out.password := UnicodeString(logon.password.length, logon.password.length, pb);
    EndToEnd(e0, e1, e2, out.extra[..], WideBytes(logon.domain.text), WideBytes(logon.username.text),
      WideBytes(logon.password.text));
  }

  predicate Packable(logon: UnlockLogon, domain: Wide, username: Wide, password: Wide) {
    Holds(logon.domain, domain) && Holds(logon.username, username) && Holds(logon.password, password)
  }

  function TotalSize(logon: UnlockLogon): nat {
    STRUCT_SIZE + logon.domain.length + logon.username.length + logon.password.length
  }

  function Packed(logon: UnlockLogon, address: nat): View {
    var d, u, p := logon.domain.length, logon.username.length, logon.password.length;
    View(address, logon.messageType, 0,
         UnicodeString(d, d, STRUCT_SIZE), UnicodeString(u, u, STRUCT_SIZE + d),
           UnicodeString(p, p, STRUCT_SIZE + d + u),
         WideBytes(logon.domain.text) + WideBytes(logon.username.text) + WideBytes(logon.password.text))
  }

  predicate InRange(s: UnicodeString, cb: nat) {
    (s.buffer + s.maximumLength) % TWO_64 <= cb
  }

  function Rebased(s: UnicodeString, address: nat): UnicodeString {
    if s.buffer == 0 then s else s.(buffer := (address + s.buffer) % TWO_64)
  }

  function Unpacked(v: View, cb: nat): View {
    if cb < STRUCT_SIZE || !InRange(v.domain, cb) || !InRange(v.username, cb) || !InRange(v.password, cb) then v
    else v.(domain := Rebased(v.domain, v.address), username := Rebased(v.username, v.address),
            password := Rebased(v.password, v.address))
  }

  /** The text that an unpacked string refers to, if its buffer points behind the structure. */
  ghost function TextAt(v: View, s: UnicodeString): Option<seq<ushort>> {
    TextIn(v.extra, s.buffer - v.address - STRUCT_SIZE, s.length)
  }

  function TextIn(extra: seq<byte>, from: int, length: nat): Option<seq<ushort>> {
    var n := length / 2;
    if 0 <= from && from + length <= |extra| && length == 2 * n
    then Some(WideOf(extra[from..from + length], n)) else None
  }

  /** Where the bytes of a string end, counted like its buffer. */
  function Stop(s: UnicodeString): nat {
    s.buffer + s.length
  }

  /** The three strings lie end to end from the structure to the end, and the unpacker accepts them. */
  lemma PackTiles(logon: UnlockLogon, d: Wide, u: Wide, p: Wide, address: nat)
    requires Packable(logon, d, u, p)
    ensures var v, cb := Packed(logon, address), TotalSize(logon);
            && cb < TWO_32 && |v.extra| == cb - 64 && cb == 64 + 2 * (|d| + |u| + |p|)
            && v.domain.buffer == 64 && Stop(v.domain) == v.username.buffer
            && Stop(v.username) == v.password.buffer && Stop(v.password) == cb
            && InRange(v.domain, cb) && InRange(v.username, cb) && InRange(v.password, cb)
  {}

  lemma RebasedIs(s: UnicodeString, address: nat)
    requires 0 < s.buffer && address + s.buffer < TWO_64
    ensures Rebased(s, address) == s.(buffer := address + s.buffer)
  {}

  /** Wherever the allocation lies, unpacking turns the three offsets into addresses. */
  lemma UnpackMovesBuffers(logon: UnlockLogon, d: Wide, u: Wide, p: Wide, address: nat)
    requires Packable(logon, d, u, p) && address + TotalSize(logon) < TWO_64
    ensures var v, w := Packed(logon, address), Unpacked(Packed(logon, address), TotalSize(logon));
            && w.domain == v.domain.(buffer := address + v.domain.buffer)
            && w.username == v.username.(buffer := address + v.username.buffer)
            && w.password == v.password.(buffer := address + v.password.buffer)
            && w == v.(domain := w.domain, username := w.username, password := w.password)
  {
    var v := Packed(logon, address);
    PackTiles(logon, d, u, p, address);
    RebasedIs(v.domain, address);
    RebasedIs(v.username, address);
    RebasedIs(v.password, address);
  }

  lemma MiddleSlice<T>(all: seq<T>, before: seq<T>, middle: seq<T>, after: seq<T>)
    requires all == before + middle + after
    ensures |before| + |middle| <= |all| && all[|before|..|before| + |middle|] == middle
  {}

  lemma {:induction false} TextInIs(extra: seq<byte>, from: nat, text: Wide)
    requires from + 2 * |text| <= |extra| && extra[from..from + 2 * |text|] == WideBytes(text)
    ensures TextIn(extra, from, 2 * |text|) == Some(text)
  {
    assert 2 * |text| / 2 == |text|;
    WideOfBytes(text);
  }

  lemma {:induction false} TextAtIs(v: View, s: UnicodeString, before: seq<byte>, text: Wide, after: seq<byte>)
    requires s.buffer == v.address + STRUCT_SIZE + |before| && s.length == 2 * |text|
    requires v.extra == before + WideBytes(text) + after
    ensures TextAt(v, s) == Some(text)
  {
    MiddleSlice(v.extra, before, WideBytes(text), after);
    TextInIs(v.extra, |before|, text);
  }

  lemma {:induction false} TextsInRow(v: View, d: Wide, u: Wide, p: Wide)
    requires v.domain.length == 2 * |d| && v.username.length == 2 * |u| && v.password.length == 2 * |p|
    requires v.domain.buffer == v.address + STRUCT_SIZE
    requires v.username.buffer == v.domain.buffer + v.domain.length
    requires v.password.buffer == v.username.buffer + v.username.length
    requires v.extra == WideBytes(d) + WideBytes(u) + WideBytes(p)
    ensures TextAt(v, v.domain) == Some(d) && TextAt(v, v.username) == Some(u) && TextAt(v, v.password) == Some(p)
  {
    var a, b, c := WideBytes(d), WideBytes(u), WideBytes(p);
    assert a + b + c == [] + a + (b + c) && a + b + c == (a + b) + c + [];
    TextAtIs(v, v.domain, [], d, b + c);
    TextAtIs(v, v.username, a, u, c);
    TextAtIs(v, v.password, a + b, p, []);
  }

  /** Unpacking what was packed gives every part back. */
  lemma UnpackOfPack(logon: UnlockLogon, d: Wide, u: Wide, p: Wide, address: nat)
    requires Packable(logon, d, u, p) && address + TotalSize(logon) < 0x1_0000_0000_0000_0000
    ensures var v := Unpacked(Packed(logon, address), TotalSize(logon));
            && v.messageType == logon.messageType && v.logonId == 0
            && TextAt(v, v.domain) == Some(d) && TextAt(v, v.username) == Some(u) && TextAt(v, v.password) == Some(p)
  {
    var v := Unpacked(Packed(logon, address), TotalSize(logon));
    UnpackMovesBuffers(logon, d, u, p, address);
    TextsInRow(v, d, u, p);
  }

  /** Unpacking twice is unpacking once: the addresses are beyond any offset, or the base is zero. */
  lemma UnpackAgain(logon: UnlockLogon, d: Wide, u: Wide, p: Wide, address: nat)
    requires Packable(logon, d, u, p) && address + TotalSize(logon) < TWO_64
    ensures var v := Unpacked(Packed(logon, address), TotalSize(logon)); Unpacked(v, TotalSize(logon)) == v
  {
    var v := Unpacked(Packed(logon, address), TotalSize(logon));
    UnpackMovesBuffers(logon, d, u, p, address);
    assert v.password.buffer + v.password.maximumLength == address + TotalSize(logon);
    assert InRange(v.password, TotalSize(logon)) ==> address == 0;
    if address == 0 {
      RebasedIs(v.domain, 0);
      RebasedIs(v.username, 0);
      RebasedIs(v.password, 0);
    }
  }
}
