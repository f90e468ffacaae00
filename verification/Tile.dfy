/** The logon tile: its editable fields, and the credential it serializes from what was typed. */
module Tile {
  import opened Bytes
  import opened Names
  import opened Kerb

  const SFI_PASSWORD := 3
  const SFI_EDIT_TEXT := 11
  const SFI_NUM_FIELDS := 13

  datatype FieldType = TileImage | SmallText | LargeText | PasswordText | SubmitButton | CommandLink | CheckBox
      | EditText | ComboBox

  const FIELD_TYPES: seq<FieldType> :=
    [TileImage, SmallText, LargeText, PasswordText, SubmitButton, CommandLink, CommandLink,
     SmallText, SmallText, SmallText, CheckBox, EditText, ComboBox]

  const OTP_LENGTH := 6

  /** szSystemPassword with its terminator. */
  const PASSWORD_BUFFER := 256

  datatype Status = PasswordTooShort | CannotConnect | IncorrectSecret

  datatype Response = NoCredentialNotFinished | NoCredentialFinished | ReturnCredentialFinished

  /** An address that a user-mode allocation can have. */
  type Address = x: nat | x < 0x8000_0000_0000

  datatype Credential =
    | NoCredential
    | Local(blob: Blob, cb: nat, authPackage: Option<nat>)
    | Remote(bytes: seq<byte>, authPackage: Option<nat>)

  datatype Serialization = Serialization(hr: Hresult, response: Response, status: Option<Status>,
      credential: Credential)

  /** What the calls into the system do this time; a false flag is a failed allocation. */
  datatype Os = Os(
    statusDupOk: bool,
    secret: Option<Wide>,
    passwordDupOk: bool,
    isProtected: Wide -> bool,
    protect: Wide -> Result<Wide>,
    domainAllocOk: bool,
    usernameAllocOk: bool,
    address: Option<Address>,
    authPackage: Result<nat>,
    packRemote: (Wide, Wide) -> Serialization)

  /** Passwords are encrypted unless they are empty, encrypted already, or for CredUI. */
  function ProtectIfNecessaryAndCopyPassword(os: Os, password: Wide, cpus: Scenario): Result<Wide> {
    if !os.passwordDupOk then Error(E_OUTOFMEMORY)
    else if password == [] || cpus == CPUS_CREDUI || os.isProtected(password) then Ok(password)
    else os.protect(password)
  }

  class CSampleCredential {
    const fieldStrings: array<Option<Wide>>
    const cpus: Scenario
    const isLocalUser: bool
    const qualifiedUserName: Wide

    predicate Valid() {
      fieldStrings.Length == SFI_NUM_FIELDS
    }

    /** After Initialize: the labels, and an empty password. */
    constructor (cpus: Scenario, isLocalUser: bool, qualifiedUserName: Wide, labels: int -> Option<Wide>)
      ensures Valid() && fresh(fieldStrings) && fieldStrings[SFI_PASSWORD] == Some([])
      ensures this.cpus == cpus && this.isLocalUser == isLocalUser && this.qualifiedUserName == qualifiedUserName
    {
      this.cpus, this.isLocalUser, this.qualifiedUserName := cpus, isLocalUser, qualifiedUserName;
      fieldStrings := new Option<Wide>[SFI_NUM_FIELDS](i => if i == SFI_PASSWORD then Some([]) else labels(i));
    }

    /** The old string is freed first, so a failed copy leaves the field without one. */
    method SetStringValue(fieldID: nat, value: Wide, dupOk: bool) returns (hr: Hresult)
      requires Valid()
      modifies fieldStrings
      ensures fieldID !in {SFI_PASSWORD, SFI_EDIT_TEXT} ==>
          hr == E_INVALIDARG && fieldStrings[..] == old(fieldStrings[..])
      ensures fieldID in {SFI_PASSWORD, SFI_EDIT_TEXT} ==>
                && hr == (if dupOk then S_OK else E_OUTOFMEMORY)
                && fieldStrings[..] == old(fieldStrings[..])[fieldID := if dupOk then Some(value) else None]
    {
      if fieldID < |FIELD_TYPES| && (FIELD_TYPES[fieldID] == EditText || FIELD_TYPES[fieldID] == PasswordText) {
        fieldStrings[fieldID] := None;
        if dupOk {
          fieldStrings[fieldID] := Some(value);
          return S_OK;
        }
        return E_OUTOFMEMORY;
      }
      return E_INVALIDARG;
    }

    /** Clears the password; a field without a string is left alone. */
    method SetDeselected(dupOk: bool) returns (hr: Hresult)
      requires Valid()
      modifies fieldStrings
      ensures fieldStrings[..] == old(fieldStrings[..])[SFI_PASSWORD :=
                if old(fieldStrings[SFI_PASSWORD]).Some? && dupOk then Some([]) else None]
      ensures hr == if old(fieldStrings[SFI_PASSWORD]).Some? && !dupOk then E_OUTOFMEMORY else S_OK
    {
      hr := S_OK;
      if fieldStrings[SFI_PASSWORD].Some? {
        fieldStrings[SFI_PASSWORD] := None;
        if dupOk {
          fieldStrings[SFI_PASSWORD] := Some([]);
        } else {
          hr := E_OUTOFMEMORY;
        }
      }
    }

    /** Copies of the status texts can fail, and then the response stays unfinished. */
    method Refuse(os: Os, status: Status) returns (s: Serialization)
      ensures s == Refused(os, status)
    {
      s := Serialization(S_OK, NoCredentialNotFinished, None, NoCredential);
      if os.statusDupOk {
        s := s.(status := Some(status), response := NoCredentialFinished);
      }
    }

    method GetSerialization(os: Os) returns (s: Serialization)
      requires Valid()
      ensures var typed := fieldStrings[SFI_PASSWORD];
              && (Refusal(typed, os).Some? ==> s == Refused(os, Refusal(typed, os).value))
              && (Refusal(typed, os).None? && !PasswordFits(typed) ==>
                    s == Serialization(E_INSUFFICIENT_BUFFER, NoCredentialNotFinished, None, NoCredential))
              && (Accepts(typed, os) && !isLocalUser ==>
                s == os.packRemote(qualifiedUserName, typed.value[OTP_LENGTH..]))
              && (Accepts(typed, os) && isLocalUser ==>
                    && (s.response == ReturnCredentialFinished <==>
                      CanPack(os, cpus, qualifiedUserName, typed.value[OTP_LENGTH..]))
                    && (s.response == ReturnCredentialFinished <==> s.hr == S_OK)
                    && (s.response == ReturnCredentialFinished ==>
                          IsCredential(s.credential, os, cpus, qualifiedUserName, typed.value[OTP_LENGTH..])))
      ensures isLocalUser && s.response == ReturnCredentialFinished ==>
                && fieldStrings[SFI_PASSWORD].Some? && |fieldStrings[SFI_PASSWORD].value| > 6
                && CarriesPassword(s.credential, os, cpus, fieldStrings[SFI_PASSWORD].value[6..])
                && CarriesType(s.credential, cpus)
    {
      s := Serialization(S_OK, NoCredentialNotFinished, None, NoCredential);
      var typed := fieldStrings[SFI_PASSWORD];
      if typed.None? || |typed.value| < 7 {
        s := Refuse(os, PasswordTooShort);
        return;
      }
      if os.secret.None? {
        s := Refuse(os, CannotConnect);
        return;
      }
      var userSecret := typed.value[..OTP_LENGTH];
      if userSecret != os.secret.value {
        s := Refuse(os, IncorrectSecret);
        return;
      }
      var systemPassword := typed.value[OTP_LENGTH..];
      if |systemPassword| >= PASSWORD_BUFFER {
        return s.(hr := E_INSUFFICIENT_BUFFER);
      }
      if isLocalUser {
        s := SerializeLocal(os, systemPassword);
      } else {
        s := os.packRemote(qualifiedUserName, systemPassword);
      }
    }

    /** The path of a local user. */
    method SerializeLocal(os: Os, password: Wide) returns (s: Serialization)
      ensures s.response == ReturnCredentialFinished <==> CanPack(os, cpus, qualifiedUserName, password)
      ensures s.response == ReturnCredentialFinished <==> s.hr == S_OK
      ensures s.response == ReturnCredentialFinished ==>
          IsCredential(s.credential, os, cpus, qualifiedUserName, password)
      ensures s.response == ReturnCredentialFinished ==>
                CarriesPassword(s.credential, os, cpus, password) && CarriesType(s.credential, cpus)
      ensures !os.passwordDupOk ==> s.hr == E_OUTOFMEMORY
      ensures (&& os.passwordDupOk && password != [] && cpus != CPUS_CREDUI && !os.isProtected(password)
               && os.protect(password).Error? && os.protect(password).hr != S_OK)
              ==> s.hr == os.protect(password).hr
      ensures (&& os.authPackage.Error? && os.authPackage.hr != S_OK
               && CanPack(os.(authPackage := Ok(0)), cpus, qualifiedUserName, password))
              ==> s.hr == os.authPackage.hr
    {
      s := Serialization(S_OK, NoCredentialNotFinished, None, NoCredential);
      var protectedPassword := ProtectIfNecessaryAndCopyPassword(os, password, cpus);
      if protectedPassword.Error? {
        return s.(hr := Failure(protectedPassword.hr));
      }
      var split := SplitDomainAndUsername(qualifiedUserName, os.domainAllocOk, os.usernameAllocOk);
      if split.Error? {
        return s.(hr := split.hr);
      }
      var (domain, username) := split.value;
      SplitIsFirst(qualifiedUserName, domain, username);
      var logon := KerbInteractiveUnlockLogonInit(domain, username, protectedPassword.value, cpus);
      if logon.Error? {
        return s.(hr := logon.hr);
      }
      var packed := KerbInteractiveUnlockLogonPack(logon.value, os.address);
      if packed.Error? {
        return s.(hr := packed.hr);
      }
      UnpackOfPack(logon.value, domain, username, protectedPassword.value, os.address.value);
      s := s.(credential := Local(packed.value.0, packed.value.1, None));
      if os.authPackage.Error? {
        return s.(hr := Failure(os.authPackage.hr));
      }
      return Serialization(S_OK, ReturnCredentialFinished, None,
                           Local(packed.value.0, packed.value.1, Some(os.authPackage.value)));
    }
  }

  /** A failed call of the system does not report success. */
  function Failure(hr: Hresult): (r: Hresult)
    ensures r != S_OK
  {
    if hr == S_OK then E_FAIL else hr
  }

  function Refused(os: Os, status: Status): Serialization {
    if os.statusDupOk then Serialization(S_OK, NoCredentialFinished, Some(status), NoCredential)
    else Serialization(S_OK, NoCredentialNotFinished, None, NoCredential)
  }

  /** Which message turns the typed text down, if any. */
  function Refusal(typed: Option<Wide>, os: Os): Option<Status> {
    if typed.None? || |typed.value| <= OTP_LENGTH then Some(PasswordTooShort)
    else if os.secret.None? then Some(CannotConnect)
    else if typed.value[..OTP_LENGTH] != os.secret.value then Some(IncorrectSecret)
    else None
  }

  predicate PasswordFits(typed: Option<Wide>) {
    typed.Some? && OTP_LENGTH < |typed.value| < OTP_LENGTH + PASSWORD_BUFFER
  }

  predicate Accepts(typed: Option<Wide>, os: Os) {
    Refusal(typed, os).None? && PasswordFits(typed)
  }

  /** What the packing of a local user's credential needs beyond the accepted text. */
  ghost predicate CanPack(os: Os, cpus: Scenario, name: Wide, password: Wide) {
    && ProtectIfNecessaryAndCopyPassword(os, password, cpus).Ok?
    && HasBackslash(name) && os.domainAllocOk && os.usernameAllocOk
    && FirstBackslash(name) <= 32767 && |name| - FirstBackslash(name) - 1 <= 32767
    && |ProtectIfNecessaryAndCopyPassword(os, password, cpus).value| <= 32767
    && HasMessageType(cpus)
    && os.address.Some? && os.authPackage.Ok?
  }

  /** Unpacked where it lies, the blob holds the two parts of the name and the protected password. */
  ghost predicate IsCredential(c: Credential, os: Os, cpus: Scenario, name: Wide, password: Wide)
    requires CanPack(os, cpus, name, password)
    reads if c.Local? then {c.blob, c.blob.extra} else {}
  {
    && c.Local? && c.authPackage == Some(os.authPackage.value)
    && var v, n := Unpacked(c.blob.AsView(), c.cb), FirstBackslash(name);
       && v.messageType == MessageFor(cpus)
       && TextAt(v, v.domain) == Some(name[..n])
       && TextAt(v, v.username) == Some(name[n + 1..])
       && TextAt(v, v.password) == Some(ProtectIfNecessaryAndCopyPassword(os, password, cpus).value)
  }

  /**
   Unpacked where it lies, the blob holds the password that the system encrypted, or the password
   itself if it was empty, encrypted already, or meant for CredUI.
   */
  ghost predicate CarriesPassword(c: Credential, os: Os, cpus: Scenario, password: Wide)
    reads if c.Local? then {c.blob, c.blob.extra} else {}
  {
    && c.Local?
    && var v := Unpacked(c.blob.AsView(), c.cb);
       if password != [] && cpus != CPUS_CREDUI && !os.isProtected(password)
       then os.protect(password).Ok? && TextAt(v, v.password) == Some(os.protect(password).value)
       else TextAt(v, v.password) == Some(password)
  }

  /** Interactive logon for a logon, workstation unlock for an unlock. */
  ghost predicate CarriesType(c: Credential, cpus: Scenario)
    reads if c.Local? then {c.blob, c.blob.extra} else {}
  {
    && c.Local?
    && (cpus == CPUS_LOGON ==> c.blob.messageType == KerbInteractiveLogon)
    && (cpus == CPUS_UNLOCK_WORKSTATION ==> c.blob.messageType == KerbWorkstationUnlockLogon)
    && (cpus == CPUS_CREDUI ==> c.blob.messageType == MessageType.Zero)
    && cpus in {CPUS_LOGON, CPUS_UNLOCK_WORKSTATION, CPUS_CREDUI}
  }

  /** A credential that must be encrypted can be packed exactly if the system encrypts it, and to a text that fits. */
  lemma {:induction false} CanPackIff(os: Os, cpus: Scenario, name: Wide, password: Wide)
    ensures CanPack(os, cpus, name, password) <==>
            && os.passwordDupOk && os.domainAllocOk && os.usernameAllocOk && os.address.Some? && os.authPackage.Ok?
            && cpus in {CPUS_LOGON, CPUS_UNLOCK_WORKSTATION, CPUS_CREDUI}
            && HasBackslash(name) && FirstBackslash(name) <= 32767 && |name| - FirstBackslash(name) - 1 <= 32767
            && (if password != [] && cpus != CPUS_CREDUI && !os.isProtected(password)
                then os.protect(password).Ok? && |os.protect(password).value| <= 32767
                else |password| <= 32767)
  {}

  lemma {:induction false} SplitIsFirst(name: Wide, domain: Wide, username: Wide)
    requires IsSplit(name, domain, username)
    ensures HasBackslash(name)
    ensures domain == name[..FirstBackslash(name)] && username == name[FirstBackslash(name) + 1..]
  {
    assert name[|domain|] == BACKSLASH;
    var n := FirstBackslash(name);
    assert name == name[..n] + [BACKSLASH] + name[n + 1..];
    SplitOfJoinIff(domain, username, name[..n], name[n + 1..]);
  }

  /** The tile takes exactly the secret of six characters followed by a password of 1 to 255. */
  lemma AcceptsIff(typed: Wide, os: Os)
    ensures Accepts(Some(typed), os) <==>
            os.secret.Some? && |os.secret.value| == OTP_LENGTH && os.secret.value <= typed
            && 1 <= |typed| - OTP_LENGTH <= 255
  {
    if os.secret.Some? && |os.secret.value| == OTP_LENGTH && |typed| > OTP_LENGTH {
      assert os.secret.value <= typed <==> typed[..OTP_LENGTH] == os.secret.value;
    }
  }

  /** So an accepted text is the code and the password, and the password alone is passed on. */
  lemma CodeThenPassword(code: Wide, password: Wide, os: Os)
    requires |code| == OTP_LENGTH
    ensures Accepts(Some(code + password), os) <==> os.secret == Some(code) && 1 <= |password| <= 255
    ensures (code + password)[OTP_LENGTH..] == password
  {
    AcceptsIff(code + password, os);
    assert code == (code + password)[..OTP_LENGTH];
    if os.secret.Some? && os.secret.value <= code + password && |os.secret.value| == OTP_LENGTH {
      assert os.secret.value == (code + password)[..OTP_LENGTH];
    }
  }
}
