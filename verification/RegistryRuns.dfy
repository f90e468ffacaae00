/**
 Runs of the registry under concurrent connections, the REST service and the status scan. Drawing an
 id and saving the row are separate steps. So are the two halves of a load, which reads the table and
 later sets the counter; every OTP request and every status scan begins with one. An assignment of a
 user is three steps: the service reads the row, the repository reads it again to compare, and the
 statement writes what differed. Client ids are fresh UUIDs, the clock is monotone, and a status scan
 marks the rows at one instant. A theorem that needs more of a run says so.
 */
module RegistryRuns {
  import opened Bytes
  import opened Decimal
  import opened Clients

  /** A load under way: the counter it will set, and how many draws and saves there were when it read the table. */
  datatype Load = Load(next: nat, stamp: nat)

  /** A user assignment under way: the row to write, and the row it was compared with. */
  datatype Assignment = Assignment(patch: ManagedClient, existing: Option<ManagedClient>)

  /**
   pending: rows drawn and not yet saved. hellos: every hello accepted so far. issued: every client
   id in use so far.
   */
  datatype State = State(
    rows: seq<ManagedClient>, loaded: bool, next: nat, loads: seq<Load>, changes: nat,
    pending: seq<ManagedClient>, assigning: seq<Assignment>,
    hello: map<string, nat>, hellos: set<(string, nat)>, now: nat, scanned: Option<nat>, issued: set<string>)

  datatype Action =
    | ReadTable
    | SetCounter(i: nat)
    | Draw(device: DeviceInfo, uuid: string)
    | Save(i: nat)
    | Delete(clientID: string)
    | ReadRow(r: nat, userName: string)
    | CompareRow(i: nat)
    | WriteRow(i: nat)
    | Hello(agentID: string)
    | Tick(elapsed: nat)
    | Scan

  /** A server starting on any stored table. */
  function Start(rows: seq<ManagedClient>, now: nat): State {
    State(rows, false, 1, [], 0, [], [], map[], {}, now, None, set i | 0 <= i < |rows| :: rows[i].clientID)
  }

  function Drawn(s: State, device: DeviceInfo, uuid: string): ManagedClient {
    ManagedClient(uuid, Padded(s.next, 3), device, "", None, false)
  }

  function Dropped<T>(s: seq<T>, i: nat): (r: seq<T>)
    requires i < |s|
    ensures forall x :: x in r ==> x in s
  {
    s[..i] + s[i + 1..]
  }

  function Step(s: State, a: Action): Option<State> {
    match a
    case ReadTable => Some(s.(loads := s.loads + [Load(NextAfter(s.rows), s.changes)]))
    case SetCounter(i) =>
      if i >= |s.loads| then None
      else Some(s.(next := s.loads[i].next, loaded := true, loads := Dropped(s.loads, i)))
    case Draw(device, uuid) => StepDraw(s, device, uuid)
    case Save(i) => StepSave(s, i)
    case Delete(clientID) => Some(s.(rows := Remove(s.rows, clientID)))
    case ReadRow(r, userName) => StepReadRow(s, r, userName)
    case CompareRow(i) => StepCompareRow(s, i)
    case WriteRow(i) => StepWriteRow(s, i)
    case Hello(agentID) =>
      if agentID == "" || forall i :: 0 <= i < |s.rows| ==> s.rows[i].agentID != agentID then Some(s)
      else Some(s.(hello := s.hello[agentID := s.now], hellos := s.hellos + {(agentID, s.now)}))
    case Tick(elapsed) => Some(s.(now := s.now + elapsed))
    case Scan => Some(s.(rows := ScanRows(s.rows, s.hello, s.now), scanned := Some(s.now)))
  }

  function StepDraw(s: State, device: DeviceInfo, uuid: string): Option<State> {
    if uuid in s.issued then None
    else Some(s.(next := s.next + 1, changes := s.changes + 1,
                 pending := s.pending + [Drawn(s, device, uuid)], issued := s.issued + {uuid}))
  }

  function StepSave(s: State, i: nat): Option<State> {
    if i >= |s.pending| then None
    else Some(s.(rows := InsertOrReplace(s.rows, s.pending[i]), changes := s.changes + 1,
                 pending := Dropped(s.pending, i)))
  }

  /** The service found row r and put the user name into its copy. */
  function StepReadRow(s: State, r: nat, userName: string): Option<State> {
    if r >= |s.rows| || userName == "" then None
    else Some(s.(assigning := s.assigning + [Assignment(s.rows[r].(userName := userName), None)]))
  }

  /** ClientUpdate looks the row up; without one it gives up. */
  function StepCompareRow(s: State, i: nat): Option<State> {
    if i >= |s.assigning| || s.assigning[i].existing.Some? then None
    else
      var patch := s.assigning[i].patch;
      match if patch.clientID == "" then None else FindClient(s.rows, patch.clientID)
      case None => Some(s.(assigning := Dropped(s.assigning, i)))
      case Some(existing) => Some(s.(assigning := s.assigning[i := Assignment(patch, Some(existing))]))
  }

  /** The statement runs; the database refuses it if it would break a unique constraint. */
  function StepWriteRow(s: State, i: nat): Option<State> {
    if i >= |s.assigning| || s.assigning[i].existing.None? then None
    else
      var x := s.assigning[i];
      var written := PatchInto(s.rows, x.existing.value, x.patch);
      Some(s.(rows := if Unique(written) then written else s.rows, assigning := Dropped(s.assigning, i)))
  }

  function Run(s: State, actions: seq<Action>): Option<State> {
    if actions == [] then Some(s)
    else
      match Run(s, actions[..|actions| - 1])
      case None => None
      case Some(t) => Step(t, actions[|actions| - 1])
  }

  /** Every step of the run from s has the property, in the state in which it is taken. */
  ghost predicate Along(s: State, actions: seq<Action>, p: (State, Action) -> bool) {
    actions != [] ==>
      var before := actions[..|actions| - 1];
      Along(s, before, p) && (Run(s, before).Some? ==> p(Run(s, before).value, actions[|actions| - 1]))
  }

  /**
   What keeps registrations apart: an id is drawn only after a first load and with the counter at most
   999, and a load sets the counter only if no row is drawn and not saved, and no id was drawn and no
   row saved since the load read the table.
   */
  predicate Orderly(s: State, a: Action) {
    match a
    case SetCounter(i) => s.pending == [] && (i < |s.loads| ==> s.loads[i].stamp == s.changes)
    case Draw(_, _) => s.loaded && s.next <= 999
    case _ => true
  }

  /** Once there was a status scan, the next one comes within 30 s. */
  predicate ScansInTime(s: State, a: Action) {
    a.Tick? && s.scanned.Some? ==> s.now + a.elapsed <= s.scanned.value + 30 * SECOND
  }

  /** Keys are unique, and no client id is in two places at once. */
  ghost predicate KeysInv(s: State) {
    && Unique(s.rows)
    && (forall i :: 0 <= i < |s.rows| ==> s.rows[i].clientID in s.issued)
    && (forall j :: 0 <= j < |s.pending| ==> PendingKeys(s, s.pending[j]))
    && (forall j, k :: 0 <= j < k < |s.pending| ==> s.pending[j].clientID != s.pending[k].clientID)
    && (forall x :: x in s.assigning ==> AssignmentKeys(s, x))
  }

  ghost predicate PendingKeys(s: State, c: ManagedClient) {
    c.clientID in s.issued && !HasClient(s.rows, c.clientID) && !c.online && c.lastSeen == None
  }

  /** An assignment is to a client that is not being registered, under the agent id that client has. */
  ghost predicate AssignmentKeys(s: State, x: Assignment) {
    && x.patch.clientID in s.issued
    && (forall j :: 0 <= j < |s.pending| ==> s.pending[j].clientID != x.patch.clientID)
    && (x.existing.Some? ==> x.existing.value.agentID == x.patch.agentID)
    && forall i :: 0 <= i < |s.rows| && s.rows[i].clientID == x.patch.clientID ==> s.rows[i].agentID == x.patch.agentID
  }

  /** In orderly runs no drawn row clashes with a stored one or another drawn one, and the counter is above them all. */
  ghost predicate IdsInv(s: State) {
    && (s.pending != [] ==> s.loaded)
    && (s.loaded ==> Below(s.rows, s.next))
    && (forall l :: l in s.loads ==> LoadInv(s, l))
    && (forall j :: 0 <= j < |s.pending| ==> PendingId(s, s.pending[j]))
    && (forall j, k :: 0 <= j < k < |s.pending| ==> s.pending[j].agentID != s.pending[k].agentID)
  }

  ghost predicate Below(rows: seq<ManagedClient>, next: nat) {
    forall i :: 0 <= i < |rows| && Number(rows[i].agentID).Some? ==> Number(rows[i].agentID).value < next
  }

  /** As long as nothing is drawn or saved, what a load will set stays above the table. */
  ghost predicate LoadInv(s: State, l: Load) {
    l.stamp <= s.changes && (l.stamp == s.changes ==> Below(s.rows, l.next))
  }

  ghost predicate PendingId(s: State, c: ManagedClient) {
    Number(c.agentID).Some? && Number(c.agentID).value < s.next && !HasAgent(s.rows, c.agentID)
  }

  ghost predicate ClockInv(s: State) {
    && (s.scanned.Some? ==> s.scanned.value <= s.now)
    && (forall a :: a in s.hello ==> s.hello[a] <= s.now && (a, s.hello[a]) in s.hellos)
  }

  ghost predicate TimesInv(s: State) {
    && ClockInv(s)
    && (forall i :: 0 <= i < |s.rows| ==> SeenInv(s, s.rows[i]))
    && (forall x :: x in s.assigning ==> SeenInv(s, x.patch))
  }

  /** No recorded time is ahead of the clock or of the agent's last hello. */
  ghost predicate SeenInv(s: State, row: ManagedClient) {
    row.lastSeen.Some? ==>
      && row.lastSeen.value <= s.now / SECOND
      && (row.agentID in s.hello ==> row.lastSeen.value <= s.hello[row.agentID] / SECOND)
  }

  ghost predicate Inv(s: State) {
    KeysInv(s) && TimesInv(s)
  }

  /** Stored last-seen times, left by an earlier process, lie in the past. */
  ghost predicate Startable(rows: seq<ManagedClient>, now: nat) {
    && Unique(rows)
    && forall i :: 0 <= i < |rows| && rows[i].lastSeen.Some? ==> rows[i].lastSeen.value <= now / SECOND
  }

  lemma StartInv(rows: seq<ManagedClient>, now: nat)
    requires Startable(rows, now)
    ensures Inv(Start(rows, now))
  {}

  lemma StartKeys(rows: seq<ManagedClient>, now: nat)
    requires Unique(rows)
    ensures KeysInv(Start(rows, now)) && ClockInv(Start(rows, now)) && IdsInv(Start(rows, now))
  {}

  lemma DroppedAt<T>(s: seq<T>, i: nat, j: nat)
    requires i < |s| && j < |s| - 1
    ensures Dropped(s, i)[j] == s[if j < i then j else j + 1]
  {}

  ghost predicate KnownKeys(rows: seq<ManagedClient>, row: ManagedClient) {
    exists k :: 0 <= k < |rows| && rows[k].clientID == row.clientID && rows[k].agentID == row.agentID
  }

  /** Rows that all come from the old ones, keys unchanged, keep what is known of the keys. */
  lemma FewerRowsKeepKeys(s: State, t: State)
    requires KeysInv(s) && Unique(t.rows) && t.pending == s.pending && t.issued == s.issued
    requires forall x :: x in t.assigning ==> x in s.assigning
    requires forall i :: 0 <= i < |t.rows| ==> KnownKeys(s.rows, t.rows[i])
    ensures KeysInv(t)
  {
    forall j | 0 <= j < |t.pending| ensures PendingKeys(t, t.pending[j]) {
      assert PendingKeys(s, s.pending[j]);
    }
    forall x | x in t.assigning ensures AssignmentKeys(t, x) {
      assert AssignmentKeys(s, x);
    }
  }

  lemma SameKeysKeepKeys(s: State, t: State)
    requires KeysInv(s) && |t.rows| == |s.rows| && t.pending == s.pending && t.issued == s.issued
    requires forall x :: x in t.assigning ==> x in s.assigning
    requires forall i :: 0 <= i < |t.rows| ==>
               s.rows[i].clientID == t.rows[i].clientID && s.rows[i].agentID == t.rows[i].agentID
    ensures KeysInv(t)
  {
    forall i | 0 <= i < |t.rows| ensures KnownKeys(s.rows, t.rows[i]) {
      assert s.rows[i].clientID == t.rows[i].clientID;
    }
    FewerRowsKeepKeys(s, t);
  }

  lemma DrawKeepsKeys(s: State, device: DeviceInfo, uuid: string)
    requires KeysInv(s) && Step(s, Draw(device, uuid)).Some?
    ensures KeysInv(Step(s, Draw(device, uuid)).value)
  {
    var t := Step(s, Draw(device, uuid)).value;
    forall j | 0 <= j < |t.pending| ensures PendingKeys(t, t.pending[j]) {
      assert j < |s.pending| ==> PendingKeys(s, s.pending[j]);
    }
    forall j | 0 <= j < |s.pending| ensures s.pending[j].clientID != uuid {
      assert PendingKeys(s, s.pending[j]);
    }
    forall x | x in t.assigning ensures AssignmentKeys(t, x) {
      assert AssignmentKeys(s, x);
    }
  }

  lemma SavedRows(rows: seq<ManagedClient>, c: ManagedClient, i: nat)
    requires i < |InsertOrReplace(rows, c)|
    ensures InsertOrReplace(rows, c)[i] == c || InsertOrReplace(rows, c)[i] in rows
  {
    WithoutMeaning(rows, c);
    if i < |Without(rows, c)| {
      assert Without(rows, c)[i] in Without(rows, c);
    }
  }

  lemma SaveKeepsKeys(s: State, i: nat)
    requires KeysInv(s) && i < |s.pending|
    ensures KeysInv(Step(s, Save(i)).value)
  {
    var t, c := Step(s, Save(i)).value, s.pending[i];
    ReplaceKeepsUnique(s.rows, c);
    assert PendingKeys(s, c);
    forall r | 0 <= r < |t.rows| ensures t.rows[r] == c || t.rows[r] in s.rows {
      SavedRows(s.rows, c, r);
    }
    forall j | 0 <= j < |t.pending|
      ensures PendingKeys(t, t.pending[j]) && t.pending[j].clientID != c.clientID
    {
      DroppedAt(s.pending, i, j);
      assert PendingKeys(s, t.pending[j]);
    }
    forall j, k | 0 <= j < k < |t.pending| ensures t.pending[j].clientID != t.pending[k].clientID {
      DroppedAt(s.pending, i, j);
      DroppedAt(s.pending, i, k);
    }
    forall x | x in t.assigning ensures AssignmentKeys(t, x) {
      assert AssignmentKeys(s, x);
    }
  }

  lemma DeleteKeepsKeys(s: State, clientID: string)
    requires KeysInv(s)
    ensures KeysInv(Step(s, Delete(clientID)).value)
  {
    var t := Step(s, Delete(clientID)).value;
    RemoveMeaning(s.rows, clientID);
    forall i | 0 <= i < |t.rows| ensures KnownKeys(s.rows, t.rows[i]) {
      assert t.rows[i] in t.rows;
    }
    FewerRowsKeepKeys(s, t);
  }

  lemma ReadKeepsKeys(s: State, r: nat, userName: string)
    requires KeysInv(s) && StepReadRow(s, r, userName).Some?
    ensures KeysInv(StepReadRow(s, r, userName).value)
  {
    var t := StepReadRow(s, r, userName).value;
    forall j | 0 <= j < |s.pending|
      ensures PendingKeys(t, s.pending[j]) && s.pending[j].clientID != s.rows[r].clientID
    {
      assert PendingKeys(s, s.pending[j]);
    }
    forall x | x in t.assigning ensures AssignmentKeys(t, x) {
      assert x in s.assigning ==> AssignmentKeys(s, x);
    }
  }

  lemma CompareKeepsKeys(s: State, i: nat)
    requires KeysInv(s) && StepCompareRow(s, i).Some?
    ensures KeysInv(StepCompareRow(s, i).value)
  {
    var t := StepCompareRow(s, i).value;
    assert AssignmentKeys(s, s.assigning[i]);
    forall j | 0 <= j < |s.pending| ensures PendingKeys(t, s.pending[j]) {
      assert PendingKeys(s, s.pending[j]);
    }
    forall x | x in t.assigning ensures AssignmentKeys(t, x) {
      assert x in s.assigning ==> AssignmentKeys(s, x);
    }
  }

  /** The written row keeps both its keys, so the database never refuses the statement. */
  lemma WriteIsPatch(s: State, i: nat)
    requires KeysInv(s) && StepWriteRow(s, i).Some?
    ensures var x, t := s.assigning[i], StepWriteRow(s, i).value;
            && t.rows == PatchInto(s.rows, x.existing.value, x.patch)
            && forall k :: 0 <= k < |s.rows| ==>
                 t.rows[k].clientID == s.rows[k].clientID && t.rows[k].agentID == s.rows[k].agentID
  {
    assert AssignmentKeys(s, s.assigning[i]);
  }

  lemma WriteKeepsKeys(s: State, i: nat)
    requires KeysInv(s) && StepWriteRow(s, i).Some?
    ensures KeysInv(StepWriteRow(s, i).value)
  {
    WriteIsPatch(s, i);
    SameKeysKeepKeys(s, StepWriteRow(s, i).value);
  }

  lemma HelloOrTickKeepsKeys(s: State, a: Action)
    requires KeysInv(s) && (a.Hello? || a.Tick?) && Step(s, a).Some?
    ensures KeysInv(Step(s, a).value)
  {
    var t := Step(s, a).value;
    forall j | 0 <= j < |t.pending| ensures PendingKeys(t, t.pending[j]) {
      assert PendingKeys(s, s.pending[j]);
    }
    forall x | x in t.assigning ensures AssignmentKeys(t, x) {
      assert AssignmentKeys(s, x);
    }
  }

  lemma StepKeepsKeys(s: State, a: Action)
    requires KeysInv(s) && Step(s, a).Some?
    ensures KeysInv(Step(s, a).value)
  {
    match a
    case ReadTable => SameKeysKeepKeys(s, Step(s, a).value);
    case SetCounter(_) => SameKeysKeepKeys(s, Step(s, a).value);
    case Draw(device, uuid) => DrawKeepsKeys(s, device, uuid);
    case Save(i) => SaveKeepsKeys(s, i);
    case Delete(clientID) => DeleteKeepsKeys(s, clientID);
    case ReadRow(r, userName) => ReadKeepsKeys(s, r, userName);
    case CompareRow(i) => CompareKeepsKeys(s, i);
    case WriteRow(i) => WriteKeepsKeys(s, i);
    case Hello(_) => HelloOrTickKeepsKeys(s, a);
    case Tick(_) => HelloOrTickKeepsKeys(s, a);
    case Scan => SameKeysKeepKeys(s, Step(s, a).value);
  }

  /** Time and hellos only move on, so what was recorded stays behind them. */
  lemma SeenKept(s: State, t: State, row: ManagedClient)
    requires SeenInv(s, row) && s.now <= t.now
    requires forall a :: a in s.hello ==> a in t.hello && s.hello[a] <= t.hello[a]
    requires forall a :: a in t.hello && a !in s.hello ==> t.hello[a] == t.now
    ensures SeenInv(t, row)
  {
    assert s.now / SECOND <= t.now / SECOND;
    if row.agentID in s.hello {
      assert s.hello[row.agentID] / SECOND <= t.hello[row.agentID] / SECOND;
    }
  }

  /** Every row and every assignment has a time that some row or assignment of the same agent had, or none. */
  lemma TimesKept(s: State, t: State)
    requires TimesInv(s) && t.now == s.now && t.scanned == s.scanned && t.hello == s.hello && t.hellos == s.hellos
    requires forall i :: 0 <= i < |t.rows| ==> SeenInv(s, t.rows[i])
    requires forall x :: x in t.assigning ==> SeenInv(s, x.patch)
    ensures TimesInv(t)
  {}

  lemma SaveKeepsTimes(s: State, i: nat)
    requires Inv(s) && i < |s.pending|
    ensures TimesInv(Step(s, Save(i)).value)
  {
    var t := Step(s, Save(i)).value;
    assert PendingKeys(s, s.pending[i]);
    forall r | 0 <= r < |t.rows| ensures SeenInv(s, t.rows[r]) {
      SavedRows(s.rows, s.pending[i], r);
    }
    TimesKept(s, t);
  }

  lemma DeleteKeepsTimes(s: State, clientID: string)
    requires Inv(s)
    ensures TimesInv(Step(s, Delete(clientID)).value)
  {
    var t := Step(s, Delete(clientID)).value;
    RemoveMeaning(s.rows, clientID);
    forall i | 0 <= i < |t.rows| ensures SeenInv(s, t.rows[i]) {
      assert t.rows[i] in t.rows;
    }
    TimesKept(s, t);
  }

  lemma WriteKeepsTimes(s: State, i: nat)
    requires Inv(s) && StepWriteRow(s, i).Some?
    ensures TimesInv(StepWriteRow(s, i).value)
  {
    var t, x := StepWriteRow(s, i).value, s.assigning[i];
    WriteIsPatch(s, i);
    assert AssignmentKeys(s, x) && SeenInv(s, x.patch);
    forall r | 0 <= r < |t.rows| ensures SeenInv(s, t.rows[r]) {
      assert SeenInv(s, s.rows[r]);
    }
    TimesKept(s, t);
  }

  lemma HelloOrTickKeepsTimes(s: State, a: Action)
    requires TimesInv(s) && (a.Hello? || a.Tick?) && Step(s, a).Some?
    ensures TimesInv(Step(s, a).value)
  {
    var t := Step(s, a).value;
    forall i | 0 <= i < |t.rows| ensures SeenInv(t, t.rows[i]) {
      SeenKept(s, t, s.rows[i]);
    }
    forall x | x in t.assigning ensures SeenInv(t, x.patch) {
      SeenKept(s, t, x.patch);
    }
  }

  lemma ScanKeepsTimes(s: State)
    requires TimesInv(s)
    ensures TimesInv(Step(s, Scan).value)
  {
    var t := Step(s, Scan).value;
    forall i | 0 <= i < |t.rows| ensures SeenInv(t, t.rows[i]) {
      assert SeenInv(s, s.rows[i]);
      if s.rows[i].agentID in s.hello {
        assert s.hello[s.rows[i].agentID] / SECOND <= s.now / SECOND;
      }
    }
    forall x | x in t.assigning ensures SeenInv(t, x.patch) {
      assert SeenInv(s, x.patch);
    }
  }

  lemma StepKeepsTimes(s: State, a: Action)
    requires Inv(s) && Step(s, a).Some?
    ensures TimesInv(Step(s, a).value)
  {
    match a
    case Save(i) => SaveKeepsTimes(s, i);
    case Delete(clientID) => DeleteKeepsTimes(s, clientID);
    case WriteRow(i) => WriteKeepsTimes(s, i);
    case Hello(_) => HelloOrTickKeepsTimes(s, a);
    case Tick(_) => HelloOrTickKeepsTimes(s, a);
    case Scan => ScanKeepsTimes(s);
    case _ => TimesKept(s, Step(s, a).value);
  }

  lemma StepKeepsClock(s: State, a: Action)
    requires ClockInv(s) && Step(s, a).Some?
    ensures ClockInv(Step(s, a).value)
  {}

  /** Keys and clocks, from any table; what was recorded before the start may lie ahead of the clock. */
  lemma {:induction false} RunKeepsKeys(s: State, actions: seq<Action>)
    requires KeysInv(s) && ClockInv(s) && Run(s, actions).Some?
    ensures KeysInv(Run(s, actions).value) && ClockInv(Run(s, actions).value)
  {
    if actions != [] {
      var before, a := actions[..|actions| - 1], actions[|actions| - 1];
      RunKeepsKeys(s, before);
      StepKeepsKeys(Run(s, before).value, a);
      StepKeepsClock(Run(s, before).value, a);
    }
  }

  lemma {:induction false} RunKeepsInv(s: State, actions: seq<Action>)
    requires Inv(s) && Run(s, actions).Some?
    ensures Inv(Run(s, actions).value)
  {
    if actions != [] {
      var before, a := actions[..|actions| - 1], actions[|actions| - 1];
      RunKeepsInv(s, before);
      StepKeepsKeys(Run(s, before).value, a);
      StepKeepsTimes(Run(s, before).value, a);
    }
  }

  /** In every reachable state the scan of the OTP handler gives what any keyed lookup gives. */
  lemma {:induction false} LookupsAgreeInRuns(
    rows: seq<ManagedClient>, now: nat, actions: seq<Action>, agentID: string, clientID: string)
    requires Unique(rows) && Run(Start(rows, now), actions).Some?
    ensures var s := Run(Start(rows, now), actions).value;
            KeyedClientID(s.rows, agentID, clientID) <==> clientID == ScanForClientID(s.rows, agentID)
  {
    StartKeys(rows, now);
    RunKeepsKeys(Start(rows, now), actions);
    LookupsAgree(Run(Start(rows, now), actions).value.rows, agentID, clientID);
  }

  /** A save adds exactly its row. */
  predicate SaveAdds(s: State, a: Action) {
    a.Save? && a.i < |s.pending| ==> Step(s, a).value.rows == s.rows + [s.pending[a.i]]
  }

  /** The id of the row to be saved is not stored. */
  ghost predicate SaveGuard(s: State, a: Action) {
    a.Save? && a.i < |s.pending| ==> !HasAgent(s.rows, s.pending[a.i].agentID)
  }

  lemma SaveAddsIff(s: State, i: nat)
    requires KeysInv(s) && i < |s.pending|
    ensures SaveAdds(s, Save(i)) <==> SaveGuard(s, Save(i))
  {
    assert PendingKeys(s, s.pending[i]);
    ReplaceDisplacesNothingIff(s.rows, s.pending[i]);
  }

  /** Along any run each save adds exactly its row, and displaces none, exactly when its agent id is never stored. */
  lemma {:induction false} SavesAddThroughoutIff(s: State, actions: seq<Action>)
    requires KeysInv(s) && ClockInv(s) && Run(s, actions).Some?
    ensures Along(s, actions, SaveAdds) <==> Along(s, actions, SaveGuard)
  {
    if actions != [] {
      var before, a := actions[..|actions| - 1], actions[|actions| - 1];
      RunKeepsKeys(s, before);
      SavesAddThroughoutIff(s, before);
      if a.Save? {
        SaveAddsIff(Run(s, before).value, a.i);
      }
    }
  }

  /** When no drawn row clashes, a save adds one row at the end and displaces none. */
  lemma SaveAddsOneRow(s: State, i: nat)
    requires KeysInv(s) && IdsInv(s) && i < |s.pending|
    ensures Step(s, Save(i)).value.rows == s.rows + [s.pending[i]]
  {
    assert PendingKeys(s, s.pending[i]) && PendingId(s, s.pending[i]);
    ReplaceDisplacesNothingIff(s.rows, s.pending[i]);
  }

  lemma SaveKeepsIds(s: State, i: nat)
    requires KeysInv(s) && IdsInv(s) && i < |s.pending|
    ensures IdsInv(Step(s, Save(i)).value)
  {
    var t, c := Step(s, Save(i)).value, s.pending[i];
    SaveAddsOneRow(s, i);
    assert PendingId(s, c);
    forall j | 0 <= j < |t.pending| ensures PendingId(t, t.pending[j]) {
      DroppedAt(s.pending, i, j);
      assert PendingId(s, t.pending[j]) && t.pending[j].agentID != c.agentID;
    }
    forall j, k | 0 <= j < k < |t.pending| ensures t.pending[j].agentID != t.pending[k].agentID {
      DroppedAt(s.pending, i, j);
      DroppedAt(s.pending, i, k);
    }
    forall l | l in t.loads ensures LoadInv(t, l) {
      assert LoadInv(s, l);
    }
  }

  lemma DrawKeepsIds(s: State, device: DeviceInfo, uuid: string)
    requires IdsInv(s) && Orderly(s, Draw(device, uuid)) && Step(s, Draw(device, uuid)).Some?
    ensures IdsInv(Step(s, Draw(device, uuid)).value)
  {
    var t, c := Step(s, Draw(device, uuid)).value, Drawn(s, device, uuid);
    DrawnIdIsFree(s.rows, s.next);
    forall j | 0 <= j < |t.pending| ensures PendingId(t, t.pending[j]) {
      assert j < |s.pending| ==> PendingId(s, s.pending[j]);
    }
    forall j | 0 <= j < |s.pending| ensures s.pending[j].agentID != c.agentID {
      assert PendingId(s, s.pending[j]);
    }
    forall l | l in t.loads ensures LoadInv(t, l) {
      assert LoadInv(s, l);
    }
  }

  /** Agent ids that were there before, and drawn rows that were there before. */
  lemma FewerIdsKept(s: State, t: State)
    requires IdsInv(s) && t.pending == s.pending && t.next == s.next && t.loaded == s.loaded
    requires t.loads == s.loads && t.changes == s.changes
    requires forall i :: 0 <= i < |t.rows| ==> HasAgent(s.rows, t.rows[i].agentID)
    ensures IdsInv(t)
  {
    forall j | 0 <= j < |t.pending| ensures PendingId(t, t.pending[j]) {
      assert PendingId(s, s.pending[j]);
    }
    forall l | l in t.loads ensures LoadInv(t, l) {
      assert LoadInv(s, l);
    }
  }

  lemma LoadKeepsIds(s: State, a: Action)
    requires IdsInv(s) && (a.ReadTable? || a.SetCounter?) && Orderly(s, a) && Step(s, a).Some?
    ensures IdsInv(Step(s, a).value)
  {
    var t := Step(s, a).value;
    NextAfterIsNext(s.rows);
    assert a.SetCounter? ==> LoadInv(s, s.loads[a.i]);
    forall l | l in t.loads ensures LoadInv(t, l) {
      assert l in s.loads ==> LoadInv(s, l);
    }
    forall j | 0 <= j < |t.pending| ensures PendingId(t, t.pending[j]) {
      assert PendingId(s, s.pending[j]);
    }
  }

  lemma DeleteKeepsIds(s: State, clientID: string)
    requires IdsInv(s)
    ensures IdsInv(Step(s, Delete(clientID)).value)
  {
    var t := Step(s, Delete(clientID)).value;
    RemoveMeaning(s.rows, clientID);
    forall i | 0 <= i < |t.rows| ensures HasAgent(s.rows, t.rows[i].agentID) {
      assert t.rows[i] in t.rows;
    }
    FewerIdsKept(s, t);
  }

  lemma StepKeepsIds(s: State, a: Action)
    requires KeysInv(s) && IdsInv(s) && Orderly(s, a) && Step(s, a).Some?
    ensures IdsInv(Step(s, a).value)
  {
    match a
    case ReadTable => LoadKeepsIds(s, a);
    case SetCounter(_) => LoadKeepsIds(s, a);
    case Draw(device, uuid) => DrawKeepsIds(s, device, uuid);
    case Save(i) => SaveKeepsIds(s, i);
    case Delete(clientID) => DeleteKeepsIds(s, clientID);
    case WriteRow(i) =>
      WriteIsPatch(s, i);
      FewerIdsKept(s, Step(s, a).value);
    case _ => FewerIdsKept(s, Step(s, a).value);
  }

  lemma {:induction false} RunKeepsIds(s: State, actions: seq<Action>)
    requires KeysInv(s) && ClockInv(s) && IdsInv(s) && Run(s, actions).Some? && Along(s, actions, Orderly)
    ensures IdsInv(Run(s, actions).value)
  {
    if actions != [] {
      var before, a := actions[..|actions| - 1], actions[|actions| - 1];
      RunKeepsKeys(s, before);
      RunKeepsIds(s, before);
      StepKeepsIds(Run(s, before).value, a);
    }
  }

  lemma {:induction false} RunThen(s: State, actions: seq<Action>, a: Action)
    ensures Run(s, actions + [a]) == match Run(s, actions) case None => None case Some(t) => Step(t, a)
  {
    assert (actions + [a])[..|actions|] == actions;
  }

  /** In an orderly run the id of a drawn row is never stored, so each save adds exactly its row. */
  lemma {:induction false} OrderlySavesAdd(s: State, actions: seq<Action>)
    requires KeysInv(s) && ClockInv(s) && IdsInv(s) && Run(s, actions).Some? && Along(s, actions, Orderly)
    ensures Along(s, actions, SaveAdds) && Along(s, actions, SaveGuard)
  {
    if actions != [] {
      var before, a := actions[..|actions| - 1], actions[|actions| - 1];
      RunKeepsKeys(s, before);
      RunKeepsIds(s, before);
      OrderlySavesAdd(s, before);
      if a.Save? {
        assert PendingId(Run(s, before).value, Run(s, before).value.pending[a.i]);
        SaveAddsIff(Run(s, before).value, a.i);
      }
    }
  }

  /**
   Over every orderly run, from any stored table: both keys stay unique, every three-character number
   is below the counter once LoadClients has run, and each save adds exactly its row.
   */
  lemma {:induction false} RegistrationsAreSafe(rows: seq<ManagedClient>, now: nat, actions: seq<Action>, i: nat)
    requires Unique(rows) && Run(Start(rows, now), actions).Some? && Along(Start(rows, now), actions, Orderly)
    ensures Along(Start(rows, now), actions, SaveAdds)
    ensures var s := Run(Start(rows, now), actions).value;
            && Unique(s.rows)
            && (s.loaded ==> Below(s.rows, s.next))
            && (i < |s.pending| ==>
                  Run(Start(rows, now), actions + [Save(i)]).Some? &&
                  Run(Start(rows, now), actions + [Save(i)]).value.rows == s.rows + [s.pending[i]])
  {
    StartKeys(rows, now);
    RunKeepsKeys(Start(rows, now), actions);
    RunKeepsIds(Start(rows, now), actions);
    OrderlySavesAdd(Start(rows, now), actions);
    RunThen(Start(rows, now), actions, Save(i));
    var s := Run(Start(rows, now), actions).value;
    if i < |s.pending| {
      SaveAddsOneRow(s, i);
    }
  }

  /** A hello of the agent at most 30 s before the last scan. */
  predicate Recent(s: State, agentID: string) {
    s.scanned.Some? ==> agentID in s.hello && s.hello[agentID] >= s.scanned.value - 30 * SECOND
  }

  /** Online rows belong to agents that were recent at the last scan. */
  predicate Present(s: State) {
    forall i :: 0 <= i < |s.rows| && s.rows[i].online ==> Recent(s, s.rows[i].agentID)
  }

  /** A write-back turns a row online only for an agent that is recent. */
  predicate OnlineGuard(s: State, a: Action) {
    a.WriteRow? && a.i < |s.assigning| && s.assigning[a.i].existing.Some? ==>
      var x := s.assigning[a.i];
      FindClient(s.rows, x.patch.clientID).Some? && x.patch.online && !x.existing.value.online ==>
        Recent(s, x.patch.agentID)
  }

  lemma WriteKeepsPresentIff(s: State, i: nat)
    requires KeysInv(s) && Present(s) && StepWriteRow(s, i).Some?
    ensures Present(StepWriteRow(s, i).value) <==> OnlineGuard(s, WriteRow(i))
  {
    var t, x := StepWriteRow(s, i).value, s.assigning[i];
    WriteIsPatch(s, i);
    assert AssignmentKeys(s, x);
    if !OnlineGuard(s, WriteRow(i)) {
      var k :| 0 <= k < |s.rows| && s.rows[k].clientID == x.patch.clientID;
      assert t.rows[k].online && t.rows[k].agentID == x.patch.agentID;
    } else {
      forall k | 0 <= k < |t.rows| && t.rows[k].online ensures Recent(t, t.rows[k].agentID) {
        if s.rows[k].clientID == x.patch.clientID && !s.rows[k].online {
          assert x.patch.online && !x.existing.value.online;
        }
      }
    }
  }

  lemma SaveKeepsPresent(s: State, i: nat)
    requires KeysInv(s) && Present(s) && i < |s.pending|
    ensures Present(Step(s, Save(i)).value)
  {
    var t := Step(s, Save(i)).value;
    assert PendingKeys(s, s.pending[i]);
    forall r | 0 <= r < |t.rows| && t.rows[r].online ensures Recent(t, t.rows[r].agentID) {
      SavedRows(s.rows, s.pending[i], r);
    }
  }

  lemma DeleteKeepsPresent(s: State, clientID: string)
    requires Present(s)
    ensures Present(Step(s, Delete(clientID)).value)
  {
    var t := Step(s, Delete(clientID)).value;
    RemoveMeaning(s.rows, clientID);
    forall r | 0 <= r < |t.rows| && t.rows[r].online ensures Recent(t, t.rows[r].agentID) {
      assert t.rows[r] in t.rows;
    }
  }

  lemma HelloKeepsPresent(s: State, agentID: string)
    requires ClockInv(s) && Present(s)
    ensures Present(Step(s, Hello(agentID)).value)
  {}

  /** Each step keeps that exactly when it meets the guard; no other step can break it. */
  lemma StepKeepsPresentIff(s: State, a: Action)
    requires KeysInv(s) && ClockInv(s) && Present(s) && Step(s, a).Some?
    ensures Present(Step(s, a).value) <==> OnlineGuard(s, a)
  {
    match a
    case WriteRow(i) => WriteKeepsPresentIff(s, i);
    case Save(i) => SaveKeepsPresent(s, i);
    case Delete(clientID) => DeleteKeepsPresent(s, clientID);
    case Hello(agentID) => HelloKeepsPresent(s, agentID);
    case Scan => ScanMakesPresent(s);
    case _ =>
  }

  /** Through a run online rows belong to recent agents exactly when every write-back meets the guard. */
  lemma {:induction false} PresentThroughoutIff(s: State, actions: seq<Action>)
    requires KeysInv(s) && ClockInv(s) && Present(s) && Run(s, actions).Some?
    ensures Along(s, actions, (t, a) => Step(t, a).Some? ==> Present(Step(t, a).value)) <==>
        Along(s, actions, OnlineGuard)
    ensures Along(s, actions, OnlineGuard) ==> Present(Run(s, actions).value)
  {
    if actions != [] {
      var before, a := actions[..|actions| - 1], actions[|actions| - 1];
      RunKeepsKeys(s, before);
      PresentThroughoutIff(s, before);
      if Along(s, before, OnlineGuard) {
        StepKeepsPresentIff(Run(s, before).value, a);
      }
    }
  }

  predicate ScanIsNear(s: State) {
    s.scanned.Some? ==> s.now <= s.scanned.value + 30 * SECOND
  }

  lemma StepKeepsScanNear(s: State, a: Action)
    requires ScanIsNear(s) && ScansInTime(s, a) && Step(s, a).Some?
    ensures ScanIsNear(Step(s, a).value)
  {}

  lemma {:induction false} RunKeepsScanNear(s: State, actions: seq<Action>)
    requires ScanIsNear(s) && Run(s, actions).Some? && Along(s, actions, ScansInTime)
    ensures ScanIsNear(Run(s, actions).value)
  {
    if actions != [] {
      var before := actions[..|actions| - 1];
      RunKeepsScanNear(s, before);
      StepKeepsScanNear(Run(s, before).value, actions[|actions| - 1]);
    }
  }

  /** Then, after the first scan, a row is online only if its agent said hello in the last 60 s. */
  lemma {:induction false} OnlineMeansRecentHello(rows: seq<ManagedClient>, now: nat, actions: seq<Action>, r: nat)
    requires Unique(rows) && Run(Start(rows, now), actions).Some?
    requires Along(Start(rows, now), actions, OnlineGuard) && Along(Start(rows, now), actions, ScansInTime)
    requires var s := Run(Start(rows, now), actions).value; s.scanned.Some? && r < |s.rows| && s.rows[r].online
    ensures var s := Run(Start(rows, now), actions).value;
            exists t :: (s.rows[r].agentID, t) in s.hellos && s.now - 60_000_000_000 <= t <= s.now
  {
    StartKeys(rows, now);
    RunKeepsKeys(Start(rows, now), actions);
    PresentThroughoutIff(Start(rows, now), actions);
    RunKeepsScanNear(Start(rows, now), actions);
    var s := Run(Start(rows, now), actions).value;
    assert Recent(s, s.rows[r].agentID);
    assert (s.rows[r].agentID, s.hello[s.rows[r].agentID]) in s.hellos;
  }

  lemma ScanMakesPresent(s: State)
    ensures Present(Step(s, Scan).value)
  {}

  /** The row was read online, and the scan marks it offline. */
  lemma ReadThenScan(s: State, r: nat, userName: string) returns (s1: State, s2: State)
    requires KeysInv(s) && s.assigning == [] && r < |s.rows| && userName != ""
    requires s.rows[r].agentID in s.hello ==> s.now - s.hello[s.rows[r].agentID] > 30 * SECOND
    ensures Step(s, ReadRow(r, userName)) == Some(s1) && Step(s1, Scan) == Some(s2) && KeysInv(s2)
    ensures s2.assigning == [Assignment(s.rows[r].(userName := userName), None)]
    ensures |s2.rows| == |s.rows| && s2.rows[r].clientID == s.rows[r].clientID
        && s2.rows[r].agentID == s.rows[r].agentID
    ensures !s2.rows[r].online && !Recent(s2, s.rows[r].agentID)
  {
    s1 := StepReadRow(s, r, userName).value;
    s2 := Step(s1, Scan).value;
    ReadKeepsKeys(s, r, userName);
    StepKeepsKeys(s1, Scan);
  }

  /** The statement writes online back. */
  lemma CompareThenWrite(s: State, r: nat, patch: ManagedClient) returns (s1: State, s2: State)
    requires KeysInv(s) && r < |s.rows| && s.assigning == [Assignment(patch, None)]
    requires patch.clientID == s.rows[r].clientID != "" && patch.online && !s.rows[r].online
    ensures Step(s, CompareRow(0)) == Some(s1) && Step(s1, WriteRow(0)) == Some(s2)
    ensures s1.rows == s.rows && s1.scanned == s.scanned && s1.hello == s.hello
    ensures s2.scanned == s.scanned && s2.hello == s.hello
    ensures |s2.rows| == |s.rows| && s2.rows[r].online && s2.rows[r].agentID == s.rows[r].agentID
  {
    s1 := StepCompareRow(s, 0).value;
    CompareKeepsKeys(s, 0);
    assert s1.assigning[0] == Assignment(patch, Some(s.rows[r]));
    WriteIsPatch(s1, 0);
    s2 := StepWriteRow(s1, 0).value;
  }

  /**
   The guard is needed: a user assigned to an agent that has gone silent marks it online again, if a
   scan falls between the reading of its row and the comparison.
   */
  lemma {:induction false} OvertakenAssignBreaksPresent(s: State, r: nat, userName: string)
    requires KeysInv(s) && s.assigning == [] && r < |s.rows| && s.rows[r].online && userName != ""
        && s.rows[r].clientID != ""
    requires s.rows[r].agentID in s.hello ==> s.now - s.hello[s.rows[r].agentID] > 30 * SECOND
    ensures var actions := [ReadRow(r, userName), Scan, CompareRow(0), WriteRow(0)];
            && Run(s, actions[..3]).Some? && Present(Run(s, actions[..3]).value)
            && Run(s, actions).Some? && !Present(Run(s, actions).value)
            && r < |Run(s, actions).value.rows| && Run(s, actions).value.rows[r].online
  {
    var actions := [ReadRow(r, userName), Scan, CompareRow(0), WriteRow(0)];
    var s1, s2 := ReadThenScan(s, r, userName);
    var s3, s4 := CompareThenWrite(s2, r, s.rows[r].(userName := userName));
    ScanMakesPresent(s1);
    assert !Recent(s4, s4.rows[r].agentID);
    TraceIsRun(actions, [s, s1, s2, s3, s4], 3);
    TraceIsRun(actions, [s, s1, s2, s3, s4], 4);
  }

  /** None, the empty string, comes before every recorded second. */
  predicate NotLater(a: Option<nat>, b: Option<nat>) {
    a.None? || (b.Some? && a.value <= b.value)
  }

  /** No client's recorded time goes backwards in this step. */
  ghost predicate Forward(s: State, a: Action) {
    Step(s, a).Some? ==>
      var t := Step(s, a).value;
      forall r, k :: 0 <= r < |s.rows| && 0 <= k < |t.rows| && s.rows[r].clientID == t.rows[k].clientID ==>
        NotLater(s.rows[r].lastSeen, t.rows[k].lastSeen)
  }

  /** A write-back changes the recorded time only to one that is not earlier than the stored one. */
  predicate SeenGuard(s: State, a: Action) {
    a.WriteRow? && a.i < |s.assigning| && s.assigning[a.i].existing.Some? ==>
      var x := s.assigning[a.i];
      var stored := FindClient(s.rows, x.patch.clientID);
      stored.Some? && x.patch.lastSeen.Some? && x.patch.lastSeen != x.existing.value.lastSeen ==>
        NotLater(stored.value.lastSeen, x.patch.lastSeen)
  }

  lemma WriteForwardIff(s: State, i: nat)
    requires KeysInv(s) && StepWriteRow(s, i).Some?
    ensures Forward(s, WriteRow(i)) <==> SeenGuard(s, WriteRow(i))
  {
    var t, x := StepWriteRow(s, i).value, s.assigning[i];
    WriteIsPatch(s, i);
    if !SeenGuard(s, WriteRow(i)) {
      var stored := FindClient(s.rows, x.patch.clientID).value;
      var k :| 0 <= k < |s.rows| && s.rows[k] == stored && s.rows[k].clientID == x.patch.clientID;
      assert t.rows[k].clientID == s.rows[k].clientID && t.rows[k].lastSeen == x.patch.lastSeen;
    }
  }

  lemma SaveIsForward(s: State, i: nat)
    requires KeysInv(s) && i < |s.pending|
    ensures Forward(s, Save(i))
  {
    var t := Step(s, Save(i)).value;
    assert PendingKeys(s, s.pending[i]);
    forall k | 0 <= k < |t.rows| ensures t.rows[k] == s.pending[i] || t.rows[k] in s.rows {
      SavedRows(s.rows, s.pending[i], k);
    }
  }

  lemma DeleteIsForward(s: State, clientID: string)
    requires KeysInv(s)
    ensures Forward(s, Delete(clientID))
  {
    var t := Step(s, Delete(clientID)).value;
    RemoveMeaning(s.rows, clientID);
    forall k | 0 <= k < |t.rows| ensures t.rows[k] in s.rows {
      assert t.rows[k] in t.rows;
    }
  }

  lemma ScanIsForward(s: State)
    requires Inv(s)
    ensures Forward(s, Scan)
  {
    var t := Step(s, Scan).value;
    forall r | 0 <= r < |s.rows| ensures NotLater(s.rows[r].lastSeen, t.rows[r].lastSeen) {
      assert SeenInv(s, s.rows[r]);
    }
  }

  lemma SameRowsAreForward(s: State, a: Action)
    requires KeysInv(s) && Step(s, a).Some? && Step(s, a).value.rows == s.rows
    ensures Forward(s, a)
  {}

  /** A step moves no recorded time backwards exactly when it meets the guard. */
  lemma StepForwardIff(s: State, a: Action)
    requires Inv(s) && Step(s, a).Some?
    ensures Forward(s, a) <==> SeenGuard(s, a)
  {
    match a
    case WriteRow(i) => WriteForwardIff(s, i);
    case Save(i) => SaveIsForward(s, i);
    case Delete(clientID) => DeleteIsForward(s, clientID);
    case Scan => ScanIsForward(s);
    case _ => SameRowsAreForward(s, a);
  }

  lemma {:induction false} ForwardThroughoutIff(s: State, actions: seq<Action>)
    requires Inv(s) && Run(s, actions).Some?
    ensures Along(s, actions, Forward) <==> Along(s, actions, SeenGuard)
  {
    if actions != [] {
      var before, a := actions[..|actions| - 1], actions[|actions| - 1];
      RunKeepsInv(s, before);
      ForwardThroughoutIff(s, before);
      StepForwardIff(Run(s, before).value, a);
    }
  }

  /** No scan falls between the reading of a row and its comparison. */
  predicate Quiet(s: State, a: Action) {
    a.Scan? ==> forall x :: x in s.assigning ==> x.existing.Some?
  }

  /** What an assignment read is still stored, or was when it was compared. */
  ghost predicate Agrees(s: State, x: Assignment) {
    match x.existing
    case Some(e) => e.online == x.patch.online && e.lastSeen == x.patch.lastSeen
    case None => StatusStored(s.rows, x.patch)
  }

  ghost predicate StatusStored(rows: seq<ManagedClient>, patch: ManagedClient) {
    forall i :: 0 <= i < |rows| && rows[i].clientID == patch.clientID ==>
      rows[i].online == patch.online && rows[i].lastSeen == patch.lastSeen
  }

  ghost predicate AgreeInv(s: State) {
    forall x :: x in s.assigning ==> Agrees(s, x)
  }

  /** Rows that are new are of clients that no assignment is to, and the others kept their status. */
  lemma AgreeKept(s: State, t: State)
    requires AgreeInv(s) && forall x :: x in t.assigning ==> x in s.assigning
    requires forall x, k :: x in s.assigning && 0 <= k < |t.rows| && t.rows[k].clientID == x.patch.clientID ==>
               SameStatus(s.rows, t.rows[k])
    ensures AgreeInv(t)
  {
    forall x | x in t.assigning ensures Agrees(t, x) {
      assert Agrees(s, x);
    }
  }

  ghost predicate SameStatus(rows: seq<ManagedClient>, row: ManagedClient) {
    exists r :: 0 <= r < |rows| && rows[r].clientID == row.clientID
                && rows[r].online == row.online && rows[r].lastSeen == row.lastSeen
  }

  lemma SaveKeepsAgree(s: State, i: nat)
    requires KeysInv(s) && AgreeInv(s) && i < |s.pending|
    ensures AgreeInv(Step(s, Save(i)).value)
  {
    var t := Step(s, Save(i)).value;
    forall x, k | x in s.assigning && 0 <= k < |t.rows| && t.rows[k].clientID == x.patch.clientID
      ensures SameStatus(s.rows, t.rows[k])
    {
      assert AssignmentKeys(s, x);
      SavedRows(s.rows, s.pending[i], k);
    }
    AgreeKept(s, t);
  }

  lemma DeleteKeepsAgree(s: State, clientID: string)
    requires AgreeInv(s)
    ensures AgreeInv(Step(s, Delete(clientID)).value)
  {
    var t := Step(s, Delete(clientID)).value;
    RemoveMeaning(s.rows, clientID);
    forall k | 0 <= k < |t.rows| ensures SameStatus(s.rows, t.rows[k]) {
      assert t.rows[k] in t.rows;
    }
    AgreeKept(s, t);
  }

  lemma WriteKeepsAgree(s: State, i: nat)
    requires KeysInv(s) && AgreeInv(s) && StepWriteRow(s, i).Some?
    ensures AgreeInv(StepWriteRow(s, i).value)
  {
    var t := StepWriteRow(s, i).value;
    WriteIsPatch(s, i);
    assert Agrees(s, s.assigning[i]);
    forall k | 0 <= k < |t.rows| ensures SameStatus(s.rows, t.rows[k]) {
      assert t.rows[k].online == s.rows[k].online && t.rows[k].lastSeen == s.rows[k].lastSeen;
    }
    AgreeKept(s, t);
  }

  lemma ReadKeepsAgree(s: State, r: nat, userName: string)
    requires KeysInv(s) && AgreeInv(s) && StepReadRow(s, r, userName).Some?
    ensures AgreeInv(StepReadRow(s, r, userName).value)
  {
    var t := StepReadRow(s, r, userName).value;
    forall x | x in t.assigning ensures Agrees(t, x) {
      assert x in s.assigning ==> Agrees(s, x);
    }
  }

  lemma CompareKeepsAgree(s: State, i: nat)
    requires AgreeInv(s) && StepCompareRow(s, i).Some?
    ensures AgreeInv(StepCompareRow(s, i).value)
  {
    var t := StepCompareRow(s, i).value;
    assert Agrees(s, s.assigning[i]);
    forall x | x in t.assigning ensures Agrees(t, x) {
      assert x in s.assigning ==> Agrees(s, x);
    }
  }

  lemma SameRowsKeepAgree(s: State, t: State)
    requires AgreeInv(s) && t.rows == s.rows && t.assigning == s.assigning
    ensures AgreeInv(t)
  {
    forall x | x in t.assigning ensures Agrees(t, x) {
      assert Agrees(s, x);
    }
  }

  lemma ScanKeepsAgree(s: State)
    requires AgreeInv(s) && Quiet(s, Scan)
    ensures AgreeInv(Step(s, Scan).value)
  {
    var t := Step(s, Scan).value;
    forall x | x in t.assigning ensures Agrees(t, x) {
      assert Agrees(s, x);
    }
  }

  lemma StepKeepsAgree(s: State, a: Action)
    requires KeysInv(s) && AgreeInv(s) && Quiet(s, a) && Step(s, a).Some?
    ensures AgreeInv(Step(s, a).value)
  {
    match a
    case Save(i) => SaveKeepsAgree(s, i);
    case Delete(clientID) => DeleteKeepsAgree(s, clientID);
    case ReadRow(r, userName) => ReadKeepsAgree(s, r, userName);
    case CompareRow(i) => CompareKeepsAgree(s, i);
    case WriteRow(i) => WriteKeepsAgree(s, i);
    case Scan => ScanKeepsAgree(s);
    case _ => SameRowsKeepAgree(s, Step(s, a).value);
  }

  lemma AgreeMeetsGuards(s: State, a: Action)
    requires AgreeInv(s)
    ensures OnlineGuard(s, a) && SeenGuard(s, a)
  {
    if a.WriteRow? && a.i < |s.assigning| {
      assert Agrees(s, s.assigning[a.i]);
    }
  }

  /** A run in which no scan overtakes an assignment that way meets both guards. */
  lemma {:induction false} QuietRunsMeetGuards(s: State, actions: seq<Action>)
    requires KeysInv(s) && ClockInv(s) && AgreeInv(s) && Run(s, actions).Some? && Along(s, actions, Quiet)
    ensures AgreeInv(Run(s, actions).value)
    ensures Along(s, actions, OnlineGuard) && Along(s, actions, SeenGuard)
  {
    if actions != [] {
      var before, a := actions[..|actions| - 1], actions[|actions| - 1];
      RunKeepsKeys(s, before);
      QuietRunsMeetGuards(s, before);
      StepKeepsAgree(Run(s, before).value, a);
      AgreeMeetsGuards(Run(s, before).value, a);
    }
  }

  /** A client id that is in use and not waiting to be saved never waits again; gone, it stays gone. */
  ghost predicate Settled(s: State, clientID: string) {
    clientID in s.issued && forall j :: 0 <= j < |s.pending| ==> s.pending[j].clientID != clientID
  }

  lemma StepKeepsSettled(s: State, a: Action, clientID: string)
    requires KeysInv(s) && Step(s, a).Some? && Settled(s, clientID)
    ensures Settled(Step(s, a).value, clientID)
    ensures !HasClient(s.rows, clientID) ==> !HasClient(Step(s, a).value.rows, clientID)
  {
    var t := Step(s, a).value;
    match a
    case Save(i) =>
      forall j | 0 <= j < |t.pending| ensures t.pending[j].clientID != clientID {
        DroppedAt(s.pending, i, j);
      }
      forall k | 0 <= k < |t.rows| ensures t.rows[k] == s.pending[i] || t.rows[k] in s.rows {
        SavedRows(s.rows, s.pending[i], k);
      }
    case Delete(c) =>
      RemoveMeaning(s.rows, c);
      forall k | 0 <= k < |t.rows| ensures t.rows[k] in s.rows {
        assert t.rows[k] in t.rows;
      }
    case WriteRow(i) => WriteIsPatch(s, i);
    case _ =>
  }

  lemma {:induction false} RunKeepsSettled(s: State, actions: seq<Action>, r: nat)
    requires Inv(s) && Run(s, actions).Some? && r < |s.rows|
    ensures Settled(Run(s, actions).value, s.rows[r].clientID)
  {
    if actions == [] {
      forall j | 0 <= j < |s.pending| ensures s.pending[j].clientID != s.rows[r].clientID {
        assert PendingKeys(s, s.pending[j]);
      }
    } else {
      var before := actions[..|actions| - 1];
      RunKeepsSettled(s, before, r);
      RunKeepsInv(s, before);
      StepKeepsSettled(Run(s, before).value, actions[|actions| - 1], s.rows[r].clientID);
    }
  }

  /** Along a run whose write-backs meet the guard, the last-seen time of a client never goes backwards. */
  lemma {:induction false} LastSeenNeverGoesBack(s: State, actions: seq<Action>, r: nat, k: nat)
    requires Inv(s) && Run(s, actions).Some? && Along(s, actions, SeenGuard) && r < |s.rows|
    requires k < |Run(s, actions).value.rows| && s.rows[r].clientID == Run(s, actions).value.rows[k].clientID
    ensures NotLater(s.rows[r].lastSeen, Run(s, actions).value.rows[k].lastSeen)
  {
    if actions != [] {
      var before, last := actions[..|actions| - 1], actions[|actions| - 1];
      var t := Run(s, before).value;
      RunKeepsInv(s, before);
      RunKeepsSettled(s, before, r);
      StepKeepsSettled(t, last, s.rows[r].clientID);
      var m :| 0 <= m < |t.rows| && t.rows[m].clientID == s.rows[r].clientID;
      LastSeenNeverGoesBack(s, before, r, m);
      StepForwardIff(t, last);
    }
  }

  /** From the start, without a load, the first registration displaces a row exactly when "001" is stored. */
  lemma UnloadedDrawDisplacesIff(
    rows: seq<ManagedClient>, now: nat, device: DeviceInfo, uuid: string)
    requires !HasClient(rows, uuid)
    ensures var s, actions := Start(rows, now), [Draw(device, uuid), Save(0)];
            && Run(s, actions).Some?
            && (Run(s, actions).value.rows == rows + [Drawn(s, device, uuid)] <==> !HasAgent(rows, "001"))
  {
    var s := Start(rows, now);
    assert Padded(1, 3) == "001" by {
      assert Digits(1) == "1";
    }
    var c := Drawn(s, device, uuid);
    var s1 := AfterDraw(s, device, uuid);
    TraceIsRun([Draw(device, uuid), Save(0)], [s, s1, AfterSave(s1)], 2);
    ReplaceDisplacesNothingIff(rows, c);
  }

  /** The steps of a run that ends in the last of these states. */
  ghost predicate IsTrace(actions: seq<Action>, states: seq<State>) {
    && |states| == |actions| + 1
    && forall i :: 0 <= i < |actions| ==> Step(states[i], actions[i]) == Some(states[i + 1])
  }

  lemma {:induction false} TraceIsRun(actions: seq<Action>, states: seq<State>, k: nat)
    requires IsTrace(actions, states) && k <= |actions|
    ensures Run(states[0], actions[..k]) == Some(states[k])
    ensures k == |actions| ==> Run(states[0], actions) == Some(states[k])
  {
    if k > 0 {
      TraceIsRun(actions, states, k - 1);
      RunStep(states[0], actions[..k - 1], actions[k - 1], states[k - 1], states[k]);
      TakeLast(actions, k);
    }
    assert actions[..|actions|] == actions;
  }

  lemma {:induction false} RunStep(s: State, actions: seq<Action>, a: Action, t: State, u: State)
    requires Run(s, actions) == Some(t) && Step(t, a) == Some(u)
    ensures Run(s, actions + [a]) == Some(u)
  {
    RunThen(s, actions, a);
  }

  lemma TakeLast<T>(s: seq<T>, k: nat)
    requires 0 < k <= |s|
    ensures s[..k] == s[..k - 1] + [s[k - 1]]
  {}

  function AfterDraw(s: State, device: DeviceInfo, uuid: string): (t: State)
    requires uuid !in s.issued
    ensures Step(s, Draw(device, uuid)) == Some(t)
  {
    StepDraw(s, device, uuid).value
  }

  function AfterSave(s: State): (t: State)
    requires s.pending != []
    ensures Step(s, Save(0)) == Some(t)
  {
    StepSave(s, 0).value
  }

  function AfterRead(s: State): (t: State)
    ensures Step(s, ReadTable) == Some(t)
  {
    s.(loads := s.loads + [Load(NextAfter(s.rows), s.changes)])
  }

  /** The load that read last sets the counter. */
  function AfterSet(s: State): (t: State)
    requires s.loads != []
    ensures Step(s, SetCounter(|s.loads| - 1)) == Some(t)
    ensures t == s.(next := s.loads[|s.loads| - 1].next, loaded := true, loads := s.loads[..|s.loads| - 1])
  {
    assert Dropped(s.loads, |s.loads| - 1) == s.loads[..|s.loads| - 1];
    s.(next := s.loads[|s.loads| - 1].next, loaded := true, loads := s.loads[..|s.loads| - 1])
  }

  function AfterLoad(s: State): (t: State)
    ensures t == s.(next := NextAfter(s.rows), loaded := true)
  {
    assert AfterRead(s).loads[..|s.loads|] == s.loads;
    AfterSet(AfterRead(s))
  }

  /**
   The limit on the counter is needed too: after a load a registration displaces a row exactly when
   the counter stands at 1000 and "1000" is stored.
   */
  lemma {:induction false} LoadedDrawDisplacesIff(s: State, device: DeviceInfo, uuid: string)
    requires s.pending == [] && uuid !in s.issued && !HasClient(s.rows, uuid)
    ensures var actions := [ReadTable, SetCounter(|s.loads|), Draw(device, uuid), Save(0)];
            && Run(s, actions).Some?
            && (Run(s, actions).value.rows != s.rows + [Drawn(AfterLoad(s), device, uuid)] <==>
                NextAfter(s.rows) == 1000 && HasAgent(s.rows, "1000"))
  {
    var actions := [ReadTable, SetCounter(|s.loads|), Draw(device, uuid), Save(0)];
    var s2 := AfterLoad(s);
    var s3 := AfterDraw(s2, device, uuid);
    TraceIsRun(actions, [s, AfterRead(s), s2, s3, AfterSave(s3)], 4);
    NextAfterIsNext(s.rows);
    DrawnIdIsTakenIff(s.rows, NextAfter(s.rows));
    ReplaceDisplacesNothingIff(s.rows, Drawn(s2, device, uuid));
  }

  lemma {:induction false} SameConflicts(rows: seq<ManagedClient>, a: ManagedClient, b: ManagedClient)
    requires a.agentID == b.agentID && !HasClient(rows, a.clientID) && !HasClient(rows, b.clientID)
    ensures Without(rows, a) == Without(rows, b)
  {
    if rows != [] {
      var front := rows[..|rows| - 1];
      forall i | 0 <= i < |front| ensures front[i].clientID != a.clientID && front[i].clientID != b.clientID {
        assert front[i] == rows[i];
      }
      SameConflicts(front, a, b);
    }
  }

  /** A second row under the same agent id takes the place of the first, wherever that stood. */
  lemma ReplaceTwice(rows: seq<ManagedClient>, a: ManagedClient, b: ManagedClient)
    requires a.agentID == b.agentID && !HasClient(rows, a.clientID) && !HasClient(rows, b.clientID)
    ensures InsertOrReplace(InsertOrReplace(rows, a), b) == InsertOrReplace(rows, b)
    ensures !HasAgent(rows, a.agentID) ==>
              InsertOrReplace(rows, a) == rows + [a] && InsertOrReplace(rows, b) == rows + [b]
  {
    SameConflicts(rows, a, b);
    WithoutMeaning(rows, a);
    forall i | 0 <= i < |Without(rows, a)| ensures !Conflicts(Without(rows, a)[i], b) {
      assert Without(rows, a)[i] in Without(rows, a);
    }
    WithoutKeepsAll(Without(rows, a), b);
    assert (Without(rows, a) + [a])[..|Without(rows, a)|] == Without(rows, a);
    ReplaceDisplacesNothingIff(rows, a);
    ReplaceDisplacesNothingIff(rows, b);
  }

  /**
   A load between a draw and its save takes the drawn number back: in this run, from any table, the
   second registration gets the id of the first, and its save deletes the row of the first.
   */
  lemma {:induction false} LoadBetweenDrawAndSaveDisplaces(
    s: State, device1: DeviceInfo, uuid1: string, device2: DeviceInfo, uuid2: string)
    requires s.pending == [] && uuid1 != uuid2 && uuid1 !in s.issued && uuid2 !in s.issued
    requires !HasClient(s.rows, uuid1) && !HasClient(s.rows, uuid2)
    ensures var first, second := Drawn(AfterLoad(s), device1, uuid1), Drawn(AfterLoad(s), device2, uuid2);
            var actions := BothDraw(s, device1, uuid1, device2, uuid2);
            && first.agentID == second.agentID && first != second
            && Run(s, actions + [Save(0)]).Some?
            && Run(s, actions + [Save(0)]).value.rows == InsertOrReplace(s.rows, first)
            && Run(s, actions + [Save(0), Save(0)]).Some?
            && Run(s, actions + [Save(0), Save(0)]).value.rows == InsertOrReplace(s.rows, second)
            && (NextAfter(s.rows) < 1000 ==>
                  && InsertOrReplace(s.rows, first) == s.rows + [first]
                  && InsertOrReplace(s.rows, second) == s.rows + [second])
  {
    var actions := BothDraw(s, device1, uuid1, device2, uuid2);
    var drawn := TwoLoadedDraws(s, device1, uuid1, device2, uuid2);
    var s1, s2 := TwoSaves(drawn);
    RunStep(s, actions, Save(0), drawn, s1);
    RunStep(s, actions + [Save(0)], Save(0), s1, s2);
    Regroup(actions, [Save(0)], [Save(0)]);
    assert [Save(0)] + [Save(0)] == [Save(0), Save(0)];
    SameNumberDisplaces(s.rows, Drawn(AfterLoad(s), device1, uuid1), Drawn(AfterLoad(s), device2, uuid2));
  }

  /** Two loads, each followed by a draw. */
  function BothDraw(s: State, device1: DeviceInfo, uuid1: string, device2: DeviceInfo, uuid2: string): seq<Action> {
    var load := SetCounter(|s.loads|);
    [ReadTable, load, Draw(device1, uuid1), ReadTable, load, Draw(device2, uuid2)]
  }

  lemma TwoSaves(s: State) returns (s1: State, s2: State)
    requires |s.pending| == 2
    ensures Step(s, Save(0)) == Some(s1) && Step(s1, Save(0)) == Some(s2)
    ensures s1.rows == InsertOrReplace(s.rows, s.pending[0]) && s2.rows == InsertOrReplace(s1.rows, s.pending[1])
  {
    assert Dropped(s.pending, 0) == [s.pending[1]];
    s1 := AfterSave(s);
    s2 := AfterSave(s1);
  }

  lemma TwoLoadedDraws(s: State, device1: DeviceInfo, uuid1: string, device2: DeviceInfo, uuid2: string)
    returns (s4: State)
    requires s.pending == [] && uuid1 != uuid2 && uuid1 !in s.issued && uuid2 !in s.issued
    ensures Run(s, BothDraw(s, device1, uuid1, device2, uuid2)) == Some(s4) && s4.rows == s.rows
    ensures s4.pending == [Drawn(AfterLoad(s), device1, uuid1), Drawn(AfterLoad(s), device2, uuid2)]
  {
    var s1 := AfterLoad(s);
    var s2 := AfterDraw(s1, device1, uuid1);
    var s3 := AfterLoad(s2);
    s4 := AfterDraw(s3, device2, uuid2);
    var actions := BothDraw(s, device1, uuid1, device2, uuid2);
    TraceIsRun(actions, [s, AfterRead(s), s1, s2, AfterRead(s2), s3, s4], 6);
  }

  lemma {:induction false} SameNumberDisplaces(rows: seq<ManagedClient>, first: ManagedClient, second: ManagedClient)
    requires first.agentID == second.agentID == Padded(NextAfter(rows), 3)
    requires !HasClient(rows, first.clientID) && !HasClient(rows, second.clientID)
    ensures InsertOrReplace(InsertOrReplace(rows, first), second) == InsertOrReplace(rows, second)
    ensures NextAfter(rows) < 1000 ==>
              InsertOrReplace(rows, first) == rows + [first] && InsertOrReplace(rows, second) == rows + [second]
  {
    ReplaceTwice(rows, first, second);
    NextAfterIsNext(rows);
    if NextAfter(rows) < 1000 {
      DrawnIdIsFree(rows, NextAfter(rows));
    }
  }

  /**
   A load that reads the table before a whole registration and sets the counter after it does the same,
   although it falls between no draw and its save.
   */
  lemma {:induction false} OvertakenLoadDisplaces(
    s: State, device1: DeviceInfo, uuid1: string, device2: DeviceInfo, uuid2: string)
    requires s.pending == [] && s.next == NextAfter(s.rows)
    requires uuid1 != uuid2 && uuid1 !in s.issued && uuid2 !in s.issued
    requires !HasClient(s.rows, uuid1) && !HasClient(s.rows, uuid2)
    ensures var first, second := Drawn(s, device1, uuid1), Drawn(s, device2, uuid2);
            var registered := [ReadTable] + Registration(device1, uuid1);
            var actions := registered + [SetCounter(|s.loads|)] + Registration(device2, uuid2);
            && first.agentID == second.agentID && first != second
            && Run(s, registered).Some? && Run(s, registered).value.rows == InsertOrReplace(s.rows, first)
            && Run(s, registered).value.pending == []
            && Run(s, actions).Some? && Run(s, actions).value.rows == InsertOrReplace(s.rows, second)
            && (NextAfter(s.rows) < 1000 ==>
                  && InsertOrReplace(s.rows, first) == s.rows + [first]
                  && InsertOrReplace(s.rows, second) == s.rows + [second])
  {
    var s1 := AfterRead(s);
    RunOne(s, ReadTable);
    var s2 := RegistrationRun(s1, device1, uuid1);
    var s3 := AfterSet(s2);
    RunOne(s2, SetCounter(|s.loads|));
    var s4 := RegistrationRun(s3, device2, uuid2);
    RunBoth(s, [ReadTable], Registration(device1, uuid1));
    RunBoth(s, [ReadTable] + Registration(device1, uuid1), [SetCounter(|s.loads|)]);
    RunBoth(s, [ReadTable] + Registration(device1, uuid1) + [SetCounter(|s.loads|)], Registration(device2, uuid2));
    SameNumberDisplaces(s.rows, Drawn(s, device1, uuid1), Drawn(s, device2, uuid2));
  }

  /** A registration that nothing comes between. */
  function Registration(device: DeviceInfo, uuid: string): seq<Action> {
    [Draw(device, uuid), Save(0)]
  }

  lemma RegistrationRun(s: State, device: DeviceInfo, uuid: string) returns (t: State)
    requires s.pending == [] && uuid !in s.issued
    ensures Run(s, Registration(device, uuid)) == Some(t)
    ensures t.rows == InsertOrReplace(s.rows, Drawn(s, device, uuid)) && t.next == s.next + 1
    ensures t.pending == [] && t.loads == s.loads && t.issued == s.issued + {uuid}
    ensures t.hello == s.hello && t.now == s.now && t.loaded == s.loaded
  {
    var s1 := AfterDraw(s, device, uuid);
    t := AfterSave(s1);
    TraceIsRun(Registration(device, uuid), [s, s1, t], 2);
  }

  lemma {:induction false} RunOne(s: State, a: Action)
    ensures Run(s, [a]) == Step(s, a)
  {
    RunThen(s, [], a);
    assert [] + [a] == [a];
  }

  lemma {:induction false} RunBoth(s: State, a: seq<Action>, b: seq<Action>)
    ensures Run(s, a + b) == match Run(s, a) case None => None case Some(t) => Run(t, b)
  {
    if b == [] {
      assert a + b == a;
    } else {
      var most, last := b[..|b| - 1], b[|b| - 1];
      RunBoth(s, a, most);
      RunThen(s, a + most, last);
      LastApart(b);
      Regroup(a, most, [last]);
    }
  }
}
