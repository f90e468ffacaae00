/**
 The managed_clients table: client_id is its primary key, agent_id is unique, and rows come back in
 the order in which they were inserted.
 */
module Clients {
  import opened Bytes
  import opened Decimal

  datatype DeviceInfo = DeviceInfo(hostName: string, ipAddress: string, macAddress: string, hardwareID: string)

  /** lastSeen is the recorded second, None standing for the empty string. */
  datatype ManagedClient = ManagedClient(
    clientID: string, agentID: string, device: DeviceInfo, userName: string, lastSeen: Option<nat>, online: bool)

  /** Both unique constraints of the schema. */
  predicate Unique(rows: seq<ManagedClient>) {
    forall i, j :: 0 <= i < j < |rows| ==>
      rows[i].clientID != rows[j].clientID && rows[i].agentID != rows[j].agentID
  }

  ghost predicate HasAgent(rows: seq<ManagedClient>, agentID: string) {
    exists i :: 0 <= i < |rows| && rows[i].agentID == agentID
  }

  ghost predicate HasClient(rows: seq<ManagedClient>, clientID: string) {
    exists i :: 0 <= i < |rows| && rows[i].clientID == clientID
  }

  /** The number of an agent id of three characters; the counter's scan looks at no other. */
  function Number(agentID: string): Option<int> {
    if |agentID| == 3 then Atoi(agentID) else None
  }

  /** The counter that the scan of LoadClients leaves: one above the largest number, and at least 1. */
  ghost predicate IsNext(rows: seq<ManagedClient>, next: int) {
    && next >= 1
    && (forall i :: 0 <= i < |rows| && Number(rows[i].agentID).Some? ==> Number(rows[i].agentID).value < next)
    && (next > 1 ==> exists i :: 0 <= i < |rows| && Number(rows[i].agentID) == Some(next - 1))
  }

  function NextAfter(rows: seq<ManagedClient>): (next: int)
    ensures next >= 1
  {
    if rows == [] then 1
    else
      var next := NextAfter(rows[..|rows| - 1]);
      match Number(rows[|rows| - 1].agentID)
      case Some(n) => if n >= next then n + 1 else next
      case None => next
  }

  lemma {:induction false} NextAfterIsNext(rows: seq<ManagedClient>)
    ensures IsNext(rows, NextAfter(rows))
  {
    if rows != [] {
      var front, last := rows[..|rows| - 1], |rows| - 1;
      NextAfterIsNext(front);
      if NextAfter(rows) == NextAfter(front) > 1 {
        var i :| 0 <= i < |front| && Number(front[i].agentID) == Some(NextAfter(front) - 1);
        assert rows[i] == front[i];
      }
      assert NextAfter(rows) != NextAfter(front) ==> Number(rows[last].agentID) == Some(NextAfter(rows) - 1);
    }
  }

  lemma NextIsUnique(rows: seq<ManagedClient>, a: int, b: int)
    requires IsNext(rows, a) && IsNext(rows, b)
    ensures a == b
  {
    if a > 1 {
      var i :| 0 <= i < |rows| && Number(rows[i].agentID) == Some(a - 1);
      assert a - 1 < b;
    }
    if b > 1 {
      var i :| 0 <= i < |rows| && Number(rows[i].agentID) == Some(b - 1);
      assert b - 1 < a;
    }
  }

  predicate Conflicts(row: ManagedClient, c: ManagedClient) {
    row.clientID == c.clientID || row.agentID == c.agentID
  }

  function Without(rows: seq<ManagedClient>, c: ManagedClient): (r: seq<ManagedClient>)
    ensures |r| <= |rows|
  {
    if rows == [] then []
    else
      var front, last := Without(rows[..|rows| - 1], c), rows[|rows| - 1];
      if Conflicts(last, c) then front else front + [last]
  }

  /** INSERT OR REPLACE: every row that clashes in either key is deleted first. */
  function InsertOrReplace(rows: seq<ManagedClient>, c: ManagedClient): seq<ManagedClient> {
    Without(rows, c) + [c]
  }

  lemma {:induction false} WithoutMeaning(rows: seq<ManagedClient>, c: ManagedClient)
    ensures Unique(rows) ==> Unique(Without(rows, c))
    ensures forall r :: r in Without(rows, c) <==> r in rows && !Conflicts(r, c)
  {
    if rows != [] {
      var front, last := rows[..|rows| - 1], rows[|rows| - 1];
      WithoutMeaning(front, c);
      assert rows == front + [last];
      if Unique(rows) && !Conflicts(last, c) {
        var kept := Without(front, c);
        forall i | 0 <= i < |kept| ensures !Conflicts(kept[i], last) {
          assert kept[i] in front;
        }
      }
    }
  }

  /** Replacing displaces nothing exactly when neither key of the new row is taken. */
  lemma ReplaceDisplacesNothingIff(rows: seq<ManagedClient>, c: ManagedClient)
    ensures InsertOrReplace(rows, c) == rows + [c] <==> !HasAgent(rows, c.agentID) && !HasClient(rows, c.clientID)
  {
    if HasAgent(rows, c.agentID) || HasClient(rows, c.clientID) {
      var i :| 0 <= i < |rows| && (rows[i].agentID == c.agentID || rows[i].clientID == c.clientID);
      WithoutMeaning(rows, c);
      assert rows[i] in rows && rows[i] !in Without(rows, c);
      assert (rows + [c])[..|rows|] == rows;
      assert InsertOrReplace(rows, c)[..|Without(rows, c)|] == Without(rows, c);
    } else {
      WithoutKeepsAll(rows, c);
    }
  }

  lemma {:induction false} WithoutKeepsAll(rows: seq<ManagedClient>, c: ManagedClient)
    requires forall i :: 0 <= i < |rows| ==> !Conflicts(rows[i], c)
    ensures Without(rows, c) == rows
  {
    if rows != [] {
      WithoutKeepsAll(rows[..|rows| - 1], c);
      assert rows == rows[..|rows| - 1] + [rows[|rows| - 1]];
    }
  }

  lemma ReplaceKeepsUnique(rows: seq<ManagedClient>, c: ManagedClient)
    requires Unique(rows)
    ensures Unique(InsertOrReplace(rows, c))
  {
    WithoutMeaning(rows, c);
    forall i | 0 <= i < |Without(rows, c)| ensures !Conflicts(Without(rows, c)[i], c) {
      assert Without(rows, c)[i] in Without(rows, c);
    }
  }

  /** DELETE ... WHERE client_id=?. */
  function Remove(rows: seq<ManagedClient>, clientID: string): (r: seq<ManagedClient>) {
    if rows == [] then []
    else
      var front, last := Remove(rows[..|rows| - 1], clientID), rows[|rows| - 1];
      if last.clientID == clientID then front else front + [last]
  }

  lemma {:induction false} RemoveMeaning(rows: seq<ManagedClient>, clientID: string)
    ensures Unique(rows) ==> Unique(Remove(rows, clientID))
    ensures forall r :: r in Remove(rows, clientID) <==> r in rows && r.clientID != clientID
  {
    if rows != [] {
      var front, last := rows[..|rows| - 1], rows[|rows| - 1];
      RemoveMeaning(front, clientID);
      assert rows == front + [last];
      if Unique(rows) && last.clientID != clientID {
        var kept := Remove(front, clientID);
        forall i | 0 <= i < |kept| ensures !Conflicts(kept[i], last) {
          assert kept[i] in front;
        }
      }
    }
  }

  /** UPDATE ... SET online=?, last_seen=? WHERE agent_id=?. */
  function SetStatus(rows: seq<ManagedClient>, agentID: string, online: bool,
      lastSeen: Option<nat>): (r: seq<ManagedClient>)
    ensures |r| == |rows|
  {
    seq(|rows|, i requires 0 <= i < |rows| =>
      if rows[i].agentID == agentID then rows[i].(online := online, lastSeen := lastSeen) else rows[i])
  }

  const SECOND := 1_000_000_000

  /** One row of the status scan: online means a hello at most 30 s ago, whose second is then recorded. */
  function ScanRow(row: ManagedClient, hello: map<string, nat>, now: nat): ManagedClient {
    if row.agentID in hello && now - hello[row.agentID] <= 30 * SECOND
    then row.(online := true, lastSeen := Some(hello[row.agentID] / SECOND))
    else row.(online := false)
  }

  function ScanRows(rows: seq<ManagedClient>, hello: map<string, nat>, now: nat): (r: seq<ManagedClient>)
    ensures |r| == |rows|
  {
    seq(|rows|, i requires 0 <= i < |rows| => ScanRow(rows[i], hello, now))
  }

  function AssignUser(rows: seq<ManagedClient>, clientID: string, userName: string): (r: seq<ManagedClient>)
    ensures |r| == |rows|
  {
    seq(|rows|, i requires 0 <= i < |rows| =>
      if rows[i].clientID == clientID then rows[i].(userName := userName) else rows[i])
  }

  /** Non-empty fields of the patch, and its online flag, over the stored row. */
  function Merge(existing: ManagedClient, patch: ManagedClient): ManagedClient {
    ManagedClient(
      existing.clientID,
      if patch.agentID != "" then patch.agentID else existing.agentID,
      if patch.device.hardwareID != "" then existing.device.(hardwareID := patch.device.hardwareID)
        else existing.device,
      if patch.userName != "" then patch.userName else existing.userName,
      if patch.lastSeen.Some? then patch.lastSeen else existing.lastSeen,
      patch.online)
  }

  function MergeInto(rows: seq<ManagedClient>, patch: ManagedClient): (r: seq<ManagedClient>)
    ensures |r| == |rows|
  {
    seq(|rows|, i requires 0 <= i < |rows| =>
      if rows[i].clientID == patch.clientID then Merge(rows[i], patch) else rows[i])
  }

  /**
   ClientUpdate writes the fields of the patch that differ from the row it found, existing, over the
   row that is stored when the statement is executed.
   */
  function Patched(stored: ManagedClient, existing: ManagedClient, patch: ManagedClient): ManagedClient {
    var hardwareID := patch.device.hardwareID;
    ManagedClient(
      stored.clientID,
      if patch.agentID != "" && patch.agentID != existing.agentID then patch.agentID else stored.agentID,
      if hardwareID != "" && hardwareID != existing.device.hardwareID
      then stored.device.(hardwareID := hardwareID) else stored.device,
      if patch.userName != "" && patch.userName != existing.userName then patch.userName else stored.userName,
      if patch.lastSeen.Some? && patch.lastSeen != existing.lastSeen then patch.lastSeen else stored.lastSeen,
      if patch.online != existing.online then patch.online else stored.online)
  }

  /** With nothing in between the update is the merge. */
  lemma PatchedIsMerge(existing: ManagedClient, patch: ManagedClient)
    ensures Patched(existing, existing, patch) == Merge(existing, patch)
  {
    var hardwareID := patch.device.hardwareID;
    assert hardwareID == existing.device.hardwareID ==> existing.device.(hardwareID := hardwareID) == existing.device;
  }

  function PatchInto(rows: seq<ManagedClient>, existing: ManagedClient, patch: ManagedClient): (r: seq<ManagedClient>)
    ensures |r| == |rows|
  {
    seq(|rows|, i requires 0 <= i < |rows| =>
      if rows[i].clientID == patch.clientID then Patched(rows[i], existing, patch) else rows[i])
  }

  /** The row with this client id. */
  function FindClient(rows: seq<ManagedClient>, clientID: string): (found: Option<ManagedClient>)
    ensures found.Some? ==> exists i :: 0 <= i < |rows| && rows[i] == found.value && rows[i].clientID == clientID
    ensures found.None? ==> forall i :: 0 <= i < |rows| ==> rows[i].clientID != clientID
  {
    if rows == [] then None
    else if rows[|rows| - 1].clientID == clientID then Some(rows[|rows| - 1])
    else
      var found := FindClient(rows[..|rows| - 1], clientID);
      assert forall i :: 0 <= i < |rows| - 1 ==> rows[i] == rows[..|rows| - 1][i];
      found
  }

  /** The client id of the first row with this agent id, as the scan for REQUEST_OTP finds it. */
  function ScanForClientID(rows: seq<ManagedClient>, agentID: string): string {
    if rows == [] then ""
    else if rows[0].agentID == agentID then rows[0].clientID
    else ScanForClientID(rows[1..], agentID)
  }

  /** What SELECT client_id ... WHERE agent_id=? may give: the id of any matching row, or nothing. */
  ghost predicate KeyedClientID(rows: seq<ManagedClient>, agentID: string, clientID: string) {
    if HasAgent(rows, agentID)
    then exists i :: 0 <= i < |rows| && rows[i].agentID == agentID && rows[i].clientID == clientID
    else clientID == ""
  }

  lemma {:induction false} ScanIsKeyed(rows: seq<ManagedClient>, agentID: string)
    ensures KeyedClientID(rows, agentID, ScanForClientID(rows, agentID))
  {
    if rows != [] && rows[0].agentID != agentID {
      ScanIsKeyed(rows[1..], agentID);
      HasAgentInRest(rows, agentID);
      if HasAgent(rows, agentID) {
        var k :| 0 <= k < |rows[1..]| && rows[1..][k].agentID == agentID
          && rows[1..][k].clientID == ScanForClientID(rows, agentID);
        assert rows[k + 1] == rows[1..][k];
      }
    }
  }

  lemma HasAgentInRest(rows: seq<ManagedClient>, agentID: string)
    requires rows != [] && rows[0].agentID != agentID
    ensures HasAgent(rows, agentID) <==> HasAgent(rows[1..], agentID)
  {
    assert forall k :: 0 < k < |rows| ==> rows[k] == rows[1..][k - 1];
  }

  /** On a table that keeps its constraints the linear scan and the keyed lookup agree for every id. */
  lemma {:induction false} LookupsAgree(rows: seq<ManagedClient>, agentID: string, clientID: string)
    requires Unique(rows)
    ensures KeyedClientID(rows, agentID, clientID) <==> clientID == ScanForClientID(rows, agentID)
  {
    ScanIsKeyed(rows, agentID);
  }

  /** The id that the counter gives is in no row, as long as the counter is above every number and below 1000. */
  lemma DrawnIdIsFree(rows: seq<ManagedClient>, n: nat)
    requires n < 1000
    requires forall i :: 0 <= i < |rows| && Number(rows[i].agentID).Some? ==> Number(rows[i].agentID).value < n
    ensures Number(Padded(n, 3)) == Some(n)
    ensures !HasAgent(rows, Padded(n, 3))
  {
    assert Pow10(3) == 1000;
    PaddedWidth(n, 3);
    AtoiOfPadded(n, 3);
  }

  /**
   Right after LoadClients, the id drawn next belongs to a stored row exactly when the counter stands
   at 1000 and "1000" is stored: the scan does not see ids of four characters.
   */
  lemma DrawnIdIsTakenIff(rows: seq<ManagedClient>, next: int)
    requires IsNext(rows, next)
    ensures HasAgent(rows, Padded(next, 3)) <==> next == 1000 && HasAgent(rows, "1000")
  {
    if next > 1 {
      var i :| 0 <= i < |rows| && Number(rows[i].agentID) == Some(next - 1);
      AtoiOfThree(rows[i].agentID);
    }
    if next < 1000 {
      DrawnIdIsFree(rows, next);
    } else {
      assert Padded(1000, 3) == "1000" by {
        assert Digits(1) == "1" && Digits(10) == "10" && Digits(100) == "100" && Digits(1000) == "1000";
      }
    }
  }
}
