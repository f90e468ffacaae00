/**
 What the methods of the registry and of its repository do when nothing comes in between is a run of
 RegistryRuns, step by step: with the same table, counter and hello times afterwards.
 */
module RegistrySteps {
  import opened Bytes
  import opened Clients
  import opened RegistryRuns
  import ClientRepository
  import Registry

  ghost predicate Shows(s: State, server: Registry.Server)
    reads server
  {
    s.rows == server.rows && s.next == server.nextAgentID && s.hello == server.helloLastSeen
  }

  /** A registration is a draw and a save, or nothing if the device is found. */
  method Register(server: Registry.Server, ghost s: State, device: DeviceInfo, uuid: string, queryFails: bool)
    returns (clientID: string, agentID: string, ghost t: State)
    requires server.Valid() && Shows(s, server) && s.pending == [] && uuid !in s.issued
    modifies server
    ensures server.Valid() && Shows(t, server)
    ensures t == s || Run(s, Registration(device, uuid)) == Some(t)
    ensures t == s <==> !queryFails && exists i :: 0 <= i < |s.rows| && s.rows[i].device.hardwareID == device.hardwareID
  {
    clientID, agentID := server.Register(device, uuid, queryFails);
    t := s;
    if server.nextAgentID != s.next {
      t := RegistrationRun(s, device, uuid);
    }
  }

  /** A load is its two halves. */
  method LoadClients(server: Registry.Server, ghost s: State) returns (clients: seq<ManagedClient>, ghost t: State)
    requires server.Valid() && Shows(s, server)
    modifies server
    ensures server.Valid() && Shows(t, server) && clients == s.rows
    ensures Run(s, [ReadTable, SetCounter(|s.loads|)]) == Some(t)
  {
    clients := server.LoadClients();
    t := LoadRun(s);
  }

  lemma LoadRun(s: State) returns (t: State)
    ensures Run(s, [ReadTable, SetCounter(|s.loads|)]) == Some(t)
    ensures t == s.(next := NextAfter(s.rows), loaded := true)
  {
    t := AfterLoad(s);
    TraceIsRun([ReadTable, SetCounter(|s.loads|)], [s, AfterRead(s), t], 2);
  }

  /** A hello is one step, at the time the clock shows by then. */
  method Hello(server: Registry.Server, ghost s: State, agentID: string, now: nat)
    returns (accepted: bool, ghost t: State)
    requires Shows(s, server) && now >= s.now
    modifies server
    ensures Shows(t, server) && t.now == now
    ensures Run(s, [Tick(now - s.now), RegistryRuns.Action.Hello(agentID)]) == Some(t)
    ensures accepted && agentID != "" ==> (agentID, now) in t.hellos
  {
    accepted := server.Hello(agentID, now);
    ghost var s1 := Step(s, Tick(now - s.now)).value;
    t := Step(s1, RegistryRuns.Action.Hello(agentID)).value;
    TraceIsRun([Tick(now - s.now), RegistryRuns.Action.Hello(agentID)], [s, s1, t], 2);
  }

  /** A turn of the status goroutine is a load and a scan. */
  method UpdateAgentStatus(server: Registry.Server, ghost s: State, now: nat) returns (ghost t: State)
    requires server.Valid() && Shows(s, server) && s.now == now
    modifies server
    ensures server.Valid() && Shows(t, server)
    ensures Run(s, [ReadTable, SetCounter(|s.loads|), Scan]) == Some(t)
  {
    server.UpdateAgentStatus(now);
    ghost var s1 := LoadRun(s);
    t := Step(s1, Scan).value;
    RunStep(s, [ReadTable, SetCounter(|s.loads|)], Scan, s1, t);
    assert [ReadTable, SetCounter(|s.loads|)] + [Scan] == [ReadTable, SetCounter(|s.loads|), Scan];
  }

  /** Deleting a client is one step. */
  method DeleteClient(repository: ClientRepository.Repository, ghost s: State, clientID: string)
    returns (ghost t: State)
    requires repository.Valid() && s.rows == repository.rows && clientID != ""
    modifies repository
    ensures repository.Valid() && t.rows == repository.rows && Step(s, Delete(clientID)) == Some(t)
  {
    var _ := repository.ClientDeleteByID(clientID);
    t := Step(s, Delete(clientID)).value;
  }

  /** Assigning a user is three steps, or nothing if it is refused. */
  method AssignUserToClient(repository: ClientRepository.Repository, ghost s: State, clientID: string, userName: string)
    returns (r: ClientRepository.Outcome, ghost row: nat, ghost t: State)
    requires repository.Valid() && s.rows == repository.rows
    modifies repository
    ensures repository.Valid() && t == s.(rows := repository.rows)
    ensures r.Done? ==>
              && row < |s.rows| && s.rows[row].clientID == clientID
              && Run(s, Assign(s, row, userName)) == Some(t)
    ensures !r.Done? ==> t == s
  {
    r := repository.AssignUserToClientByClientID(clientID, userName);
    row, t := 0, s;
    if r.Done? {
      row :| 0 <= row < |s.rows| && s.rows[row].clientID == clientID;
      t := AssignRun(s, row, userName);
    }
  }

  /** The service reads a row, the repository compares it, and the statement writes. */
  function Assign(s: State, row: nat, userName: string): seq<Action> {
    [ReadRow(row, userName), CompareRow(|s.assigning|), WriteRow(|s.assigning|)]
  }

  lemma AssignRun(s: State, row: nat, userName: string) returns (t: State)
    requires Unique(s.rows) && row < |s.rows| && s.rows[row].clientID != "" && userName != ""
    ensures Run(s, Assign(s, row, userName)) == Some(t)
    ensures t == s.(rows := AssignUser(s.rows, s.rows[row].clientID, userName))
  {
    var read, n := s.rows[row], |s.assigning|;
    var patch := read.(userName := userName);
    var s1 := s.(assigning := s.assigning + [Assignment(patch, None)]);
    var s2 := s.(assigning := s.assigning + [Assignment(patch, Some(read))]);
    t := s.(rows := AssignUser(s.rows, read.clientID, userName));
    FoundIsRow(s.rows, row);
    assert s1.assigning[n := Assignment(patch, Some(read))] == s2.assigning;
    WritesUser(s.rows, row, userName);
    assert Dropped(s2.assigning, n) == s.assigning;
    TraceIsRun(Assign(s, row, userName), [s, s1, s2, t], 3);
  }

  /** An assignment to a client that is deleted before the repository looks it up is given up. */
  lemma {:induction false} DeletedAssignmentIsDropped(s: State, row: nat, userName: string)
    requires Unique(s.rows) && row < |s.rows| && userName != ""
    ensures var id := s.rows[row].clientID;
            Run(s, [ReadRow(row, userName), Delete(id), CompareRow(|s.assigning|)]) ==
            Some(s.(rows := Remove(s.rows, id)))
  {
    var id, n := s.rows[row].clientID, |s.assigning|;
    var s1 := s.(assigning := s.assigning + [Assignment(s.rows[row].(userName := userName), None)]);
    var s2 := Step(s1, Delete(id)).value;
    var t := s.(rows := Remove(s.rows, id));
    RemovedIsNotFound(s.rows, id);
    GivesUp(s2, s.assigning, s1.assigning[n]);
    TraceIsRun([ReadRow(row, userName), Delete(id), CompareRow(n)], [s, s1, s2, t], 3);
  }

  /** So is one to a row without a client id. */
  lemma {:induction false} AnonymousAssignmentIsDropped(s: State, row: nat, userName: string)
    requires row < |s.rows| && s.rows[row].clientID == "" && userName != ""
    ensures Run(s, [ReadRow(row, userName), CompareRow(|s.assigning|)]) == Some(s)
  {
    var n := |s.assigning|;
    var s1 := s.(assigning := s.assigning + [Assignment(s.rows[row].(userName := userName), None)]);
    assert Dropped(s1.assigning, n) == s.assigning;
    TraceIsRun([ReadRow(row, userName), CompareRow(n)], [s, s1, s], 2);
  }

  lemma {:induction false} RemovedIsNotFound(rows: seq<ManagedClient>, id: string)
    requires Unique(rows)
    ensures FindClient(Remove(rows, id), id) == None
  {
    RemoveMeaning(rows, id);
    var left := Remove(rows, id);
    forall i | 0 <= i < |left| ensures left[i].clientID != id {
      assert left[i] in left;
    }
  }

  lemma GivesUp(s: State, others: seq<Assignment>, x: Assignment)
    requires s.assigning == others + [x] && x.existing == None && FindClient(s.rows, x.patch.clientID) == None
    ensures Step(s, CompareRow(|others|)) == Some(s.(assigning := others))
  {
    assert Dropped(s.assigning, |others|) == others;
  }

  lemma {:induction false} FoundIsRow(rows: seq<ManagedClient>, i: nat)
    requires Unique(rows) && i < |rows|
    ensures FindClient(rows, rows[i].clientID) == Some(rows[i])
  {
    var found := FindClient(rows, rows[i].clientID);
    var k :| 0 <= k < |rows| && rows[k] == found.value && rows[k].clientID == rows[i].clientID;
    assert k == i;
  }

  lemma WritesUser(rows: seq<ManagedClient>, row: nat, userName: string)
    requires Unique(rows) && row < |rows| && userName != ""
    ensures PatchInto(rows, rows[row], rows[row].(userName := userName)) ==
            AssignUser(rows, rows[row].clientID, userName)
    ensures Unique(AssignUser(rows, rows[row].clientID, userName))
  {
    var read, patch := rows[row], rows[row].(userName := userName);
    var written, wanted := PatchInto(rows, read, patch), AssignUser(rows, read.clientID, userName);
    forall i | 0 <= i < |rows| ensures written[i] == wanted[i] {
      if rows[i].clientID == read.clientID {
        assert i == row;
      }
    }
  }
}
