/** The server's registry: the table, the id counter, and the times of the last hello of each agent. */
module Registry {
  import opened Bytes
  import opened Decimal
  import opened Clients

  class Server {
    var rows: seq<ManagedClient>
    var nextAgentID: nat
    var helloLastSeen: map<string, nat>

    constructor (stored: seq<ManagedClient>)
      requires Unique(stored)
      ensures Valid() && rows == stored && nextAgentID == 1 && helloLastSeen == map[]
    {
      rows, nextAgentID, helloLastSeen := stored, 1, map[];
    }

    ghost predicate Valid()
      reads this
    {
      Unique(rows) && nextAgentID >= 1
    }

    /** Reads the whole table and restarts the counter above the largest three-character number. */
    method LoadClients() returns (clients: seq<ManagedClient>)
      requires Valid()
      modifies this`nextAgentID
      ensures Valid() && clients == rows
      ensures IsNext(rows, nextAgentID) && nextAgentID == NextAfter(rows)
    {
      clients := rows;
      var next := 1;
      for i := 0 to |clients|
        invariant IsNext(clients[..i], next)
      {
        if |clients[i].agentID| == 3 {
          var n := Atoi(clients[i].agentID);
          if n.Some? && n.value >= next {
            next := n.value + 1;
          }
        }
        assert clients[..i + 1] == clients[..i] + [clients[i]];
      }
      assert clients[..|clients|] == clients;
      nextAgentID := next;
      NextAfterIsNext(rows);
      NextIsUnique(rows, next, NextAfter(rows));
    }

    /** The counter in decimal: Atoi reads it back, and it has three characters exactly up to 999. */
    method GenAgentID() returns (id: string)
      requires Valid()
      modifies this`nextAgentID
      ensures Valid() && id == Padded(old(nextAgentID), 3) && nextAgentID == old(nextAgentID) + 1
      ensures Atoi(id) == Some(old(nextAgentID)) && (|id| == 3 <==> old(nextAgentID) <= 999)
      ensures Number(id) == if old(nextAgentID) <= 999 then Some(nextAgentID - 1) else None
    {
      assert Pow10(3) == 1000;
      PaddedWidth(nextAgentID, 3);
      AtoiOfPadded(nextAgentID, 3);
      id := Padded(nextAgentID, 3);
      nextAgentID := nextAgentID + 1;
    }

    method SaveClient(c: ManagedClient)
      requires Valid()
      modifies this`rows
      ensures Valid() && rows == InsertOrReplace(old(rows), c)
    {
      ReplaceKeepsUnique(rows, c);
      rows := InsertOrReplace(rows, c);
    }

    /** The shipped query names a column that the schema lacks, so it can fail; the error is dropped. */
    method FindClientByDevice(hardwareID: string, queryFails: bool) returns (found: Option<ManagedClient>)
      ensures found.Some? ==> !queryFails && found.value in rows && found.value.device.hardwareID == hardwareID
      ensures found.None? ==> queryFails || forall i :: 0 <= i < |rows| ==> rows[i].device.hardwareID != hardwareID
    {
      if queryFails {
        return None;
      }
      for i := 0 to |rows|
        invariant forall k :: 0 <= k < i ==> rows[k].device.hardwareID != hardwareID
      {
        if rows[i].device.hardwareID == hardwareID {
          return Some(rows[i]);
        }
      }
      return None;
    }

    /** The register request, as one step. uuid is the client id that a new row gets. */
    method Register(device: DeviceInfo, uuid: string, queryFails: bool) returns (clientID: string, agentID: string)
      requires Valid()
      modifies this`rows, this`nextAgentID
      ensures Valid()
      ensures nextAgentID == old(nextAgentID) <==>
              !queryFails && exists i :: 0 <= i < |old(rows)| && old(rows)[i].device.hardwareID == device.hardwareID
      ensures nextAgentID == old(nextAgentID) ==>
                && rows == old(rows)
                && exists r :: r in rows && r.device.hardwareID == device.hardwareID
                               && r.clientID == clientID && r.agentID == agentID
      ensures nextAgentID != old(nextAgentID) ==>
                && nextAgentID == old(nextAgentID) + 1
                && clientID == uuid && agentID == Padded(old(nextAgentID), 3)
                && rows == InsertOrReplace(old(rows), ManagedClient(clientID, agentID, device, "", None, false))
    {
      var found := FindClientByDevice(device.hardwareID, queryFails);
      if found.None? {
        clientID := uuid;
        agentID := GenAgentID();
        SaveClient(ManagedClient(clientID, agentID, device, "", None, false));
      } else {
        clientID, agentID := found.value.clientID, found.value.agentID;
      }
    }

    method AgentExists(agentID: string) returns (found: bool)
      ensures found <==> HasAgent(rows, agentID)
    {
      var count := 0;
      for i := 0 to |rows|
        invariant count > 0 <==> HasAgent(rows[..i], agentID)
      {
        if rows[i].agentID == agentID {
          count := count + 1;
          assert rows[..i + 1][i].agentID == agentID;
        }
        assert forall k :: 0 <= k < i ==> rows[..i + 1][k] == rows[..i][k];
      }
      assert rows[..|rows|] == rows;
      return count > 0;
    }

    /** The hello request: only a registered agent is remembered, and the empty id never is. */
    method Hello(agentID: string, now: nat) returns (accepted: bool)
      modifies this`helloLastSeen
      ensures accepted <==> agentID == "" || HasAgent(rows, agentID)
      ensures helloLastSeen == if accepted && agentID != "" then old(helloLastSeen)[agentID := now]
          else old(helloLastSeen)
    {
      if agentID != "" {
        var registered := AgentExists(agentID);
        if !registered {
          return false;
        }
        helloLastSeen := helloLastSeen[agentID := now];
      }
      return true;
    }

    /** The linear scan of the request_otp handler. */
    method FindClientID(agentID: string) returns (clientID: string)
      requires Valid()
      modifies this`nextAgentID
      ensures Valid() && nextAgentID == NextAfter(rows) && clientID == ScanForClientID(rows, agentID)
      ensures KeyedClientID(rows, agentID, clientID)
    {
      var clients := LoadClients();
      ScanIsKeyed(rows, agentID);
      clientID := "";
      for i := 0 to |clients|
        invariant ScanForClientID(clients, agentID) == ScanForClientID(clients[i..], agentID)
        invariant clientID == ""
      {
        if clients[i].agentID == agentID {
          clientID := clients[i].clientID;
          return;
        }
      }
    }

    method UpdateClientStatus(agentID: string, online: bool, lastSeen: Option<nat>)
      modifies this`rows
      ensures |rows| == |old(rows)|
      ensures forall i :: 0 <= i < |rows| && old(rows)[i].agentID != agentID ==> rows[i] == old(rows)[i]
      ensures forall i :: 0 <= i < |rows| && old(rows)[i].agentID == agentID ==>
                && rows[i].online == online && rows[i].lastSeen == lastSeen
                && rows[i].(online := old(rows)[i].online, lastSeen := old(rows)[i].lastSeen) == old(rows)[i]
    {
      rows := SetStatus(rows, agentID, online, lastSeen);
    }

    /** The first loop of the status scan, over its own copy of the table. */
    method MarkClients(stored: seq<ManagedClient>, now: nat) returns (clients: seq<ManagedClient>)
      ensures clients == ScanRows(stored, helloLastSeen, now)
    {
      clients := stored;
      for i := 0 to |clients|
        invariant |clients| == |stored|
        invariant forall k :: 0 <= k < i ==> clients[k] == ScanRow(stored[k], helloLastSeen, now)
        invariant forall k :: i <= k < |stored| ==> clients[k] == stored[k]
      {
        var c := clients[i];
        var isOnline := c.agentID in helloLastSeen && now - helloLastSeen[c.agentID] <= 30 * SECOND;
        c := c.(online := isOnline);
        if isOnline {
          c := c.(lastSeen := Some(helloLastSeen[c.agentID] / SECOND));
        }
        clients := clients[i := c];
      }
    }

    /** One turn of UpdateAgentStatusAndLog: mark a copy of the table, then write it back row by row. */
    method UpdateAgentStatus(now: nat)
      requires Valid()
      modifies this`rows, this`nextAgentID
      ensures Valid()
      ensures rows == ScanRows(old(rows), helloLastSeen, now)
      ensures StatusIsSet(old(rows), helloLastSeen, now, rows)
      ensures nextAgentID == NextAfter(old(rows))
    {
      ghost var before := rows;
      var clients := LoadClients();
      clients := MarkClients(clients, now);
      ScanChangesStatus(before, helloLastSeen, now);
      WriteBack(clients);
      ScanSetsStatus(before, helloLastSeen, now);
    }

    /** The second loop: the marked rows are written back one by one. */
    method WriteBack(clients: seq<ManagedClient>)
      requires Valid() && OnlyStatusDiffers(rows, clients)
      modifies this`rows
      ensures Valid() && rows == clients
    {
      ghost var before := rows;
      for i := 0 to |clients|
        invariant |rows| == |before|
        invariant forall k :: 0 <= k < i ==> rows[k] == clients[k]
        invariant forall k :: i <= k < |before| ==> rows[k] == before[k]
      {
        UpdateClientStatus(clients[i].agentID, clients[i].online, clients[i].lastSeen);
      }
      assert rows == clients;
    }
  }

  ghost predicate OnlyStatusDiffers(rows: seq<ManagedClient>, clients: seq<ManagedClient>) {
    && |rows| == |clients|
    && forall i :: 0 <= i < |rows| ==>
         clients[i] == rows[i].(online := clients[i].online, lastSeen := clients[i].lastSeen)
  }

  lemma ScanChangesStatus(rows: seq<ManagedClient>, hello: map<string, nat>, now: nat)
    ensures OnlyStatusDiffers(rows, ScanRows(rows, hello, now))
  {}

  /**
   Online are exactly the agents with a hello in the last 30 s, whose time is then recorded in seconds;
   another row keeps its time, and nothing else changes.
   */
  ghost predicate StatusIsSet(before: seq<ManagedClient>, hello: map<string, nat>, now: nat,
                              after: seq<ManagedClient>)
  {
    && |after| == |before|
    && forall i :: 0 <= i < |after| ==>
         var c := before[i];
         && (after[i].online <==> c.agentID in hello && now - hello[c.agentID] <= 30_000_000_000)
         && after[i].lastSeen == (if after[i].online then Some(hello[c.agentID] / 1_000_000_000) else c.lastSeen)
         && after[i].(online := c.online, lastSeen := c.lastSeen) == c
  }

  lemma ScanSetsStatus(rows: seq<ManagedClient>, hello: map<string, nat>, now: nat)
    ensures StatusIsSet(rows, hello, now, ScanRows(rows, hello, now))
  {}

  /** Registering the same device again changes nothing exactly when the lookup works. */
  method RegisterTwice(server: Server, device: DeviceInfo, uuid1: string, uuid2: string, fails1: bool, fails2: bool)
    returns (known: bool)
    requires server.Valid()
    modifies server
    ensures known <==> !fails2
  {
    var c1, a1 := server.Register(device, uuid1, fails1);
    ghost var between, counter := server.rows, server.nextAgentID;
    ghost var added := ManagedClient(c1, a1, device, "", None, false);
    assert exists i :: 0 <= i < |between| && between[i].device.hardwareID == device.hardwareID by {
      if between == InsertOrReplace(old(server.rows), added) {
        assert between[|between| - 1] == added;
      }
    }
    var before := server.nextAgentID;
    var c2, a2 := server.Register(device, uuid2, fails2);
    known := server.nextAgentID == before;
  }
}
