/**
 The repositories' dynamic UPDATE statements. The text of the SET list is built here as the code
 builds it; ParseSet and ExecUpdate are the database's side, written independently of it: it reads
 the column names back out of the text and binds the arguments to the placeholders by position.
 */
module SqlUpdate {
  import opened Bytes

  datatype Value = Text(text: string) | Integer(n: int)

  predicate IsNameChar(c: char) {
    'a' <= c <= 'z' || c == '_'
  }

  predicate IsName(s: string) {
    s != [] && forall c :: c in s ==> IsNameChar(c)
  }

  function Placeholder(name: string): string {
    name + "=?"
  }

  function Placeholders(names: seq<string>): (fields: seq<string>)
    ensures |fields| == |names|
  {
    seq(|names|, i requires 0 <= i < |names| => Placeholder(names[i]))
  }

  function Joined(fields: seq<string>): string {
    if fields == [] then ""
    else if |fields| == 1 then fields[0]
    else fields[0] + ", " + Joined(fields[1..])
  }

  lemma {:induction false} JoinedAppend(fields: seq<string>, field: string)
    requires fields != []
    ensures Joined(fields + [field]) == Joined(fields) + ", " + field
  {
    if |fields| == 1 {
      assert (fields + [field])[1..] == [field];
    } else {
      JoinedAppend(fields[1..], field);
      assert (fields + [field])[1..] == fields[1..] + [field];
      var a, b := fields[0] + ", ", Joined(fields[1..]);
      assert a + ((b + ", ") + field) == ((a + b) + ", ") + field;
    }
  }

  /** joinFields. */
  method JoinFields(fields: seq<string>) returns (result: string)
    ensures result == Joined(fields)
  {
    if |fields| == 0 {
      return "";
    }
    result := fields[0];
    for i := 1 to |fields|
      invariant result == Joined(fields[..i])
    {
      JoinedAppend(fields[..i], fields[i]);
      assert fields[..i + 1] == fields[..i] + [fields[i]];
      result := result + ", " + fields[i];
    }
    assert fields[..|fields|] == fields;
  }

  function NameLength(text: string): (n: nat)
    ensures n <= |text|
  {
    if text == [] || !IsNameChar(text[0]) then 0 else 1 + NameLength(text[1..])
  }

  function SkipSpaces(text: string): (r: string)
    ensures |r| <= |text|
  {
    if text == [] || text[0] != ' ' then text else SkipSpaces(text[1..])
  }

  /** A SET list of the form name=?, name=?, ...: the names in order. */
  function ParseSet(text: string): Option<seq<string>>
    decreases |text|
  {
    var n := NameLength(text);
    var rest := text[n..];
    if n == 0 || |rest| < 2 || rest[0] != '=' || rest[1] != '?' then None
    else if |rest| == 2 then Some([text[..n]])
    else if rest[2] != ',' then None
    else
      match ParseSet(SkipSpaces(rest[3..]))
      case Some(names) => Some([text[..n]] + names)
      case None => None
  }

  lemma {:induction false} NameEnds(name: string, rest: string)
    requires forall c :: c in name ==> IsNameChar(c)
    requires rest != [] && !IsNameChar(rest[0])
    ensures NameLength(name + rest) == |name|
  {
    if name == [] {
      assert name + rest == rest;
    } else {
      assert (name + rest)[1..] == name[1..] + rest;
      NameEnds(name[1..], rest);
    }
  }

  lemma ParseLast(name: string)
    requires IsName(name)
    ensures ParseSet(Placeholder(name)) == Some([name])
  {
    NameEnds(name, "=?");
    assert Placeholder(name)[|name|..] == "=?" && Placeholder(name)[..|name|] == name;
  }

  lemma {:induction false} SkipOneSpace(others: string)
    requires others != [] && others[0] != ' '
    ensures SkipSpaces([' '] + others) == others
  {
    assert ([' '] + others)[1..] == others;
  }

  lemma {:induction false} ParseFirst(name: string, text: string, others: string)
    requires IsName(name) && others != [] && others[0] != ' '
    requires text == name + ("=?, " + others)
    ensures ParseSet(text) == match ParseSet(others) case Some(names) => Some([name] + names) case None => None
  {
    var tail := "=?, " + others;
    NameEnds(name, tail);
    assert text[|name|..] == tail && text[..|name|] == name;
    assert tail[3..] == [' '] + others;
    SkipOneSpace(others);
  }

  /** The database reads back exactly the columns that were joined, in their order. */
  lemma {:induction false} ParseOfJoined(names: seq<string>)
    requires names != [] && forall i :: 0 <= i < |names| ==> IsName(names[i])
    ensures ParseSet(Joined(Placeholders(names))) == Some(names)
  {
    if |names| == 1 {
      ParseLast(names[0]);
      assert names == [names[0]];
    } else {
      ParseOfJoined(names[1..]);
      StartsWithName(names[1..]);
      var others := Joined(Placeholders(names[1..]));
      assert Placeholders(names)[1..] == Placeholders(names[1..]);
      assert Joined(Placeholders(names)) == names[0] + ("=?, " + others);
      ParseFirst(names[0], Joined(Placeholders(names)), others);
      assert names == [names[0]] + names[1..];
    }
  }

  lemma StartsWithName(names: seq<string>)
    requires names != [] && forall i :: 0 <= i < |names| ==> IsName(names[i])
    ensures Joined(Placeholders(names)) != [] && Joined(Placeholders(names))[0] != ' '
  {
    var text, name := Joined(Placeholders(names)), names[0];
    assert text[0] == name[0] && name[0] in name;
  }

  /** A table: its columns, how one is set, and the column the WHERE clause compares. */
  datatype Table<!R> = Table(columns: set<string>, setColumn: (R, string, Value) -> R, key: R -> string)

  function SetAll<R>(t: Table<R>, row: R, names: seq<string>, args: seq<Value>): R
    requires |names| == |args|
  {
    if names == [] then row
    else
      var last := |names| - 1;
      t.setColumn(SetAll(t, row, names[..last], args[..last]), names[last], args[last])
  }

  /** UPDATE ... SET <text> WHERE <key>=?, with its arguments; None is an SQL error. */
  function ExecUpdate<R>(t: Table<R>, rows: seq<R>, text: string, args: seq<Value>): Option<seq<R>> {
    match ParseSet(text)
    case None => None
    case Some(names) =>
      if |args| != |names| + 1 || exists n :: n in names && n !in t.columns then None
      else
        var key, values := args[|names|], args[..|names|];
        Some(seq(|rows|, i requires 0 <= i < |rows| =>
          if Text(t.key(rows[i])) == key then SetAll(t, rows[i], names, values) else rows[i]))
  }

  /** What the code keeps while it collects fields: names and arguments pair up, giving this row. */
  ghost predicate Collected<R>(t: Table<R>, row: R, fields: seq<string>, args: seq<Value>, names: seq<string>,
      result: R) {
    && |args| == |names| && fields == Placeholders(names)
    && (forall i :: 0 <= i < |names| ==> IsName(names[i]) && names[i] in t.columns)
    && SetAll(t, row, names, args) == result
  }

  lemma Collect<R>(
    t: Table<R>, row: R, fields: seq<string>, args: seq<Value>, names: seq<string>, result: R, name: string,
      value: Value)
    requires Collected(t, row, fields, args, names, result)
    requires IsName(name) && name in t.columns
    ensures Collected(t, row, fields + [Placeholder(name)], args + [value], names + [name],
        t.setColumn(result, name, value))
  {
    assert (names + [name])[..|names|] == names && (args + [value])[..|args|] == args;
    assert Placeholders(names + [name]) == Placeholders(names) + [Placeholder(name)];
  }

  /** Executing the collected statement merges into the keyed rows and leaves the others alone. */
  lemma {:induction false} ExecCollected<R>(
    t: Table<R>, rows: seq<R>, fields: seq<string>, args: seq<Value>, names: seq<string>, key: string, merged: seq<R>)
    requires fields != [] && |args| == |names| && fields == Placeholders(names)
    requires forall i :: 0 <= i < |names| ==> IsName(names[i]) && names[i] in t.columns
    requires |merged| == |rows|
    requires forall i :: 0 <= i < |rows| ==>
               merged[i] == if t.key(rows[i]) == key then SetAll(t, rows[i], names, args) else rows[i]
    ensures ExecUpdate(t, rows, Joined(fields), args + [Text(key)]) == Some(merged)
  {
    ParseOfJoined(names);
    var all := args + [Text(key)];
    assert all[..|names|] == args && all[|names|] == Text(key);
    assert forall n :: n in names ==> n in t.columns;
    var updated := ExecUpdate(t, rows, Joined(fields), all);
    assert updated.Some? && updated.value == merged;
  }

  /** A statement that sets a column the table does not have, or whose arguments do not match, is refused. */
  lemma {:induction false} ExecRefuses<R>(t: Table<R>, rows: seq<R>, args: seq<Value>, names: seq<string>)
    requires names != [] && forall i :: 0 <= i < |names| ==> IsName(names[i])
    ensures ExecUpdate(t, rows, Joined(Placeholders(names)), args) == None <==>
            |args| != |names| + 1 || exists i :: 0 <= i < |names| && names[i] !in t.columns
  {
    ParseOfJoined(names);
  }
}

/** The REST side of the client table: sqliteClientRepository and the service above it. */
module ClientRepository {
  import opened Bytes
  import opened Clients
  import opened SqlUpdate

  datatype Outcome = Done | NoRows | NotFound | Required | Constraint

  function SetColumn(c: ManagedClient, name: string, v: Value): ManagedClient {
    if name == "agent_id" && v.Text? then c.(agentID := v.text)
    else if name == "hardware_id" && v.Text? then c.(device := c.device.(hardwareID := v.text))
    else if name == "user_name" && v.Text? then c.(userName := v.text)
    else if name == "last_seen" && v.Integer? && v.n >= 0 then c.(lastSeen := Some(v.n))
    else if name == "online" && v.Integer? then c.(online := v.n == 1)
    else c
  }

  function ClientTable(): Table<ManagedClient> {
    Table({"client_id", "agent_id", "hardware_id", "host_name", "ip_address", "mac_address", "user_name",
      "last_seen", "online"},
          SetColumn, (c: ManagedClient) => c.clientID)
  }

  ghost predicate Gathered(existing: ManagedClient, fields: seq<string>, args: seq<Value>, names: seq<string>,
      row: ManagedClient) {
    Collected(ClientTable(), existing, fields, args, names, row)
  }

  lemma Gather(
    existing: ManagedClient, fields: seq<string>, args: seq<Value>, names: seq<string>, row: ManagedClient,
    name: string, text: string, value: Value)
    requires Gathered(existing, fields, args, names, row)
    requires IsName(name) && name in ClientTable().columns && text == Placeholder(name)
    ensures Gathered(existing, fields + [text], args + [value], names + [name], SetColumn(row, name, value))
  {
    Collect(ClientTable(), existing, fields, args, names, row, name, value);
  }

  lemma GatherAgentID(
    existing: ManagedClient, fields: seq<string>, args: seq<Value>, names: seq<string>, row: ManagedClient,
      value: string)
    requires Gathered(existing, fields, args, names, row)
    ensures Gathered(existing, fields + ["agent_id=?"], args + [Text(value)], names + ["agent_id"],
        row.(agentID := value))
  {
    Gather(existing, fields, args, names, row, "agent_id", "agent_id=?", Text(value));
  }

  lemma GatherHardwareID(
    existing: ManagedClient, fields: seq<string>, args: seq<Value>, names: seq<string>, row: ManagedClient,
      value: string)
    requires Gathered(existing, fields, args, names, row)
    ensures Gathered(existing, fields + ["hardware_id=?"], args + [Text(value)], names + ["hardware_id"],
        row.(device := row.device.(hardwareID := value)))
  {
    Gather(existing, fields, args, names, row, "hardware_id", "hardware_id=?", Text(value));
  }

  lemma GatherUserName(
    existing: ManagedClient, fields: seq<string>, args: seq<Value>, names: seq<string>, row: ManagedClient,
      value: string)
    requires Gathered(existing, fields, args, names, row)
    ensures Gathered(existing, fields + ["user_name=?"], args + [Text(value)], names + ["user_name"],
        row.(userName := value))
  {
    Gather(existing, fields, args, names, row, "user_name", "user_name=?", Text(value));
  }

  lemma GatherLastSeen(
    existing: ManagedClient, fields: seq<string>, args: seq<Value>, names: seq<string>, row: ManagedClient, value: nat)
    requires Gathered(existing, fields, args, names, row)
    ensures Gathered(existing, fields + ["last_seen=?"], args + [Integer(value)], names + ["last_seen"],
        row.(lastSeen := Some(value)))
  {
    Gather(existing, fields, args, names, row, "last_seen", "last_seen=?", Integer(value));
  }

  lemma GatherOnline(
    existing: ManagedClient, fields: seq<string>, args: seq<Value>, names: seq<string>, row: ManagedClient, value: bool)
    requires Gathered(existing, fields, args, names, row)
    ensures Gathered(existing, fields + ["online=?"], args + [Integer(if value then 1 else 0)], names + ["online"],
        row.(online := value))
  {
    Gather(existing, fields, args, names, row, "online", "online=?", Integer(if value then 1 else 0));
  }

  /**
   The SET list and its arguments; names says which columns they are. stored is the row as it is when
   the statement is executed, which another connection may have changed since existing was read.
   */
  method CollectFields(client: ManagedClient, existing: ManagedClient, ghost stored: ManagedClient)
    returns (fields: seq<string>, args: seq<Value>, ghost names: seq<string>)
    ensures Gathered(stored, fields, args, names, Patched(stored, existing, client))
    ensures fields == [] ==> Patched(stored, existing, client) == stored
  {
    fields, args, names := [], [], [];
    ghost var row := stored;
    if client.agentID != "" && client.agentID != existing.agentID {
      GatherAgentID(stored, fields, args, names, row, client.agentID);
      fields, args := fields + ["agent_id=?"], args + [Text(client.agentID)];
      names, row := names + ["agent_id"], row.(agentID := client.agentID);
    }
    if client.device.hardwareID != "" && client.device.hardwareID != existing.device.hardwareID {
      GatherHardwareID(stored, fields, args, names, row, client.device.hardwareID);
      fields, args := fields + ["hardware_id=?"], args + [Text(client.device.hardwareID)];
      names, row := names + ["hardware_id"], row.(device := row.device.(hardwareID := client.device.hardwareID));
    }
    if client.userName != "" && client.userName != existing.userName {
      GatherUserName(stored, fields, args, names, row, client.userName);
      fields, args := fields + ["user_name=?"], args + [Text(client.userName)];
      names, row := names + ["user_name"], row.(userName := client.userName);
    }
    if client.lastSeen.Some? && client.lastSeen != existing.lastSeen {
      GatherLastSeen(stored, fields, args, names, row, client.lastSeen.value);
      fields, args := fields + ["last_seen=?"], args + [Integer(client.lastSeen.value)];
      names, row := names + ["last_seen"], row.(lastSeen := client.lastSeen);
    }
    if client.online != existing.online {
      GatherOnline(stored, fields, args, names, row, client.online);
      fields, args := fields + ["online=?"], args + [Integer(if client.online then 1 else 0)];
      names, row := names + ["online"], row.(online := client.online);
    }
  }

  /**
   Other rows stay. Of the client's row, agent id, hardware id, user name and last-seen time are set if
   they are given and stay if they are empty, online is always set, and the rest stays.
   */
  ghost predicate OnlyGivenFieldsChange(before: seq<ManagedClient>, given: ManagedClient, after: seq<ManagedClient>) {
    && |after| == |before|
    && (forall i :: 0 <= i < |after| && before[i].clientID != given.clientID ==> after[i] == before[i])
    && forall i :: 0 <= i < |after| && before[i].clientID == given.clientID ==>
         && after[i].agentID == (if given.agentID == "" then before[i].agentID else given.agentID)
         && after[i].userName == (if given.userName == "" then before[i].userName else given.userName)
         && after[i].lastSeen == (if given.lastSeen == None then before[i].lastSeen else given.lastSeen)
         && after[i].device.hardwareID ==
            (if given.device.hardwareID == "" then before[i].device.hardwareID else given.device.hardwareID)
         && after[i].device.(hardwareID := before[i].device.hardwareID) == before[i].device
         && after[i].online == given.online && after[i].clientID == before[i].clientID
  }

  lemma MergeChangesGivenFields(rows: seq<ManagedClient>, given: ManagedClient)
    ensures OnlyGivenFieldsChange(rows, given, MergeInto(rows, given))
  {}

  class Repository {
    var rows: seq<ManagedClient>

    constructor (stored: seq<ManagedClient>)
      requires Unique(stored)
      ensures Valid() && rows == stored
    {
      rows := stored;
    }

    ghost predicate Valid()
      reads this
    {
      Unique(rows)
    }

    method ClientFindByID(clientID: string) returns (found: Option<ManagedClient>)
      ensures found.Some? ==> clientID != "" && found.value in rows && found.value.clientID == clientID
      ensures found.None? ==> clientID == "" || !HasClient(rows, clientID)
    {
      if clientID == "" {
        return None;
      }
      for i := 0 to |rows|
        invariant forall k :: 0 <= k < i ==> rows[k].clientID != clientID
      {
        if rows[i].clientID == clientID {
          return Some(rows[i]);
        }
      }
      return None;
    }

    method ClientFindByAgentID(agentID: string) returns (found: Option<ManagedClient>)
      ensures found.Some? ==> agentID != "" && found.value in rows && found.value.agentID == agentID
      ensures found.None? ==> agentID == "" || !HasAgent(rows, agentID)
    {
      if agentID == "" {
        return None;
      }
      for i := 0 to |rows|
        invariant forall k :: 0 <= k < i ==> rows[k].agentID != agentID
      {
        if rows[i].agentID == agentID {
          return Some(rows[i]);
        }
      }
      return None;
    }

    /** The keyed lookup agrees with the scan of the OTP handler; it refuses the empty id, None. */
    method ClientGetClientIDByAgentID(agentID: string) returns (clientID: Option<string>)
      requires Valid()
      ensures clientID == if agentID == "" then None else Some(ScanForClientID(rows, agentID))
    {
      if agentID == "" {
        return None;
      }
      for i := 0 to |rows|
        invariant forall k :: 0 <= k < i ==> rows[k].agentID != agentID
      {
        if rows[i].agentID == agentID {
          LookupsAgree(rows, agentID, rows[i].clientID);
          return Some(rows[i].clientID);
        }
      }
      LookupsAgree(rows, agentID, "");
      return Some("");
    }

    /** The database refuses a statement that would break a unique constraint. */
    ghost function Kept(merged: seq<ManagedClient>): (Outcome, seq<ManagedClient>)
      reads this
    {
      if Unique(merged) then (Done, merged) else (Constraint, rows)
    }

    method ClientUpdate(client: ManagedClient) returns (r: Outcome)
      requires Valid()
      modifies this
      ensures Valid()
      ensures (r, rows) == if client.clientID == "" || !HasClient(old(rows), client.clientID) then (NoRows, old(rows))
                           else old(Kept(MergeInto(rows, client)))
      ensures r == Done ==> OnlyGivenFieldsChange(old(rows), client, rows)
    {
      MergeChangesGivenFields(rows, client);
      if client.clientID == "" {
        return NoRows;
      }
      var found := ClientFindByID(client.clientID);
      if found.None? {
        return NoRows;
      }
      OnlyRow(rows, found.value);
      var fields, args, names := CollectFields(client, found.value, found.value);
      PatchedIsMerge(found.value, client);
      if |fields| == 0 {
        assert MergeInto(rows, client) == rows;
        return Done;
      }
      ExecCollected(ClientTable(), rows, fields, args, names, client.clientID, MergeInto(rows, client));
      args := args + [Text(client.clientID)];
      var text := JoinFields(fields);
      var updated := ExecUpdate(ClientTable(), rows, text, args);
      if updated.None? || !Unique(updated.value) {
        return Constraint;
      }
      rows := updated.value;
      return Done;
    }

    /** DELETE of one row by its primary key. */
    method ClientDeleteByID(clientID: string) returns (r: Outcome)
      requires Valid()
      modifies this
      ensures Valid()
      ensures clientID == "" ==> r == NoRows && rows == old(rows)
      ensures clientID != "" ==> r == Done && rows == Remove(old(rows), clientID)
      ensures clientID != "" ==> forall c :: c in rows <==> c in old(rows) && c.clientID != clientID
    {
      if clientID == "" {
        return NoRows;
      }
      RemoveMeaning(rows, clientID);
      rows := Remove(rows, clientID);
      return Done;
    }

    /** The service: only user_name of the one row changes. */
    method AssignUserToClientByAgentID(agentID: string, userName: string) returns (r: Outcome)
      requires Valid()
      modifies this
      ensures Valid()
      ensures r == if agentID == "" || userName == "" then Required
                   else if !HasAgent(old(rows), agentID) then NotFound
                   else if ScanForClientID(old(rows), agentID) == "" then NoRows else Done
      ensures r != Done ==> rows == old(rows)
      ensures r == Done ==> rows == AssignUser(old(rows), ScanForClientID(old(rows), agentID), userName)
    {
      if agentID == "" || userName == "" {
        return Required;
      }
      var client := ClientFindByAgentID(agentID);
      if client.None? {
        return NotFound;
      }
      ghost var before := rows;
      assert KeyedClientID(rows, agentID, client.value.clientID);
      LookupsAgree(rows, agentID, client.value.clientID);
      AssignIsMerge(rows, client.value, userName);
      r := ClientUpdate(client.value.(userName := userName));
    }

    method AssignUserToClientByClientID(clientID: string, userName: string) returns (r: Outcome)
      requires Valid()
      modifies this
      ensures Valid()
      ensures r == if clientID == "" || userName == "" then Required
                   else if HasClient(old(rows), clientID) then Done else NotFound
      ensures r != Done ==> rows == old(rows)
      ensures r == Done ==> rows == AssignUser(old(rows), clientID, userName)
    {
      if clientID == "" || userName == "" {
        return Required;
      }
      var client := ClientFindByID(clientID);
      if client.None? {
        return NotFound;
      }
      AssignIsMerge(rows, client.value, userName);
      r := ClientUpdate(client.value.(userName := userName));
    }

    method DeleteClientByAgentID(agentID: string) returns (r: Outcome)
      requires Valid()
      modifies this
      ensures Valid()
      ensures r == if agentID == "" then Required
                   else if !HasAgent(old(rows), agentID) then NotFound
                   else if ScanForClientID(old(rows), agentID) == "" then NoRows else Done
      ensures r != Done ==> rows == old(rows)
      ensures r == Done ==>
                forall c :: c in rows <==> c in old(rows) && c.agentID != agentID
    {
      if agentID == "" {
        return Required;
      }
      var client := ClientFindByAgentID(agentID);
      if client.None? {
        return NotFound;
      }
      assert KeyedClientID(rows, agentID, client.value.clientID);
      LookupsAgree(rows, agentID, client.value.clientID);
      RemoveMeaning(rows, client.value.clientID);
      r := ClientDeleteByID(client.value.clientID);
    }
  }

  lemma OnlyRow(rows: seq<ManagedClient>, existing: ManagedClient)
    requires Unique(rows) && existing in rows
    ensures forall i :: 0 <= i < |rows| && rows[i].clientID == existing.clientID ==> rows[i] == existing
  {}

  /** Writing a row back with a new user name changes nothing else, if it is still the stored row. */
  lemma AssignIsMerge(rows: seq<ManagedClient>, client: ManagedClient, userName: string)
    requires Unique(rows) && client in rows && userName != ""
    ensures MergeInto(rows, client.(userName := userName)) == AssignUser(rows, client.clientID, userName)
    ensures Unique(MergeInto(rows, client.(userName := userName)))
  {
    OnlyRow(rows, client);
    var merged := MergeInto(rows, client.(userName := userName));
    forall i | 0 <= i < |rows| ensures merged[i] == AssignUser(rows, client.clientID, userName)[i] {
      MergeChangesOnlyUserIff(rows[i], client, userName);
    }
  }

  /**
   The service reads the row, and the update compares with the row as it is by then. When the status
   scan writes in between, the assignment puts the older values back: it leaves everything but the
   user name alone exactly when each value it read is empty or still the stored one.
   */
  lemma MergeChangesOnlyUserIff(existing: ManagedClient, read: ManagedClient, userName: string)
    requires userName != ""
    ensures Merge(existing, read.(userName := userName)) == existing.(userName := userName) <==>
            && read.agentID in {"", existing.agentID}
            && read.device.hardwareID in {"", existing.device.hardwareID}
            && read.lastSeen in {None, existing.lastSeen}
            && read.online == existing.online
  {
    var merged := Merge(existing, read.(userName := userName));
    if merged == existing.(userName := userName) {
      assert merged.device.hardwareID == existing.device.hardwareID;
    }
  }

  /** An assignment that a status scan overtakes can mark an agent online whose last hello is too old. */
  lemma OvertakenAssignComesOnline(read: ManagedClient, hello: map<string, nat>, now: nat,
      userName: string)
    requires userName != "" && read.online
    requires read.agentID in hello ==> now - hello[read.agentID] > 30 * SECOND
    ensures var scanned := ScanRow(read, hello, now);
            var written := Merge(scanned, read.(userName := userName));
            && !scanned.online && written.online && written.agentID == read.agentID
  {}

  /** And it can move last_seen backwards and mark the row offline. */
  lemma OvertakenAssignGoesBack(read: ManagedClient, hello: map<string, nat>, now: nat,
      userName: string)
    requires userName != "" && read.lastSeen.Some? && !read.online
    requires read.agentID in hello && now - hello[read.agentID] <= 30 * SECOND
    requires read.lastSeen.value < hello[read.agentID] / SECOND
    ensures var scanned := ScanRow(read, hello, now);
            var written := Merge(scanned, read.(userName := userName));
            && scanned.online && !written.online
            && written.lastSeen.value < scanned.lastSeen.value
  {}
}

/** The users table: UserUpdate. */
module UserRepository {
  import opened Bytes
  import opened SqlUpdate

  datatype User = User(id: string, username: string, password: string, email: string, fullName: string,
                       role: string, createdAt: string, updatedAt: string)

  function SetColumn(u: User, name: string, v: Value): User {
    if v.Integer? then u
    else if name == "password" then u.(password := v.text)
    else if name == "email" then u.(email := v.text)
    else if name == "full_name" then u.(fullName := v.text)
    else if name == "role" then u.(role := v.text)
    else if name == "updated_at" then u.(updatedAt := v.text)
    else u
  }

  function UserTable(): Table<User> {
    Table({"id", "username", "password", "email", "full_name", "role", "created_at", "updated_at"},
          SetColumn, (u: User) => u.username)
  }

  /** The user name is the key and is never written; updated_at always is. */
  function Merge(u: User, patch: User, now: string): User {
    u.(password := if patch.password != "" then patch.password else u.password,
       email := if patch.email != "" then patch.email else u.email,
       fullName := if patch.fullName != "" then patch.fullName else u.fullName,
       role := if patch.role != "" then patch.role else u.role,
       updatedAt := now)
  }

  ghost predicate Gathered(existing: User, fields: seq<string>, args: seq<Value>, names: seq<string>, row: User) {
    Collected(UserTable(), existing, fields, args, names, row)
  }

  lemma Gather(
    existing: User, fields: seq<string>, args: seq<Value>, names: seq<string>, row: User, name: string, text: string,
      value: string)
    requires Gathered(existing, fields, args, names, row)
    requires IsName(name) && name in UserTable().columns && text == Placeholder(name)
    ensures Gathered(existing, fields + [text], args + [Text(value)], names + [name], SetColumn(row, name, Text(value)))
  {
    Collect(UserTable(), existing, fields, args, names, row, name, Text(value));
  }

  lemma GatherPassword(
    existing: User, fields: seq<string>, args: seq<Value>, names: seq<string>, row: User, value: string)
    requires Gathered(existing, fields, args, names, row)
    ensures Gathered(existing, fields + ["password=?"], args + [Text(value)], names + ["password"],
        row.(password := value))
  {
    Gather(existing, fields, args, names, row, "password", "password=?", value);
  }

  lemma GatherEmail(
    existing: User, fields: seq<string>, args: seq<Value>, names: seq<string>, row: User, value: string)
    requires Gathered(existing, fields, args, names, row)
    ensures Gathered(existing, fields + ["email=?"], args + [Text(value)], names + ["email"], row.(email := value))
  {
    Gather(existing, fields, args, names, row, "email", "email=?", value);
  }

  lemma GatherFullName(
    existing: User, fields: seq<string>, args: seq<Value>, names: seq<string>, row: User, value: string)
    requires Gathered(existing, fields, args, names, row)
    ensures Gathered(existing, fields + ["full_name=?"], args + [Text(value)], names + ["full_name"],
        row.(fullName := value))
  {
    Gather(existing, fields, args, names, row, "full_name", "full_name=?", value);
  }

  lemma GatherRole(
    existing: User, fields: seq<string>, args: seq<Value>, names: seq<string>, row: User, value: string)
    requires Gathered(existing, fields, args, names, row)
    ensures Gathered(existing, fields + ["role=?"], args + [Text(value)], names + ["role"], row.(role := value))
  {
    Gather(existing, fields, args, names, row, "role", "role=?", value);
  }

  lemma GatherUpdatedAt(
    existing: User, fields: seq<string>, args: seq<Value>, names: seq<string>, row: User, value: string)
    requires Gathered(existing, fields, args, names, row)
    ensures Gathered(existing, fields + ["updated_at=?"], args + [Text(value)], names + ["updated_at"],
        row.(updatedAt := value))
  {
    Gather(existing, fields, args, names, row, "updated_at", "updated_at=?", value);
  }

  /** The SET list and its arguments do not depend on the stored row, which may be missing. */
  method CollectFields(user: User, now: string, ghost existing: User)
    returns (fields: seq<string>, args: seq<Value>, ghost names: seq<string>)
    ensures Gathered(existing, fields, args, names, Merge(existing, user, now)) && fields != []
  {
    fields, args, names := [], [], [];
    ghost var row := existing;
    if user.password != "" {
      GatherPassword(existing, fields, args, names, row, user.password);
      fields, args, names := fields + ["password=?"], args + [Text(user.password)], names + ["password"];
      row := row.(password := user.password);
    }
    if user.email != "" {
      GatherEmail(existing, fields, args, names, row, user.email);
      fields, args, names := fields + ["email=?"], args + [Text(user.email)], names + ["email"];
      row := row.(email := user.email);
    }
    if user.fullName != "" {
      GatherFullName(existing, fields, args, names, row, user.fullName);
      fields, args, names := fields + ["full_name=?"], args + [Text(user.fullName)], names + ["full_name"];
      row := row.(fullName := user.fullName);
    }
    if user.role != "" {
      GatherRole(existing, fields, args, names, row, user.role);
      fields, args, names := fields + ["role=?"], args + [Text(user.role)], names + ["role"];
      row := row.(role := user.role);
    }
    GatherUpdatedAt(existing, fields, args, names, row, now);
    fields, args, names := fields + ["updated_at=?"], args + [Text(now)], names + ["updated_at"];
  }

  function MergeInto(users: seq<User>, patch: User, now: string): (r: seq<User>)
    ensures |r| == |users|
  {
    seq(|users|, i requires 0 <= i < |users| =>
      if users[i].username == patch.username then Merge(users[i], patch, now) else users[i])
  }

  /**
   Other users stay. Of the user named, each of the four fields that is given is set and each that is
   empty stays, the time of the update is now, and the rest stays.
   */
  ghost predicate OnlyGivenFieldsChange(before: seq<User>, given: User, now: string, after: seq<User>) {
    && |after| == |before|
    && (forall i :: 0 <= i < |after| && before[i].username != given.username ==> after[i] == before[i])
    && forall i :: 0 <= i < |after| && before[i].username == given.username ==>
         && after[i].password == (if given.password == "" then before[i].password else given.password)
         && after[i].email == (if given.email == "" then before[i].email else given.email)
         && after[i].fullName == (if given.fullName == "" then before[i].fullName else given.fullName)
         && after[i].role == (if given.role == "" then before[i].role else given.role)
         && after[i].updatedAt == now && after[i].username == before[i].username
         && after[i].id == before[i].id && after[i].createdAt == before[i].createdAt
  }

  lemma MergeChangesGivenFields(users: seq<User>, given: User, now: string)
    ensures OnlyGivenFieldsChange(users, given, now, MergeInto(users, given, now))
  {}

  class Repository {
    var users: seq<User>

    constructor (stored: seq<User>)
      requires forall i, j :: 0 <= i < j < |stored| ==> stored[i].username != stored[j].username
      ensures Valid() && users == stored
    {
      users := stored;
    }

    /** The username column is UNIQUE. */
    ghost predicate Valid()
      reads this
    {
      forall i, j :: 0 <= i < j < |users| ==> users[i].username != users[j].username
    }

    /** now is time.Now() as the driver stores it. A user name that is not stored updates no row. */
    method UserUpdate(user: User, now: string)
      requires Valid()
      modifies this
      ensures Valid() && users == MergeInto(old(users), user, now)
      ensures OnlyGivenFieldsChange(old(users), user, now, users)
    {
      MergeChangesGivenFields(users, user, now);
      ghost var existing := user;
      if u :| u in users && u.username == user.username {
        existing := u;
      }
      var fields, args, names := CollectFields(user, now, existing);
      ExecCollected(UserTable(), users, fields, args, names, user.username, MergeInto(users, user, now));
      args := args + [Text(user.username)];
      var text := JoinFields(fields);
      var updated := ExecUpdate(UserTable(), users, text, args);
      users := updated.value;
    }
  }
}
