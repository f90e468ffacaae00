/**
 The requests that the agent's program sends, with the JSON names of its own structures, and what the
 handler makes of each of them.
 */
module AgentRequests {
  import opened Bytes
  import opened Clients
  import opened Decimal
  import opened Handler
  import opened Link
  import Archive

  /** The device, as RegisterAgent sends it. */
  function RegisterMessage(device: DeviceInfo): Message {
    Message.Message("register",
      Json.Object(map["hostName" := Json.Text(device.hostName), "ipAddress" := Json.Text(device.ipAddress),
        "macAddress" := Json.Text(device.macAddress), "hardwareID" := Json.Text(device.hardwareID)]))
  }

  /** A request without a payload, which is left out of its JSON. */
  function PlainMessage(kind: string, agentID: string): Message {
    Message.Message(kind, Json.Object(map["agent_id" := Json.Text(agentID)]))
  }

  /** The client id and the agent id that RegisterAgent finds in a reply. */
  function RegistrationOf(reply: Message): Option<(string, string)> {
    if reply.kind != "register" then None
    else Some((TextField(reply.data, "client_id"), TextField(reply.data, "agent_id")))
  }

  /** The handler reads back the very device that was sent. */
  lemma DeviceIsRead(device: DeviceInfo)
    ensures DeviceOf(RegisterMessage(device).data) == device
  {}

  /**
   A device whose hardware id is stored is recognised if the lookup works: nothing changes, and the
   agent gets the ids of such a row.
   */
  lemma StoredDeviceIsRecognised(
    totp: string -> string, w: World, device: DeviceInfo, env: Env, reply: Message, w2: World)
    requires Handled(totp, w, RegisterMessage(device), env, reply, w2)
    requires !env.deviceQueryFails && exists i :: 0 <= i < |w.rows| && w.rows[i].device.hardwareID == device.hardwareID
    ensures w2 == w
    ensures exists r ::
              && r in w.rows && r.device.hardwareID == device.hardwareID
              && RegistrationOf(reply) == Some((r.clientID, r.agentID))
  {
    DeviceIsRead(device);
    var r :| r in w.rows && r.device.hardwareID == device.hardwareID && reply == RegisterReply(r);
    assert RegistrationOf(reply) == Some((r.clientID, r.agentID)) by {
      ReplyIsRead(r);
    }
  }

  /** Any other device gets a new row, with exactly what was sent, under the next id; the agent gets its ids. */
  lemma OtherDeviceIsAdded(
    totp: string -> string, w: World, device: DeviceInfo, env: Env, reply: Message, w2: World)
    requires Handled(totp, w, RegisterMessage(device), env, reply, w2)
    requires env.deviceQueryFails || forall i :: 0 <= i < |w.rows| ==> w.rows[i].device.hardwareID != device.hardwareID
    ensures var added := ManagedClient(env.uuid, Padded(w.next, 3), device, "", None, false);
            && RegistrationOf(reply) == Some((env.uuid, Padded(w.next, 3)))
            && w2 == w.(rows := InsertOrReplace(w.rows, added), next := w.next + 1)
            && added in w2.rows
            && (forall r :: r in w2.rows <==>
                  r == added || (r in w.rows && r.clientID != env.uuid && r.agentID != Padded(w.next, 3)))
  {
    DeviceIsRead(device);
    var added := ManagedClient(env.uuid, Padded(w.next, 3), device, "", None, false);
    ReplyIsRead(added);
    WithoutMeaning(w.rows, added);
  }

  lemma ReplyIsRead(row: ManagedClient)
    ensures RegistrationOf(RegisterReply(row)) == Some((row.clientID, row.agentID))
  {
    assert "client_id"[0] != "agent_id"[0];
  }

  /** A hello of a registered agent is remembered with its time; of another agent, nothing is. */
  lemma HelloIsRemembered(
    totp: string -> string, w: World, agentID: string, env: Env, reply: Message, w2: World)
    requires Handled(totp, w, PlainMessage("hello", agentID), env, reply, w2) && agentID != ""
    ensures if HasAgent(w.rows, agentID) then reply.kind == "hello" && w2 == w.(hello := w.hello[agentID := env.now])
            else
              && reply == Message.Message("error", Json.Text("Agent not registered. Please register again."))
              && w2 == w
  {}

  /** The reply carries the code of the client that has the agent id, and an empty code if there is none. */
  lemma CodeIsAnswered(
    totp: string -> string, w: World, agentID: string, env: Env, reply: Message, w2: World, clientID: string)
    requires Handled(totp, w, PlainMessage("request_otp", agentID), env, reply, w2)
    requires Unique(w.rows) && KeyedClientID(w.rows, agentID, clientID)
    ensures reply.kind == "request_otp" && w2 == w.(next := NextAfter(w.rows))
    ensures TextField(reply.data, "otp") == if clientID == "" then "" else totp(clientID)
  {
    LookupsAgree(w.rows, agentID, clientID);
    assert "otp"[0] != "agent_id"[0];
  }

  /** A log request with data of another shape is archived all the same, with no agent and no text. */
  lemma ShapelessLogIsArchived(
    totp: string -> string, w: World, data: Json, env: Env, reply: Message, w2: World)
    requires Handled(totp, w, Message.Message("log", data), env, reply, w2) && env.archiveOpens
    requires data.Object? ==> data.fields.Keys !! {"agent_id", "payload"}
    ensures reply.kind == "log"
    ensures w2 == w.(archive := w.archive + (Archive.Marshal(Archive.LogEntry(env.time, "", "")) + ['\n']))
  {
    if data.Object? {
      assert "agent_id" in {"agent_id", "payload"} && "payload" in {"agent_id", "payload"};
    }
  }
}
