# Verified model of the agent and logon system

A Go agent and a Go server exchange encrypted, length-prefixed messages over one connection; the
server keeps a registry of agents in SQLite, archives their logs and computes one-time codes; a C++
credential provider for Windows checks the code that is typed before a password and packs the
credential. This project models the parts of that system whose correctness is not visible in any one
function, and proves them in Dafny.

| file | what it models |
|---|---|
| Bytes, Base64, Cfb | bytes, base64 (RFC 4648, section 4), CFB (NIST SP 800-38A, section 6.3) in place over any block function, `crypto.Encrypt` and `Decrypt` |
| Framing | length-prefixed frames, `io.ReadFull`, the handler's read loop on any prefix of a stream |
| Link | the agent-server link: any number of `Request` calls, timeouts, the request loop, both byte streams, the handler, and failures at every read and write, as a step system |
| RequestLoop, Handler, AgentRequests | the request loop and the connection handler as imperative programs over a connection, their turns as steps of the link, and the agent's requests with what they get |
| Pipeline | both loops on one healthy connection, and the way of a log from the client's file to the server's archive |
| Decimal, Clients, Registry, RegistryRuns, RegistrySteps | `%03d` and `Atoi`, the table with its two unique keys, the registry's methods, and all runs of register, delete, assign, hello, load and status scan, with the parts of a registration, of a load and of an assignment as separate steps, and the methods as such runs |
| SqlUpdate | the generated UPDATE statements, against a reader of their text |
| Tail | `SplitLines` and the log tail with its saved offset |
| Archive, LogPages | the JSON text of archived entries, concurrent appends, loading, reversing, filtering and paging |
| Kerb, Tile | `domain\user` names, the packed logon credential, the tile's serialization |
| Otp | the key permutation, the time step (RFC 6238, section 4.2), truncation and digits (RFC 4226, section 5.3), and the way from a code that is shown to a tile that accepts it |

Algorithms that loop or update fields are methods and classes, proved against functions; the lemmas
state what those functions promise. Several theorems are of the form "exactly when": where the code
does not keep what one would expect of it, the lemma gives the condition under which it does.

Facts taken as hypotheses, each visible in a contract or in a step: a failed connection stays failed
and only the request loop uses it; JSON of a message survives the round trip and no proper beginning
of it parses (`Framing.Faithful`); client ids are fresh UUIDs; the rows of a status scan are marked at
one instant, and clocks do not go back; each append to the archive is atomic.

Some results hold of some runs of the registry only, and the runs are named by predicates on their
steps. That a registration displaces no row needs `RegistryRuns.Orderly`: ids are drawn only after
`LoadClients` has set the counter once and with the counter at most 999, and a load, which every OTP
request and every status scan begins with, sets the counter only if no row is drawn and not saved and
none was drawn or saved since it read the table. Runs that break one of these show that each is
needed; over all runs, saves displace nothing exactly when no row that is saved has an agent id that
is stored by then (`SavesAddThroughoutIff`). That online rows belong to agents heard of in the last
60 s, and that recorded times never go back, is each shown to hold exactly when every write-back of an
assignment meets a condition on the row it writes (`OnlineGuard`, `SeenGuard`); a run in which no scan
falls between the read and the comparison of an assignment meets both (`QuietRunsMeetGuards`). The
60 s also need status scans at most 30 s apart (`ScansInTime`). What is said of recorded times needs a
first table whose times are not ahead of the clock (`Startable`). Everything else holds of all runs
from any table with unique keys.

Where the documentation and the code differ, the code is followed: the connection is not TLS but the
codec of `crypto/aes.go`; agent ids are said never to be duplicated, which holds of orderly runs
and fails of some others; the lookup of a device names a column, `user_id`, that the table does
not have, so it can fail and a device can get a second row; the agent's program never initialises the
cipher, and then every request fails before anything is written (`RequestLoop.Agent.Run`).

## Model

| member | source | states |
|---|---|---|
| `Bytes.Uint32OfPut` | gou-pc/internal/agent/agent.go:93-111 | the big-endian length of a frame is read back as it was written |
| `Bytes.XorBit` | gou-pc/internal/crypto/aes.go:31 | every bit of the exclusive or is the sum of the two bits, modulo 2 |
| `Bytes.MostSignificantFirst` | gou-pc/internal/agent/agent.go:93-94 | the first of the four bytes is the most significant |
| `Base64.DecodeOfEncode` | gou-pc/internal/crypto/aes.go:32-40 | decoding gives back every byte string that was encoded |
| `Base64.DecodeOfCutEncode` | gou-pc/internal/crypto/aes.go:40 | encoded text cut at a multiple of four symbols decodes to a beginning of the bytes |
| `Base64.DecodedSize` | gou-pc/internal/crypto/aes.go:40 | text that decodes has exactly the length of the encoding of its bytes |
| `Base64.LineBreaksAreSkipped` | gou-pc/internal/crypto/aes.go:40 | a line break anywhere makes no difference to decoding |
| `Base64.KnownTexts` | gou-pc/internal/crypto/aes.go:32 | the encoding gives the examples of RFC 4648 |
| `Cfb.EncryptIsCfb` | gou-pc/internal/crypto/aes.go:30-31 | every ciphertext byte is its plaintext byte xor the keystream of the previous ciphertext block |
| `Cfb.EncryptBits` | gou-pc/internal/crypto/aes.go:30-31 | every ciphertext bit is its plaintext bit plus, modulo 2, the bit of the enciphered vector or of the enciphered ciphertext block before |
| `Cfb.DecryptIffCfb` | gou-pc/internal/crypto/aes.go:49-50 | p is the decryption of c exactly when c is the CFB encryption of p |
| `Cfb.RoundTrip` | gou-pc/internal/crypto/aes.go:30-50 | each direction undoes the other, for every length, vector and block function |
| `Cfb.EncryptStream` | gou-pc/internal/crypto/aes.go:25-31 | filling the buffer behind its vector leaves the vector and produces the encryption |
| `Cfb.DecryptStream` | gou-pc/internal/crypto/aes.go:47-50 | decrypting over the ciphertext itself produces the decryption of the old contents |
| `Crypto.UnsealOfSeal` | gou-pc/internal/crypto/aes.go:21-53 | Decrypt of Encrypt is the plaintext, for every plaintext, vector and block function |
| `Crypto.UnsealOfCut` | gou-pc/internal/crypto/aes.go:36-51 | encrypted text that is cut short anywhere gives an error or a proper beginning of the plaintext |
| `Crypto.SealedSize` | gou-pc/internal/crypto/aes.go:25-32 | the encoded size is never zero and is at most 65536 exactly up to 49136 plaintext bytes |
| `Crypto.Cipher.Encrypt` | gou-pc/internal/crypto/aes.go:21-34 | an error without cipher or randomness, otherwise vector and CFB ciphertext in base64 |
| `Crypto.Cipher.Decrypt` | gou-pc/internal/crypto/aes.go:36-53 | the plaintext, or the error for a missing cipher, bad base64 or too few bytes |
| `Framing.BigEndianAgrees` | gou-pc/internal/tcpserver/tcpserver.go:93 | encoding/binary is such a pair of length functions as the framing needs |
| `Framing.Conn.ReadFull` | gou-pc/internal/tcpserver/tcpserver.go:85-99 | all n bytes, or none and an error that tells an empty stream from a short one |
| `Framing.Conn.Receive` | gou-pc/internal/tcpserver/tcpserver.go:84-114 | one turn of reading: a message and the remaining stream, or why the connection is given up |
| `Framing.Conn.ReceiveAll` | gou-pc/internal/tcpserver/tcpserver.go:84-114 | the read loop takes every message up to the first that stops it |
| `Framing.ReadWhole` | gou-pc/internal/tcpserver/tcpserver.go:84-114 | from the frames of any list of messages within the limit the loop recovers exactly that list |
| `Framing.ReadEveryPrefix` | gou-pc/internal/tcpserver/tcpserver.go:84-114 | from every byte prefix the loop recovers exactly the messages whose frames are complete |
| `Framing.TakenIffFits` | gou-pc/internal/tcpserver/tcpserver.go:93-97 | whatever its size, a message is taken exactly when it has at most 49136 bytes |
| `Framing.OpenAtLength` | gou-pc/internal/agent/agent.go:93-99 | read up to the announced length a body opens to its message, and never does if that length wrapped |
| `RequestLoop.Agent.ReceiveReply` | gou-pc/internal/agent/agent.go:104-125 | the next frame opened, of any length, and the bytes after it; or nothing |
| `RequestLoop.Agent.HandleRequest` | gou-pc/internal/agent/agent.go:82-127 | one turn of the loop: what is written under each failure, and the one response |
| `RequestLoop.Agent.StartRequestLoop` | gou-pc/internal/agent/agent.go:80-129 | the turns one after the other, with exactly one response for each request on all exits |
| `RequestLoop.Agent.SealMessage` | gou-pc/internal/agent/agent.go:83-92 | JSON, then the cipher: the sealed request of the link, or nothing if JSON, the cipher or randomness fails |
| `RequestLoop.Agent.Run` | gou-pc/internal/crypto/aes.go:15-24 | after a successful `InitCipher` the turns are those of the link; without it, as in the agent's program, or if it failed, every request fails and nothing is written or read |
| `RequestLoop.ResponsesInOrder` | gou-pc/internal/agent/agent.go:80-129 | without failures one frame is written per request and the i-th response is the i-th reply |
| `RequestLoop.HealthyOutput` | gou-pc/internal/agent/agent.go:80-103 | without failed writes exactly the frames of the requests are written, whatever arrives |
| `RequestLoop.WritesAreSteps` | gou-pc/internal/agent/agent.go:93-103 | the writing half of a turn is two steps of the link, with the same bytes on the stream |
| `RequestLoop.CutLengthIsStep` | gou-pc/internal/agent/agent.go:95-98 | a failed write of the length is a step of the link: same bytes, broken connection, an error for the call |
| `RequestLoop.CutBodyIsStep` | gou-pc/internal/agent/agent.go:99-103 | so is a failed write of the body |
| `RequestLoop.ReadsAreSteps` | gou-pc/internal/agent/agent.go:104-127 | the reading half is two more steps of the link, with the same response |
| `RequestLoop.FailedReadsAreSteps` | gou-pc/internal/agent/agent.go:107-116 | if the stream ends before the reply does, the failed read is a step, with an error for the call |
| `RequestLoop.FailedSealIsStep` | gou-pc/internal/agent/agent.go:83-92 | a request that cannot be sealed is a step that leaves the connection as it was |
| `RequestLoop.NoCipherNoBytes` | gou-pc/internal/agent/agent.go:88-92 | as long as nothing can be sealed every request fails and nothing is written or read |
| `Link.LinkCodecIsSound` | gou-pc/internal/agent/agent.go:83-125 | the shipped codec has every property that the link's proof uses |
| `Link.StepKeepsInv` | gou-pc/internal/agent/agent.go:80-140 | every step of callers, loop, streams and handler keeps the link's invariant |
| `Link.RunKeepsInv` | gou-pc/internal/agent/agent.go:80-140 | so does every run |
| `Link.ResponsesAreGenuine` | gou-pc/internal/agent/agent.go:80-140 | in every interleaving a call gets an error or the server's reply to that same request, also after earlier calls timed out |
| `Link.ReceiveReturns` | gou-pc/internal/agent/agent.go:134-136 | a waiting call with a response on its channel can return, with just that response, and nothing else changes |
| `Link.OutcomeIsFinal` | gou-pc/internal/agent/agent.go:134-139 | a waiting call can always time out; a call that timed out never returns a response, and one that returned keeps it, whatever comes later |
| `Link.RoundReturnsReply` | gou-pc/internal/agent/agent.go:80-140 | from any idle state a call without failures returns the very reply that the server chose for that call's request, and leaves the link idle |
| `Link.FirstCallReturnsReply` | gou-pc/internal/agent/agent.go:131-140 | over the shipped codec, from the start, for every request of at most 49136 bytes |
| `Link.ClosedIsFinal` | gou-pc/internal/tcpserver/tcpserver.go:83-92 | a connection that the server closed carries no further reply and no request on it is handled |
| `Link.OneFramePerCall` | gou-pc/internal/agent/agent.go:80-103 | a call's request is on the stream at most once |
| `Link.RepliesAreNotShared` | gou-pc/internal/agent/agent.go:80-140 | every answered call has exactly one exchange that answers it, and two calls never have the same |
| `Link.FramesBalance` | gou-pc/internal/agent/agent.go:81-128 | on a healthy connection frames written and read differ by at most one, and by none at the head of the loop |
| `Link.DeliverNeverBlocks` | gou-pc/internal/agent/agent.go:127-139 | the send on the channel of capacity one is always possible, also when the caller gave up |
| `Link.ExactlyOneSend` | gou-pc/internal/agent/agent.go:81-128 | back at the head, every call the loop took has had exactly one send |
| `Handler.Handler.HandleRegister` | gou-pc/internal/tcpserver/tcpserver.go:119-139 | a found device changes nothing, any other adds its row under the next id; the reply names that row |
| `Handler.Handler.HandleRequestOTP` | gou-pc/internal/tcpserver/tcpserver.go:140-167 | the code of the client the agent id belongs to, empty for an unknown one |
| `Handler.Handler.HandleHello` | gou-pc/internal/tcpserver/tcpserver.go:168-192 | a registered agent's hello time is recorded; an unregistered one gets an error and leaves nothing |
| `Handler.Handler.HandleLog` | gou-pc/internal/tcpserver/tcpserver.go:193-232 | an admitted entry is appended as object and newline; a refused one leaves the archive alone |
| `Handler.Handler.HandleRequest` | gou-pc/internal/tcpserver/tcpserver.go:116-238 | the reply has the request's type exactly for admitted requests, and each type changes only its own part of the state |
| `Handler.Handler.HandleTurn` | gou-pc/internal/tcpserver/tcpserver.go:84-258 | one message is read and handled as HandleRequest says, and its reply's frame is written as far as randomness and the two writes let it; or the connection is closed |
| `Handler.Handler.HandleConn` | gou-pc/internal/tcpserver/tcpserver.go:82-260 | a beginning of the messages is handled in order, each in the state the one before it left; the archive grows by just the admitted entries; without failures all are handled and the output is the frames of their replies |
| `Handler.ChainExists` | gou-pc/internal/tcpserver/tcpserver.go:116-238 | any list of requests can be handled one after the other, from every state of the server |
| `Handler.ServerReadsAreSteps` | gou-pc/internal/tcpserver/tcpserver.go:84-114 | what one turn reads is read by two steps of the link, with the same message and rest; refusals are steps that close, and missing bytes allow no step |
| `Handler.ServerWritesAreSteps` | gou-pc/internal/tcpserver/tcpserver.go:240-257 | what one turn writes, whole or cut, is written by one or two steps of the link: same bytes, same exchange, closed exactly after a failure |
| `Handler.ChainLogs` | gou-pc/internal/tcpserver/tcpserver.go:193-232 | over any chain of handled requests the archive grows by exactly the admitted log entries, in order |
| `AgentRequests.DeviceIsRead` | gou-pc/internal/tcpserver/tcpserver.go:121-123 | from the request that registers a device the handler reads that very device |
| `AgentRequests.StoredDeviceIsRecognised` | gou-pc/internal/tcpserver/tcpserver.go:119-139 | if its hardware id is stored and the lookup works, nothing changes and the agent gets the ids of such a row |
| `AgentRequests.OtherDeviceIsAdded` | gou-pc/internal/tcpserver/tcpserver.go:119-133 | otherwise a row with exactly the device that was sent is added under the next id, only rows with one of its two keys go, and the agent gets its ids |
| `AgentRequests.HelloIsRemembered` | gou-pc/internal/tcpserver/tcpserver.go:168-192 | the agent's hello is remembered with its time if it is registered; otherwise it gets an error and nothing changes |
| `AgentRequests.ShapelessLogIsArchived` | gou-pc/internal/tcpserver/tcpserver.go:194-227 | a log request with data of another shape is archived all the same, with no agent and no text |
| `AgentRequests.CodeIsAnswered` | gou-pc/internal/tcpserver/tcpserver.go:140-167 | the agent gets the code of the client that a keyed lookup finds, empty without one |
| `Pipeline.EveryRequestIsHandled` | gou-pc/internal/tcpserver/tcpserver.go:82-118 | when both loops read what the other writes and nothing fails, the handler handles exactly the agent's requests, in order |
| `Pipeline.ConnectionExists` | gou-pc/internal/tcpserver/tcpserver.go:82-260 | from every state of the server there is such a connection for these requests: both loops run to the end |
| `Pipeline.EveryRequestIsAnswered` | gou-pc/internal/agent/agent.go:80-140 | on such a connection the i-th call returns the reply that the handler chose for the i-th request |
| `Pipeline.LogsAreArchived` | gou-pc/internal/tcpserver/tcpserver.go:193-232 | among any requests but registrations, the archive gets one entry for each log request, with its agent and text, in order |
| `Pipeline.LogsAreLoaded` | gou-pc/internal/logcollector/logcollector.go:16-35 | the archive, whatever connections wrote it before, then loads as its earlier entries followed by those lines |
| `Pipeline.FileReachesTheArchiveIff` | gou-pc/cmd/client/main.go:142-179 | over one healthy connection of a registered agent, with other requests in between, the archive loads as its earlier entries followed by exactly the non-empty lines of the tailed file, in order, if and only if no poll cut a line in two |
| `Decimal.AtoiOfPadded` | gou-pc/internal/agent/manager_agent.go:53-89 | Atoi undoes zero-padded printing for every number and width |
| `Decimal.PaddedWidth` | gou-pc/internal/agent/manager_agent.go:89 | padded text has the wanted width exactly for numbers that fit it |
| `Decimal.DigitAt` | gou-pc/internal/agent/manager_agent.go:89 | every character of the padded text is the ASCII digit of its decimal place |
| `Decimal.AtoiOfSigned` | gou-pc/internal/agent/manager_agent.go:55 | one sign is taken, a minus negates, and nothing but digits may follow |
| `Registry.Server.LoadClients` | gou-pc/internal/agent/manager_agent.go:30-62 | the loop leaves the counter one above the largest three-character number and at least 1, which is the counter of the runs |
| `Registry.Server.GenAgentID` | gou-pc/internal/agent/manager_agent.go:87-93 | the drawn id reads back as the old counter, and the counter's scan sees it exactly up to 999 |
| `Registry.Server.SaveClient` | gou-pc/internal/agent/manager_agent.go:100-115 | INSERT OR REPLACE, which keeps both keys unique |
| `Registry.Server.FindClientByDevice` | gou-pc/internal/agent/manager_agent.go:71-85 | a row of the device, or none if there is none or the query fails |
| `Registry.Server.Register` | gou-pc/internal/tcpserver/tcpserver.go:119-139 | the counter stays exactly when the device is found, and then so does the table; otherwise one row is saved |
| `Registry.Server.AgentExists` | gou-pc/internal/agent/manager_agent.go:139-145 | true exactly when some row has the agent id |
| `Registry.Server.Hello` | gou-pc/internal/tcpserver/tcpserver.go:175-187 | accepted exactly for the empty id and registered agents, and only the latter are remembered |
| `Registry.Server.FindClientID` | gou-pc/internal/tcpserver/tcpserver.go:149-157 | the linear scan gives what a keyed lookup may give |
| `Registry.Server.UpdateClientStatus` | gou-pc/internal/agent/manager_agent.go:125-136 | of the agent's rows just online and last_seen are set, and every other row is unchanged |
| `Registry.Server.MarkClients` | gou-pc/internal/tcpserver/tcpserver.go:36-46 | each row is marked by its own hello time |
| `Registry.Server.UpdateAgentStatus` | gou-pc/internal/tcpserver/tcpserver.go:31-54 | writing the marked copies back one by one updates every row as the pointwise scan does: online exactly for a hello in the last 30 s, whose time is then recorded, and nothing else |
| `Registry.RegisterTwice` | gou-pc/internal/tcpserver/tcpserver.go:124-139 | registering a device again is recognised exactly when the lookup works |
| `Clients.NextAfterIsNext` | gou-pc/internal/agent/manager_agent.go:51-60 | the scan computes the least number above all three-character ids |
| `Clients.ReplaceDisplacesNothingIff` | gou-pc/internal/agent/manager_agent.go:104-108 | replacing only adds a row exactly when neither key is taken |
| `Clients.ReplaceKeepsUnique` | gou-pc/internal/agent/manager_agent.go:104-108 | replacing keeps both keys unique |
| `Clients.DrawnIdIsFree` | gou-pc/internal/agent/manager_agent.go:51-90 | a counter below 1000 and above every number gives an id that no row has |
| `Clients.DrawnIdIsTakenIff` | gou-pc/internal/agent/manager_agent.go:51-90 | right after a load the next id is taken exactly when the counter is 1000 and "1000" is stored |
| `Clients.LookupsAgree` | gou-pc/internal/tcpserver/tcpserver.go:150-157 | with unique agent ids the scan and every keyed lookup give the same client id, also for unknown agents |
| `RegistryRuns.RunKeepsInv` | gou-pc/internal/agent/manager_agent.go:30-136 | in every run, however registrations, assignments and loads overlap with each other and with scans, keys stay unique and recorded times stay behind the clock and the hellos |
| `RegistryRuns.StepKeepsIds` | gou-pc/internal/agent/manager_agent.go:51-115 | an orderly step keeps ids below the counter, and below what a load under way will set unless a draw or save overtook it, and drawn rows apart from all others |
| `RegistryRuns.SaveAddsOneRow` | gou-pc/internal/agent/manager_agent.go:100-115 | in orderly runs a save adds exactly its row at the end and displaces none |
| `RegistryRuns.RegistrationsAreSafe` | gou-pc/internal/tcpserver/tcpserver.go:124-133 | over every orderly run from any table, keys stay unique, ids stay below the counter and each save adds exactly its row |
| `RegistryRuns.SavesAddThroughoutIff` | gou-pc/internal/agent/manager_agent.go:100-115 | along any run every save adds exactly its row, and displaces none, if and only if no saved row has an agent id that is stored by then |
| `RegistryRuns.OrderlySavesAdd` | gou-pc/internal/agent/manager_agent.go:51-115 | orderly runs meet that condition |
| `RegistryRuns.LookupsAgreeInRuns` | gou-pc/internal/tcpserver/tcpserver.go:150-157 | in every reachable state the OTP scan and the keyed lookup agree for every agent id |
| `RegistryRuns.PresentThroughoutIff` | gou-pc/internal/tcpserver/tcpserver.go:36-54 | through a run online rows belong to agents recent at the last scan exactly when no write-back of an assignment turns a row online for an agent that is not |
| `RegistryRuns.OnlineMeansRecentHello` | gou-pc/internal/tcpserver/tcpserver.go:36-54 | after the first scan, in every such run with scans at most 30 s apart, a row is online only if its agent said hello in the last 60 s |
| `RegistryRuns.QuietRunsMeetGuards` | gou-pc/internal/api/service/client_service.go:52-57 | a run in which no scan falls between the read and the comparison of an assignment meets the conditions on online rows and on recorded times |
| `RegistryRuns.OvertakenAssignBreaksPresent` | gou-pc/internal/api/service/client_service.go:52-57 | a run in which an assignment overtaken by a scan marks a silent agent online again |
| `RegistryRuns.ForwardThroughoutIff` | gou-pc/internal/tcpserver/tcpserver.go:42-54 | no step of a run moves a recorded last-seen time backwards exactly when no write-back of an assignment writes an earlier one |
| `RegistryRuns.LastSeenNeverGoesBack` | gou-pc/internal/tcpserver/tcpserver.go:42-54 | then the recorded last-seen time of a client never goes backwards along the run |
| `RegistryRuns.UnloadedDrawDisplacesIff` | gou-pc/internal/agent/manager_agent.go:26-90 | the run of a first registration without a load displaces a row exactly when "001" is stored |
| `RegistryRuns.LoadBetweenDrawAndSaveDisplaces` | gou-pc/internal/agent/manager_agent.go:31-93 | in the run load, draw, load, draw, save, save, from any table, both draws get the same id and the second save deletes the row of the first |
| `RegistryRuns.OvertakenLoadDisplaces` | gou-pc/internal/agent/manager_agent.go:31-60 | so it does if a load reads the table before a whole registration and sets the counter after it, though it falls between no draw and its save |
| `RegistryRuns.LoadedDrawDisplacesIff` | gou-pc/internal/agent/manager_agent.go:51-108 | the run of a load and a registration displaces a row exactly when the counter is 1000 and "1000" is stored |
| `RegistrySteps.Register` | gou-pc/internal/tcpserver/tcpserver.go:124-133 | what the registry does for a device is the run draw, save, or no step exactly if the device is found |
| `RegistrySteps.LoadClients` | gou-pc/internal/agent/manager_agent.go:30-62 | a load is the run of its two halves |
| `RegistrySteps.Hello` | gou-pc/internal/tcpserver/tcpserver.go:175-187 | a hello is a step at the time of the clock |
| `RegistrySteps.UpdateAgentStatus` | gou-pc/internal/tcpserver/tcpserver.go:31-54 | a turn of the status scan is a load and a scan |
| `RegistrySteps.DeleteClient` | gou-pc/internal/api/repository/client_repository.go:129-140 | deleting a client is a step |
| `RegistrySteps.AssignUserToClient` | gou-pc/internal/api/service/client_service.go:60-74 | an assignment that succeeds is the run read, compare, write on the client's row, and one that does not is no step |
| `RegistrySteps.DeletedAssignmentIsDropped` | gou-pc/internal/api/repository/client_repository.go:82-88 | an assignment to a client that is deleted before the repository looks it up changes nothing |
| `RegistrySteps.AnonymousAssignmentIsDropped` | gou-pc/internal/api/repository/client_repository.go:82-84 | so does one to a row without a client id |
| `SqlUpdate.JoinFields` | gou-pc/internal/api/repository/user_repository.go:151-160 | the fields separated by comma and space |
| `SqlUpdate.ParseOfJoined` | gou-pc/internal/api/repository/client_repository.go:115-116 | the database reads exactly the collected columns, in order, out of the SET list |
| `SqlUpdate.ExecCollected` | gou-pc/internal/api/repository/client_repository.go:115-117 | placeholders and arguments line up, so executing the statement sets each column in the keyed rows and leaves the others alone |
| `SqlUpdate.ExecRefuses` | gou-pc/internal/api/repository/client_repository.go:115-121 | a statement is refused exactly if it sets a column that the table does not have or its arguments do not match |
| `ClientRepository.CollectFields` | gou-pc/internal/api/repository/client_repository.go:91-111 | for every subset of changed fields the collected columns and arguments write the differing fields over the row as it is stored by then |
| `Clients.PatchedIsMerge` | gou-pc/internal/api/repository/client_repository.go:93-111 | with nothing in between that is the merge of patch and row |
| `ClientRepository.Repository.ClientUpdate` | gou-pc/internal/api/repository/client_repository.go:78-127 | the table becomes the pointwise merge of the patch into the keyed row, field by field, or stays with the right error |
| `ClientRepository.Repository.ClientFindByID` | gou-pc/internal/api/repository/client_repository.go:142-163 | the row with this client id, or none exactly if there is none |
| `ClientRepository.Repository.ClientFindByAgentID` | gou-pc/internal/api/repository/client_repository.go:165-186 | the row with this agent id, or none exactly if there is none |
| `ClientRepository.Repository.ClientGetClientIDByAgentID` | gou-pc/internal/api/repository/client_repository.go:215-229 | the client id that the OTP scan finds; an error for the empty id |
| `ClientRepository.Repository.ClientDeleteByID` | gou-pc/internal/api/repository/client_repository.go:129-140 | exactly the row of this client id is gone and the others stay, in order |
| `ClientRepository.Repository.AssignUserToClientByAgentID` | gou-pc/internal/api/service/client_service.go:44-58 | only user_name of the agent's row changes, or the error and nothing changes |
| `ClientRepository.Repository.AssignUserToClientByClientID` | gou-pc/internal/api/service/client_service.go:60-74 | only user_name of the client's row changes, or the error and nothing changes |
| `ClientRepository.Repository.DeleteClientByAgentID` | gou-pc/internal/api/service/client_service.go:136-145 | exactly the row of this agent id is gone |
| `ClientRepository.AssignIsMerge` | gou-pc/internal/api/service/client_service.go:56-57 | writing back the row that was read, with a new user name, is an assignment of the user name |
| `ClientRepository.MergeChangesOnlyUserIff` | gou-pc/internal/api/service/client_service.go:52-57 | if the row changed since it was read, an assignment changes only the user name exactly when what was read is empty or still stored |
| `ClientRepository.OvertakenAssignComesOnline` | gou-pc/internal/api/service/client_service.go:52-57 | an assignment overtaken by a status scan marks an agent online whose last hello is more than 30 s old |
| `ClientRepository.OvertakenAssignGoesBack` | gou-pc/internal/api/service/client_service.go:52-57 | an assignment overtaken by a status scan marks the row offline and moves last_seen back |
| `UserRepository.CollectFields` | gou-pc/internal/api/repository/user_repository.go:114-139 | for every subset of given fields the columns and arguments make the merge, always with updated_at |
| `UserRepository.Repository.UserUpdate` | gou-pc/internal/api/repository/user_repository.go:110-149 | of the user named each field that is given is set and each other stays, with the time of the update; the others stay, and an unknown name changes nothing |
| `Lines.SplitLines` | gou-pc/internal/agent/agent.go:334-347 | the loop over runes gives the lines of the text, also where the encoding is broken |
| `Lines.PayloadsOfCut` | gou-pc/internal/agent/agent.go:334-347 | cutting a text inside a line adds exactly one non-empty line, cutting it elsewhere changes none |
| `Lines.SplitDistributesIff` | gou-pc/internal/agent/agent.go:334-347 | splitting distributes over a concatenation exactly when the first part ends a line or the second is empty |
| `Lines.PayloadsKeepBytes` | gou-pc/internal/agent/agent.go:334-347 | the non-empty lines together are the text without its newlines |
| `Tail.LogTail.Poll` | gou-pc/cmd/client/main.go:156-177 | one turn: reset on truncation, what is sent, and the offset, which moves even if the read failed |
| `Tail.LogTail.SendLines` | gou-pc/cmd/client/main.go:164-173 | every non-empty line is handed on, in order |
| `Tail.PollsContinue` | gou-pc/cmd/client/main.go:142-179 | over a growing file each poll reads from where the one before stopped |
| `Tail.PollsKeepBytesIff` | gou-pc/cmd/client/main.go:142-179 | no byte is skipped or repeated exactly when every chunk whose read failed held only newlines |
| `Tail.PollsSendLinesIff` | gou-pc/cmd/client/main.go:142-179 | the payloads are the non-empty lines of the whole file exactly when no poll cut a line in two |
| `Tail.LinesSentAtLeastOnce` | gou-pc/cmd/client/main.go:138-179 | over crashes, restarts and lost offset files every line below the offset was handed on at least once per occurrence |
| `Tail.RestartResumes` | gou-pc/cmd/client/main.go:138-176 | after a restart reading goes on behind what was read if the offset was saved, at the saved offset if not, and at the beginning if the offset file is empty |
| `Tail.CrashSendsBeginning` | gou-pc/cmd/client/main.go:164-173 | a turn that is cut short after some requests has sent exactly that many of the lines, from the first on |
| `Tail.EmptiedThenRestarted` | gou-pc/cmd/client/main.go:138-159 | after a log was emptied and the client restarted, the new beginning is passed over exactly when the log has reached its old size |
| `Json.UnescapeOfEscape` | gou-pc/internal/tcpserver/tcpserver.go:220 | every string is read back out of its escaped text |
| `Json.EscapeIsSafe` | gou-pc/internal/tcpserver/tcpserver.go:220 | escaped text has no control character, nothing that HTML gives a meaning, and no line separator |
| `Json.KnownEscapes` | gou-pc/internal/tcpserver/tcpserver.go:220 | how the characters that must be escaped are written |
| `Json.OtherSpellings` | gou-pc/internal/logcollector/logcollector.go:22-26 | an escaped slash, capital hex digits and an empty object are read too |
| `Json.ControlIsRefused` | gou-pc/internal/logcollector/logcollector.go:22-31 | a string with a raw control character is refused |
| `Json.ReadObjectOfText` | gou-pc/internal/logcollector/logcollector.go:22-26 | an object is read back with its members, whatever follows it |
| `Json.BeginningIsNoObject` | gou-pc/internal/logcollector/logcollector.go:22-31 | no proper beginning of an object is read as an object |
| `Archive.LoadArchiveLogs` | gou-pc/internal/logcollector/logcollector.go:16-35 | all entries up to the end of the file, or an error if one is malformed |
| `Archive.DecodeOfMarshal` | gou-pc/internal/tcpserver/tcpserver.go:215-220 | an archived entry is decoded as it was, whatever follows it |
| `Archive.EveryEntryIsRead` | gou-pc/internal/tcpserver/tcpserver.go:220-227 | for every interleaving of the appends of any number of connections each entry is loaded once, in landing order |
| `Archive.WrittenIsRead` | gou-pc/internal/logcollector/logcollector.go:22-34 | entries that one connection wrote are loaded in their order, whatever follows them |
| `Archive.TornArchiveIsReadIff` | gou-pc/internal/tcpserver/tcpserver.go:223 | an object written in part makes the whole archive unreadable, unless nothing or all of it was written |
| `Archive.MarshalHasNoNewline` | gou-pc/internal/tcpserver/tcpserver.go:220 | no entry, whatever it says, has a newline in its object |
| `Archive.OneNewlinePerEntry` | gou-pc/internal/tcpserver/tcpserver.go:223-224 | in every interleaving there is one newline per entry, less the connections between their two appends |
| `Archive.OneByOneIsWritten` | gou-pc/internal/tcpserver/tcpserver.go:220-227 | the run of one connection alone leaves the file that the handler writes |
| `LogPages.ReverseInPlace` | gou-pc/internal/logcollector/logcollector.go:43-46 | the swap loop leaves the reversed contents |
| `LogPages.TakePage` | gou-pc/internal/logcollector/logcollector.go:47-56 | the slice is in bounds for every page from the first on, and holds that page's entries |
| `LogPages.GetLogsPaged` | gou-pc/internal/logcollector/logcollector.go:38-57 | a page of the reversed log and the total, or the loader's error |
| `LogPages.GetAllLogs` | gou-pc/internal/api/repository/log_repository.go:26-36 | the reversed log |
| `LogPages.FilterByAgent` | gou-pc/internal/api/repository/log_repository.go:43-48 | the agent's entries, in order |
| `LogPages.OfAgentKeeps` | gou-pc/internal/api/repository/log_repository.go:43-48 | every entry of the agent is kept as often as it is there, and no other |
| `LogPages.GetLogsByAgentID` | gou-pc/internal/api/repository/log_repository.go:38-54 | the agent's entries of the reversed log |
| `LogPages.GetLogsPagedByAgentID` | gou-pc/internal/api/repository/log_repository.go:61-82 | a page of the agent's entries in their original order, and their number |
| `LogPages.FilterOfReversed` | gou-pc/internal/api/repository/log_repository.go:43-52 | reversing then filtering is filtering then reversing |
| `LogPages.PagesTile` | gou-pc/internal/logcollector/logcollector.go:47-56 | the pages up to the last are the whole log, and exactly the later ones are empty |
| `LogPages.PagesShowTheArchive` | gou-pc/internal/logcollector/logcollector.go:38-57 | the pages of an archive written concurrently show every entry, newest first |
| `Names.DomainUsernameStringAlloc` | cpp/helpers.cpp:648-679 | the joined name starts with the domain, ends with the user name, and splits into them exactly when the domain has no backslash; or out of memory |
| `Names.SplitDomainAndUsername` | cpp/helpers.cpp:681-737 | the parts around the first backslash; which error otherwise, and exactly when |
| `Names.SplitOfJoinIff` | cpp/helpers.cpp:681-700 | splitting a join gives both parts back exactly when the domain has no backslash |
| `Names.SplitExistsIff` | cpp/helpers.cpp:681-700 | a name can be split, and joins again to itself, exactly when it has a backslash |
| `Kerb.UnicodeStringInitWithString` | cpp/helpers.cpp:132-168 | the counted string, exactly for strings of at most 32767 characters |
| `Kerb.KerbInteractiveUnlockLogonInit` | cpp/helpers.cpp:199-268 | the three strings and the message type of the scenario, or which error |
| `Kerb.WideBytesAt` | cpp/helpers.cpp:177-188 | each character is two bytes, the low one first |
| `Kerb.Blob.CopyText` | cpp/helpers.cpp:177-188 | the bytes of the text replace just their own range |
| `Kerb.KerbInteractiveUnlockLogonPack` | cpp/helpers.cpp:288-348 | the packed structure, its offsets, its bytes and its size below 2^32 |
| `Kerb.Blob.KerbInteractiveUnlockLogonUnpackInPlace` | cpp/helpers.cpp:544-572 | offsets become addresses if all three ranges are within the size; null stays null |
| `Kerb.PackTiles` | cpp/helpers.cpp:297-336 | the three strings lie end to end from the structure to the end, and the unpacker's check accepts them |
| `Kerb.UnpackOfPack` | cpp/helpers.cpp:544-572 | unpacking gives message type, domain, user name and password back, wherever the allocation lies |
| `Kerb.UnpackAgain` | cpp/helpers.cpp:544-572 | unpacking twice is unpacking once |
| `Tile.CSampleCredential.SetStringValue` | cpp/CSampleCredential.cpp:323-342 | only the two editable fields take a value, and a failed copy leaves the field empty |
| `Tile.CSampleCredential.SetDeselected` | cpp/CSampleCredential.cpp:209-228 | the password is cleared and no other field changes |
| `Tile.CSampleCredential.GetSerialization` | cpp/CSampleCredential.cpp:500-673 | each refusal and its message; for a local user a finished credential exactly under the stated conditions, what it then unpacks to, and that the password in it is the encrypted one whenever it must be encrypted |
| `Tile.CSampleCredential.SerializeLocal` | cpp/CSampleCredential.cpp:578-619 | finished exactly when every call succeeds and the parts fit, and then the blob unpacks to the name's parts and the password, as the system encrypted it unless it is empty, encrypted already or for CredUI |
| `Tile.CanPackIff` | cpp/helpers.cpp:483-537 | a credential can be packed exactly if, among others, the system encrypts a password that must be encrypted, and what it gives fits |
| `Tile.AcceptsIff` | cpp/CSampleCredential.cpp:513-570 | the tile takes exactly the six-character secret followed by a password of 1 to 255 characters |
| `Tile.CodeThenPassword` | cpp/CSampleCredential.cpp:528-566 | code and password typed together are accepted for the right code alone, and the password alone is passed on |
| `Otp.GenerateOTPSecret` | gou-pc/internal/crypto/otp.go:12-26 | the five parts of the digest in the order 5, 1, 4, 2, 3 |
| `Otp.SecretKeepsDigest` | gou-pc/internal/crypto/otp.go:16-26 | the order uses every byte once, so different digests give different keys |
| `Otp.SecondsLeftInRangeIff` | gou-pc/internal/crypto/otp.go:52-53 | 1 to 30 exactly for clocks from the epoch on and multiples of 30 s before it |
| `Otp.StepLastsSecondsLeft` | gou-pc/internal/crypto/otp.go:52-53 | the time step stays the same exactly for less than secondsLeft seconds, and then moves on by one |
| `Otp.TruncateTakesFourBytes` | gou-pc/internal/crypto/otp.go:48 | truncation is in bounds for every 20-byte code and takes the low 31 bits of four bytes |
| `Otp.CodeHasSixDigits` | gou-pc/internal/crypto/otp.go:48 | the code has exactly six digits and their value is the truncated number modulo a million |
| `Otp.GetTOTPWithExpire` | gou-pc/internal/crypto/otp.go:44-54 | 1 to 30 seconds that end on a multiple of 30, for clocks from the epoch on, and the code of the counter k with 30k <= clock < 30k + 30 under the permuted key |
| `Otp.OnlyThatCodeOpensTile` | cpp/CSampleCredential.cpp:528-546 | of all six-digit codes the tile accepts just that of the time step at which its secret is fetched |
| `Otp.ShownCodeOpensTile` | cpp/CSampleCredential.cpp:513-570 | a code shown at one time is accepted by a tile whose secret is fetched within the seconds left, before any password of 1 to 255 characters and no other |

## Left out

- Link: the concurrent whole is a step system on values; the loops alone, as imperative programs, are in RequestLoop and Handler.
- Link: replies of 4 GiB and more are not considered, closing the agent's request channel is not modelled, and a write is taken to return before the peer is blocked by it.
- Handler.Handler.HandleRequest: errors of the query for an agent's existence are not modelled; in the code they count as not registered.
- Framing: JSON of messages is a pair of functions with the properties of `Faithful`; only the archive's JSON is written out.
- AES, SHA-1, HMAC and CredProtect are arbitrary functions; the base32 text of the OTP key, which the TOTP library decodes again, is skipped.
- Registry.Server.LoadClients: here it runs alone, RegistryRuns takes it apart; rows whose columns are NULL are not in the model.
- Registry: last-seen times are seconds, not formatted local time; the text in the patch of an update is such a number too.
- RegistryRuns: the load a status scan begins with is apart from it, but the marking of the rows is one step, so the time between its read and its writes is not modelled there.
- SqlUpdate: the WHERE clause is a comparison of one key column; the rest of SQL and the driver is not part of this model.
- Tail.LogTail.Poll: errors of opening and stat leave everything as it was and are skipped; the file does not change between stat and read.
- Lines: text is bytes; that JSON replaces broken UTF-8 in a payload is not modelled.
- Json: objects with string members only; other values, surrogate escapes and keys that differ in case are treated as malformed or unknown.
- Archive: text is characters rather than their UTF-8 bytes; log rotation is left out.
- LogPages.GetLogsPaged: page and size are at least 1 and 0, and their product does not overflow.
- Kerb: fields of the structure are fields of an object, so padding and byte order of its integers do not appear.
- Names.SplitDomainAndUsername: strings above the 2^31 limit of the string-safe functions are not considered.
- Tile: the path of users who are not local is one opaque outcome; repacking for 32-bit callers, the other fields, events and reporting are left out.
- Otp: validation with skew is in a library that is not part of this model.
- Pipeline: one connection at a time appends to the archive there; connections that append at once are in Archive. Lines whose request is over 49136 bytes make the server close the connection, so they are outside it.
- The REST handlers, JWT, configuration, the named pipe between client and tile, the web interface and the COM plumbing are not part of this model.
