# Verification of the chat server's control plane

A Dafny model of the LAN chat project: the server that keeps users, sessions, groups and
multicast addresses, the containers it is built on, the TLV protocol, the network layer
that cuts TCP streams into messages, and the client that mirrors its session.

Every operation exists twice. The classes and methods follow the C code: they mutate
records, linked lists, hash buckets, buffers and arrays in place, with the same branches, constants and
error paths. Each is proved to compute a function on plain values (`ServerState.dfy`,
`NetState.dfy`, `Protocol.dfy`, `Chains`, `ClientState.dfy`), and the properties of the
system are proved about those functions, over every request, every run and every reachable
state. `ServerRun.Serve` and `Session.PlayFromStart` close the circle: they build the objects,
run them, and end in the state the functions compute.

| file | contents |
|---|---|
| ChatTypes.dfy, Sequences.dfy | constants, requests, replies, allocation outcomes; facts about sequences |
| Framing.dfy, Protocol.dfy, ProtocolBuffers.dfy | frames, the codec as functions, the codec on buffers |
| GenQueue.dfy, GenDlist.dfy, Primes.dfy, HashUtils.dfy, HashMap.dfy | ring buffer, sentinel list, prime search, djb2, chained hash table |
| NameLists.dfy | scanning and unlinking in lists of names |
| McastPool.dfy | the 255 addresses and the pool |
| ServerState.dfy | the server's operations as functions |
| UserMng.dfy, GroupMng.dfy, ServerMng.dfy | the managers over hash tables and linked lists, and the dispatcher, as classes |
| ServerInvariant.dfy | what every request keeps |
| Reference.dfy | the reference chat and the refinement |
| Runs.dfy, RunProperties.dfy, PoolOrder.dfy | theorems over whole runs |
| NetState.dfy, ServerNet.dfy, NetProperties.dfy | connection table, buffers, end-to-end theorems |
| SelectLoop.dfy, ServerRun.dfy | rounds of select as runs of events; the server's objects built and run by the select loop |
| Wire.dfy, Program.dfy | the answers in bytes and numbers; one whole session of the program |
| ClientState.dfy, ClientMng.dfy, Lockstep.dfy, Session.dfy | the client, its lockstep with the server, and a client object talking to a server object |

## How the world outside is modelled

- Allocation: `Mem` records the outcome of every allocation a request may make; a run is
  given an arbitrary oracle `nat -> Mem`, one entry per request or disconnect. A theorem
  that says nothing about the oracle holds whatever fails.
- Sockets: accept, recv and hang-up are events. `OsHonest` states the assumption: accept
  returns -1 or a descriptor that is not open and below FD_SETSIZE, recv returns no more
  than the space offered. `send` appends to a log.
- Names are the contents of C strings, bytes before the first NUL; `Trunc` is the
  32-byte `strncpy`.
- `size_t` counters are unbounded; `CounterBound` shows that the group counters stay small.
  Hashing and the prime search compute modulo the word.

## Where the code and its documentation differ

- shared/protocol.h describes every status as wrapped in its own length byte. The code
  writes the status right after the frame length (shared/protocol.c:110-113,
  shared/protocol.c:215-222), and so does the model.
- The comment in shared/protocol.c says decoders never read past the buffer. That holds, but
  on a buffer longer than the frame they can read past the frame: exactly under the guards
  of `UserPassOverreads`, `GroupnameOverreads` and `ReplyOverreads`. Server and client always
  pass a buffer of the frame's own length, where acceptance is exactly the layout
  (`UserPassAccepts`, `UserPassAccepted`, `GroupnamePartialInverse`, `GroupnameAccepted`).
- HashMap.h promises a capacity greater than the one requested. It is greater exactly if
  the request is not prime (`GetNextPrime`, `HashMapCreate`); a request for 101 gets 101
  (`NextAfterHundred`).

## Model

| member | source | states |
|---|---|---|
| Reference.ServeRefines | server/server_mng.c:75-326 | from any state satisfying the invariant, every request leaves the state and gets the reply of the reference chat (accounts, sessions, groups with member sets), for decisions taken only on memory and pool |
| Reference.DecideLegal | server/group_mng.c:77-96 | the address a new group gets is one of the pool's and held by no live group; refusals carry SERVER_FULL, or PROTOCOL for create |
| Reference.DecideDetermined | server/group_mng.c:77-80 | with memory available and nothing lost, only a create is ever refused, and exactly when 255 groups are alive |
| Reference.AbsInhabited | server/group_mng.c:152-161 | a group exists only while it has members, and every member has a session |
| Reference.RegisterRefines | server/user_mng.c:75-125 | register is account creation in the reference |
| Reference.LoginRefines | server/user_mng.c:127-166 | login is the reference's: the online flag and the socket array agree with one session map |
| Reference.LogoutRefines | server/user_mng.c:168-213 | the list walk with its callback amounts to removing the user from every member set and dropping the groups left empty |
| Reference.CreateRefines | server/server_mng.c:197-246 | create with its rollback is an atomic create of the reference |
| Reference.JoinRefines | server/server_mng.c:248-299 | join with its increment and undo is an atomic join of the reference |
| Reference.LeaveRefines | server/server_mng.c:301-326 | list removal plus counter decrement is removal from a member set, closing the group when it empties |
| RunProperties.RunRefines | server/server_mng.c:75-149 | over every run of frames and disconnects the answers and the abstract state are those of the reference, every decision being legal where it is taken |
| RunProperties.RunFromStart | server/server_mng.c:30-149 | from start-up on, over every run, answers and state are those of the reference that starts with no account, no session and no group |
| RunProperties.StartsEmpty | server/user_mng.c:29-55 | a server that has just started knows no user, no session and no group |
| RunProperties.StatusesDetermined | server/server_mng.c:75-149 | with every allocation succeeding, two servers that abstract to the same chat up to addresses answer every later run with the same statuses |
| Runs.ReachableInv | server/server_mng.c:30-149 | every reachable state satisfies the invariant (indices, lists, counters, addresses) whatever arrives and whatever fails; with no loss all 255 addresses are accounted for |
| ServerInvariant.ServeInv | server/server_mng.c:82-136 | every request, with any allocations failing, keeps the invariant |
| ServerInvariant.LogoutInv | server/user_mng.c:187-210 | logout keeps the invariant although the group map changes inside its loop |
| ServerInvariant.DepartedInv | server/group_mng.c:146-162 | when a name leaves a user's list the group is there, its counter is positive, and the decrement or close keeps the invariant |
| ServerInvariant.CounterBound | server/group_mng.c:123 | a counter equals its member set, lies in 1..FD_SETSIZE, and every member is online |
| RunProperties.ReachableCounter | server/group_mng.c:109-165 | in every reachable state a counter is the number of online users listing the group and never exceeds FD_SETSIZE |
| RunProperties.LeaveAlwaysFindsGroup | server/server_mng.c:312-317 | no leave in any run is answered GROUP_NOT_FOUND |
| ServerInvariant.CreateRolledBack | server/server_mng.c:220-227 | a create whose membership step fails restores users and groups; the pool is rotated, a permutation if the return succeeds |
| ServerInvariant.JoinRolledBack | server/server_mng.c:272-288 | a join rejected after the increment restores the whole server, so it can never close the group |
| RunProperties.LogoutEffects | server/user_mng.c:187-210 | logout closes exactly the groups whose only member was the user, lowers the user's other groups by one, and changes no other user, session or address |
| RunProperties.OtherSocketsUntouched | server/server_mng.c:75-149 | nothing that happens on one socket changes the session, record or group list of the user on another |
| RunProperties.AddressAgreement | server/server_mng.c:279 | while a group lives its address does not change and every success reply for it carries that address |
| RunProperties.AddressLifetime | server/server_mng.c:232-233 | over the whole life of a group, from the reply to the create that opened it on, every success reply for it carries the address of that first reply, which the group holds to the end; that first reply answers a create exactly when the group did not exist before |
| RunProperties.AddressesDistinct | server/group_mng.c:93-94 | two live groups never share an address, and no live address is in the pool |
| RunProperties.PoolExhausted | server/group_mng.c:77-80 | while nothing is lost, pool and live groups are exactly the 255 addresses, a returned address always has room, and a fresh create yields SERVER_FULL exactly when 255 groups are alive |
| PoolOrder.AddressReusedInTurn | server/free_mc_queue.c:70-118 | with memory available, an address anywhere in the pool behind k others is the one in the (k+1)-th later success reply to a create, the k replies before it carrying those k in order, and until then it waits at the place they have moved it to |
| PoolOrder.RunMoves | server/group_mng.c:77-161 | every run moves the pool by takes at the front and puts at the back only, and what it takes is the front address once for each create by a logged-in user for an unused name while the pool is not empty |
| PoolOrder.AddressTakenInTurn | server/free_mc_queue.c:70-118 | the same turn counted in creates that take an address, whatever allocations fail |
| PoolOrder.GrantsAreTaken | server/group_mng.c:77-106 | the addresses in success replies to creates are, in order, among those taken, whatever fails |
| PoolOrder.TakenAreGrants | server/group_mng.c:77-106 | with memory available every address taken is granted, so the two sequences are equal |
| PoolOrder.LogoutReturns | server/user_mng.c:187-206 | a logout puts the addresses of the groups it closes behind the pool in the order in which the user had joined them |
| McastAddresses.AddressInjective | server/free_mc_queue.c:39-46 | decimal printing makes distinct addresses of distinct indices |
| McastAddresses.AddressText | server/free_mc_queue.c:39-46 | the text of the i-th address byte by byte, 239.1.1.i without leading zeros, and its port 6000 |
| McastAddresses.AddressFits | server/free_mc_queue.c:44-45 | every pool address is NUL-free and short enough for the reply encoder |
| McastAddresses.FilledContents | server/free_mc_queue.c:39-52 | the initial pool holds exactly the addresses whose record could be allocated, once each |
| McastAddresses.FilledComplete | server/free_mc_queue.c:39-52 | when every record can be allocated the pool is all 255 addresses, the k-th one at place k |
| McastAddresses.FilledAscends | server/free_mc_queue.c:39-52 | whichever records can be allocated, the indices ascend through the pool |
| FreeMcQueue.FreeMcQueue.constructor | server/free_mc_queue.c:18-55 | the fill loop builds that pool, for any pattern of failing allocations; when none fails, the 255 addresses in ascending order |
| FreeMcQueue.FreeMcQueue.Take | server/free_mc_queue.c:70-91 | takes the front address, or reports exhaustion exactly on an empty pool |
| FreeMcQueue.FreeMcQueue.Return | server/free_mc_queue.c:93-118 | appends the address; it is dropped exactly when its record cannot be allocated or the pool is full |
| UserManager.UserMng.Register | server/user_mng.c:75-125 | computes registration over the hash table: a fresh record with a fresh empty list, or nothing |
| UserManager.UserMng.Login | server/user_mng.c:127-166 | computes login on both indices, which keep sharing the same record objects |
| UserManager.UserMng.Logout | server/user_mng.c:168-213 | computes the abstract logout on both managers at once, the callback mutating the group manager inside the loop |
| UserTables.LeaveEach | server/user_mng.c:187-206 | the loop over the sentinel list terminates, unlinks every node and applies the leave callback to every name, front to back |
| UserTables.UserTable.LeaveGroups | server/user_mng.c:187-206 | after that loop the hash table, the other users' records and their lists are as before and this user's list is empty |
| UserTables.UserTable.Insert | server/user_mng.c:114-122 | entering a record in the hash table adds exactly that user, or nothing on a duplicate or without memory; all other records and lists stay |
| UserTables.UserTable.Find | server/user_mng.c:85-89 | looking a name up in the hash table yields the very record of that user, exactly if there is one |
| UserManager.UserMng.JoinGroup | server/user_mng.c:220-267 | the iterator scan decides membership of the linked list; otherwise a node with the name is pushed at the tail, if memory allows |
| UserManager.UserMng.LeaveGroup | server/user_mng.c:269-303 | unlinks the node of the first occurrence of the name, or reports NOT_IN_GROUP and changes nothing |
| UserManager.UserMng.IsLoggedIn | server/user_mng.c:305-312 | true exactly when the descriptor is in range and has a session |
| NameLists.FindName | server/user_mng.c:236-245 | walking the list with an iterator stops at the first node holding the name, or at the end exactly if there is none |
| NameLists.RemoveName | server/user_mng.c:287-300 | unlinking that node removes the first occurrence and keeps all other nodes |
| GroupTables.GroupTable.Find | server/group_mng.c:118-121 | looking a name up in the hash table yields the very record of that group, exactly if there is one |
| GroupTables.GroupTable.Insert | server/group_mng.c:97-103 | entering a record in the hash table adds exactly that group, or nothing on a duplicate or without memory |
| GroupTables.GroupTable.Remove | server/group_mng.c:160 | removing a name from the hash table removes exactly that group |
| GroupManager.GroupMng.CreateGroup | server/group_mng.c:59-107 | computes creation over hash table and pool, giving the address back on either failure |
| GroupManager.GroupMng.JoinGroup | server/group_mng.c:109-127 | raises the counter and hands out the group's address |
| GroupManager.GroupMng.LeaveGroup | server/group_mng.c:129-165 | lowers the counter; at zero closes the group and returns its address |
| ServerManager.ServerMng.constructor | server/server_mng.c:30-55 | the initial server of every run, made of new objects: no users, no groups, the filled pool |
| ServerManager.ServerMng.CreateFor | server/server_mng.c:209-236 | the two-manager transaction computes the abstract create, rollback included |
| ServerManager.ServerMng.JoinFor | server/server_mng.c:261-288 | the two-manager transaction computes the abstract join, undo included |
| ServerManager.ServerMng.LeaveFor | server/server_mng.c:312-317 | user list first, then group counter: the abstract leave |
| ServerManager.ServerMng.HandleMessage | server/server_mng.c:75-136 | the dispatcher computes the step of the pure server on the frame received and logs exactly the bytes it owes |
| ServerManager.ServerMng.OnDisconnect | server/server_mng.c:138-149 | a disconnect is a logout that sends nothing |
| Wire.RegisterOnWire | server/server_mng.c:153-173 | which bytes answer a registration, opcode and status in numbers: 0, 1 for a taken name, 10 without memory |
| Wire.LoginOnWire | server/server_mng.c:175-195 | which bytes answer a login: 255, 4, 2, 3, 4 or 0, each with its condition, in the order of the checks |
| Wire.LogoutOnWire | server/server_mng.c:99-117 | which bytes answer a logout: 255, 5 or 0 |
| Wire.CreateOnWire | server/server_mng.c:197-246 | which bytes answer a create: 5, 6, 10, 255 or 10 by its condition, else the address at the front of the pool |
| Wire.JoinOnWire | server/server_mng.c:248-299 | which bytes answer a join: 5, 7, 8 or 10 by its condition, else the group's address |
| Wire.LeaveOnWire | server/server_mng.c:301-326 | which bytes answer a leave: 255, 5, 9 or 0 |
| Wire.NotOnWire | server/server_mng.c:82-136 | other opcodes, names and passwords of 33 bytes or more, and fields that do not fit their frame change nothing and get no answer |
| Wire.RequestBytes | shared/protocol.c:32-193 | the bytes a client sends for each request, in numbers, and that it sends none for a name of 33 bytes or more |
| Wire.RepliesRead | shared/protocol.c:117-275 | what a client reads in the replies, status, address and port, in numbers |
| Wire.AddressBound | shared/protocol.c:204-213 | addresses of 16 bytes or more are neither encoded nor accepted |
| Wire.RunKeepsAccount | server/user_mng.c:75-125 | an account is never lost and its password never changes, over every run |
| Wire.RegisterThenLogin | server/user_mng.c:75-166 | after a registration answered 0 and any run, a login on a free socket is answered 3 exactly if the password differs, and otherwise 0 unless the user is online |
| Wire.FirstSession | server/server_net.c:278-326 | a client that connects to a fresh server and sends a registration, a login and a create in any pieces gets exactly these three replies, the last one naming 239.1.1.1 port 6000 |
| Wire.FirstSessionHappens | server/server_net.c:264-281 | such a run is among the honest ones |
| Framing.ParseCuts | server/server_net.c:291-325 | parsing loses and adds no byte and stops only when no complete frame is left |
| Framing.CutUnique | server/server_net.c:295-308 | there is only one maximal cut of a byte sequence into frames and a rest |
| Framing.FragmentationIndependent | server/server_net.c:278-281 | however a stream is split into received chunks, the frames delivered are that cut of the whole stream |
| Framing.ParseOfFrames | server/server_net.c:291-325 | a concatenation of frames is cut back into those frames |
| ServerNetwork.ProcessBuffer | server/server_net.c:284-326 | the accumulate, parse and shift loop terminates, dispatches exactly the complete frames in order and leaves exactly the bytes behind them |
| ServerNetwork.ServerNet.HandleClientData | server/server_net.c:247-282 | computes the receive or hang-up step of the network model, for any chunk that fits the space offered; what the server gained are new objects |
| ServerNetwork.ServerNet.HandleNewConnection | server/server_net.c:211-245 | the new descriptor takes the first free slot and is monitored; without a slot nothing changes |
| ServerNetwork.ServerNet.constructor | server/server_net.c:52-87 | an empty table of new objects monitoring only the listening descriptor |
| ServerRun.HandleSlot | server/server_net.c:122-130 | the test for one slot and its handler perform that slot's step of a round, which SweepReads spells out |
| ServerRun.SelectRound | server/server_net.c:116-130 | one round of the loop performs the events of the round: an arrival first, then the ready slots in order |
| ServerRun.RunLoop | server/server_net.c:101-131 | the select loop, over any rounds, takes the objects from the state they have to the state the network model reaches by the events of those rounds |
| ServerRun.Serve | server/server_net.c:90-134 | the whole server, built and run: its objects end in the state of an honest run of the network model from the initial one, whose events are what select, accept and recv reported (RoundReads, LoopDelivers), so the theorems about such runs are about this program |
| ServerRun.ServeEvents | server/server_net.c:90-134 | every honest run of the network model is performed by the objects, event by event, from start-up on |
| SelectLoop.ArrivalHonest | server/server_net.c:116-120 | a connection accepted in a round is not ready in the same round, and the space offered to the other slots is unchanged |
| SelectLoop.RoundHonest | server/server_net.c:103-130 | the events of a round are an honest run if the operating system is honest when select returns: handling one slot does not change what was promised for the others |
| SelectLoop.RoundsHonest | server/server_net.c:101-131 | so are those of any number of rounds |
| SelectLoop.SweepReads | server/server_net.c:122-130 | the pass visits a slot exactly if it is in use and its descriptor ready, once, and reports the bytes recv offered or, if there were none, the hang-up |
| SelectLoop.RoundReads | server/server_net.c:116-130 | a round starts with accept exactly if the listening descriptor is ready, then goes through the slots upwards, reading for each ready one what recv offered |
| SelectLoop.RoundsSplit | server/server_net.c:101-131 | a run of the loop is its rounds one after the other, each of them honest where it happens |
| SelectLoop.LoopDelivers | server/server_net.c:101-131 | while a connection is open, over any rounds, the frames given to the dispatcher are the cut of all the bytes recv has offered on it |
| Program.FirstClient | server/server_net.c:90-134 | the built server, run by its select loop through two rounds, has sent the three replies of a first session, byte for byte |
| NetState.NetStepInv | server/server_net.c:211-282 | accept, receive and hang-up keep the table invariant: distinct descriptors, monitored set equal to table plus listener, sessions only on open slots, no buffer holding a whole frame |
| NetProperties.ReachableNetInv | server/server_net.c:90-134 | that invariant holds in every state reachable under an honest operating system |
| NetProperties.SessionHasSlot | server/server_net.c:226-240 | a logged-in descriptor occupies exactly one open slot and is monitored |
| NetProperties.AcceptedHasNoSession | server/server_net.c:264-275 | an accepted descriptor, fresh or reused, has no session and an empty buffer |
| NetProperties.SlotAvailable | server/server_net.c:224-244 | the table never runs out, so the branch that closes an accepted socket is never taken |
| NetProperties.BufferNeverFull | server/server_net.c:252-260 | of the 771 bytes at most 256 are in use between receives, so the buffer-full branch is never taken |
| NetProperties.MaxFdReached | server/server_net.c:235-238 | the bound handed to select is the largest descriptor there has been |
| NetProperties.NetRunIsRun | server/server_net.c:119-130 | behind any interleaving of connections the server performs a run of plain calls and sends exactly their replies |
| NetProperties.DeliveredIsCut | server/server_net.c:278-326 | while a connection is open its delivered frames are the cut of the bytes it received, whatever the chunks and whatever happens on other connections |
| NetProperties.EndToEnd | server/server_net.c:291-325 | a client's encoded requests, concatenated and fragmented at will among other traffic, reach the dispatcher as exactly those frames in order |
| NetProperties.EndToEndReplies | server/server_mng.c:153-326 | such a client gets exactly one reply per request, in order, each of opcode request + 1 and decoding to the status and address the handler computed |
| NetProperties.ReachableReplies | server/server_net.c:90-134 | the same from start-up on: for every client accepted by a server that has been through anything before |
| NetProperties.DirectCalls | server/server_mng.c:82-136 | a client alone drives the server to the state and the bytes that direct handler calls produce |
| RunProperties.OneReplyPerRequest | server/server_mng.c:82-136 | a frame that is a request by its layout gets one reply, from which the client decodes exactly the status and address the handler computed; any other frame gets none and changes nothing |
| RunProperties.ReachableOneReply | server/server_mng.c:82-136 | so it is in every state reachable from initialisation |
| RunProperties.WellFormedIffDecodes | shared/protocol.c:63-182 | a frame decodes exactly when its bytes have the layout of its opcode |
| Protocol.UserPassRoundTrip | shared/protocol.c:32-102 | decoding an encoded user/password request gives both strings back |
| Protocol.UserPassAccepts | shared/protocol.c:63-102 | a frame with two length-prefixed fields within bounds is accepted, each field cut at its first NUL |
| Protocol.UserPassAccepted | shared/protocol.c:63-102 | only frames with that layout are accepted |
| Protocol.UserPassPartialInverse | shared/protocol.c:32-102 | re-encoding an accepted frame gives its payload up to trailing bytes, and the frame itself exactly when there are none |
| Protocol.GroupnameRoundTrip | shared/protocol.c:131-182 | decoding an encoded group request gives the name back |
| Protocol.GroupnamePartialInverse | shared/protocol.c:131-182 | a frame with the layout is accepted, and re-encoding gives its payload up to trailing bytes |
| Protocol.GroupnameAccepted | shared/protocol.c:158-182 | only frames with the layout are accepted |
| Protocol.StatusRoundTrip | shared/protocol.c:105-128 | a status reply carries its status through both reply decoders |
| Protocol.GroupRepRoundTrip | shared/protocol.c:196-275 | a success reply carries address and port through the decoder; the status follows the length directly and the port is big-endian |
| Protocol.PrefixRejected | shared/protocol.c:63-275 | no strict prefix of a frame is accepted by any decoder, the status decoder included |
| Protocol.RequestRoundTrip | shared/protocol.c:32-193 | every in-bound NUL-free request is recovered from its frame by the dispatcher's decoding |
| Protocol.DecodedFits | shared/protocol.c:63-182 | whatever bytes arrive, a decoded request has NUL-free fields of at most 32 bytes |
| Protocol.DecoderOverreads | shared/protocol.c:63-275 | a buffer for each of those guards on which it holds, with the field beyond the frame's end that is accepted |
| Protocol.UserPassOverreads | shared/protocol.c:63-102 | on any buffer starting with a frame the decoder answers as on the frame alone if and only if the announced fields do not end between the frame's end and the buffer's; otherwise it accepts what it would reject |
| Protocol.GroupnameOverreads | shared/protocol.c:158-182 | the same if-and-only-if for group requests |
| Protocol.ReplyOverreads | shared/protocol.c:117-275 | the same if-and-only-if for group replies; a status reply never depends on what follows it |
| ProtocolBuffers.EncodeUserPassReq | shared/protocol.c:32-60 | writes exactly the frame at the front of the buffer and nothing else, or nothing at all |
| ProtocolBuffers.DecodeUserPassReq | shared/protocol.c:63-102 | returns 0 exactly on acceptable buffers and leaves both strings in the output buffers |
| ProtocolBuffers.EncodeStatusRep | shared/protocol.c:105-114 | writes exactly the three-byte reply |
| ProtocolBuffers.DecodeStatusRep | shared/protocol.c:117-128 | returns 0 exactly on acceptable replies, with the status |
| ProtocolBuffers.EncodeGroupnameReq | shared/protocol.c:131-155 | writes exactly the frame, or nothing at all |
| ProtocolBuffers.DecodeGroupnameReq | shared/protocol.c:158-182 | returns 0 exactly on acceptable buffers and leaves the name in the output buffer |
| ProtocolBuffers.EncodeGroupRepOk | shared/protocol.c:196-225 | writes exactly the success reply, or nothing if the address is too long |
| ProtocolBuffers.DecodeGroupRepOk | shared/protocol.c:228-275 | returns 0 exactly on acceptable replies, with status, address and port; the failure form gives an empty address |
| GenDlist.List.constructor | shared/adt/gen_dlist.c:72-82 | an empty ring of the sentinel alone |
| GenDlist.List.NodeLinkBefore | shared/adt/gen_dlist.c:52-57 | splicing keeps next and prev inverse around the ring and inserts one element at the position |
| GenDlist.List.NodeUnlink | shared/adt/gen_dlist.c:60-66 | unlinking keeps the ring and removes exactly that element |
| GenDlist.List.PushHead | shared/adt/gen_dlist.c:107-114 | prepends the element in a new first node, every other node one position on, or changes nothing without memory |
| GenDlist.List.PushTail | shared/adt/gen_dlist.c:116-123 | appends the element and keeps every other node in place, or changes nothing without memory |
| GenDlist.List.PopHead | shared/adt/gen_dlist.c:125-134 | removes and returns the first element; every other node stays, one position back |
| GenDlist.List.PopTail | shared/adt/gen_dlist.c:136-145 | removes and returns the last element; every other node stays in place |
| GenDlist.List.ItrBegin | shared/adt/gen_dlist.c:151-155 | the iterator to the first element, or to the end |
| GenDlist.List.ItrNext | shared/adt/gen_dlist.c:164-170 | the next position; the end stays |
| GenDlist.List.ItrPrev | shared/adt/gen_dlist.c:172-178 | the previous position; the beginning stays |
| GenDlist.List.ItrGet | shared/adt/gen_dlist.c:180-185 | the element at the position, nothing at the end |
| GenDlist.List.ItrSet | shared/adt/gen_dlist.c:187-194 | replaces the element at the position and returns the old one |
| GenDlist.List.ItrInsertBefore | shared/adt/gen_dlist.c:196-203 | inserts before the position; all other iterators keep their nodes, later ones one position on |
| GenDlist.List.ItrRemove | shared/adt/gen_dlist.c:205-214 | removes the element at the position; all other iterators keep their nodes, later ones one position back |
| GenDlist.List.Size | shared/adt/gen_dlist.c:220-230 | walking next returns to the sentinel after exactly as many nodes as there are elements |
| GenQueue.CellIsRemainder | shared/adt/genqueue.c:79-80 | the tail index is (head + count) modulo the capacity |
| GenQueue.QueueCreate | shared/adt/genqueue.c:15-41 | null exactly for a zero size or without memory, otherwise an empty queue |
| GenQueue.Queue.Insert | shared/adt/genqueue.c:65-84 | appends, or reports overflow exactly when full |
| GenQueue.Queue.Remove | shared/adt/genqueue.c:86-105 | removes the front, or reports emptiness exactly when empty |
| GenQueue.Queue.ForEach | shared/adt/genqueue.c:115-133 | visits front to back and stops after the first refusal |
| GenQueue.TakenInOrder | shared/adt/genqueue.c:65-105 | over any run of takes and puts, what was taken followed by what remains is what was there followed by what was accepted |
| GenQueue.HandedOutInTurn | shared/adt/genqueue.c:65-105 | an element anywhere in the queue behind k others is handed out by exactly the (k+1)-th later successful removal |
| Primes.IsPrime | shared/adt/HashMap.c:278-303 | for every argument of a machine word, squares being computed modulo the word: true exactly for primes for which some reduced square exceeds the argument; so never true of a composite |
| Primes.WrapFreeEnds | shared/adt/HashMap.c:296-302 | if a candidate's square above the argument fits a word, a prime is recognised as one |
| Primes.WrapFree64 | shared/adt/HashMap.c:296 | for 64-bit words that holds exactly for arguments below (2^32 - 5)^2 |
| Primes.GetNextPrime | shared/adt/HashMap.c:305-313 | terminates for every argument, wrap of the increment included, at the first number from the argument on that IsPrime accepts, or at 2 if there is none; with a prime in reach of the word that is the least prime not below the argument, and greater than it exactly if the argument is not prime |
| Primes.PrimeBeyond | shared/adt/HashMap.c:305-313 | there is a prime beyond every number |
| Primes.WideEnough | shared/adt/HashMap.c:305-313 | for every argument, all words wide enough have such a prime, so the search ends there |
| Primes.NextAfterHundred | server/user_mng.c:40-41 | for the capacity 100 the managers ask for, it is 101; for 101 it is 101 again, so the result need not be greater than asked for |
| HashUtils.HashStringDjb2 | server/hash_utils.c:5-22 | the wrapping shift-and-add loop computes 5381 times 33 to the length plus the bytes before the terminator as digits in base 33, modulo 2^64 |
| HashUtils.Djb2Closed | server/hash_utils.c:5-22 | the closed form of the hash, read from the front of the string |
| HashUtils.Djb2OfAb | server/hash_utils.c:5-22 | the hash of the string ab is 5863208 |
| HashUtils.StringKeysEqual | server/hash_utils.c:24-31 | two strings in memory are equal exactly when their contents are, whatever follows the terminators |
| Chains.FindRefines | shared/adt/HashMap.c:182-216 | searching one bucket finds the pair of the map with an equal key, or shows that the whole map has none |
| Chains.HashDecides | shared/adt/HashMap.c:315-329 | a pair lies in the chain numbered hash of its key modulo the number of chains, and in no other |
| Chains.PairUnique | shared/adt/HashMap.c:349-378 | no two keys of the table are equal, so a search has at most one answer |
| Chains.InsertSound | shared/adt/HashMap.c:87-134 | appending a new key to its bucket gives the table of the extended map |
| Chains.RemoveSound | shared/adt/HashMap.c:136-180 | unlinking a pair gives the table of the map without its key |
| Chains.RunRefines | shared/adt/HashMap.c:87-216 | for any interleaving of find, insert and remove the results are those of a finite map, placement, uniqueness and size being kept throughout |
| Chains.WalkMeetsEachOnce | shared/adt/HashMap.c:242-271 | a walk over all buckets meets every pair of the map exactly once |
| HashTable.HashMapCreate | shared/adt/HashMap.c:32-63 | null exactly for a zero capacity or without memory, otherwise a table of the empty map with a prime number of buckets, greater than the capacity asked for exactly if that is not prime (with a prime in reach of the word) |
| HashTable.HashMap.FindInList | shared/adt/HashMap.c:349-378 | the first pair with an equal key and the iterator to it, or the end |
| HashTable.HashMap.Find | shared/adt/HashMap.c:182-216 | computes the table search over the linked lists |
| HashTable.HashMap.Insert | shared/adt/HashMap.c:87-134 | computes the table insertion over the linked lists, for any of the three allocations failing, other buckets untouched |
| HashTable.HashMap.Remove | shared/adt/HashMap.c:136-180 | computes the table removal over the linked lists, other buckets untouched |
| HashTable.HashMap.ForEach | shared/adt/HashMap.c:227-274 | visits a prefix of the walk, the whole of it unless the action refuses a pair, and counts the calls |
| ServerTables.FindIsLookup | server/user_mng.c:86-89 | on a table keyed by names a search is lookup in an ordinary finite map |
| ServerTables.InsertIsExtension | server/user_mng.c:117-122 | an insertion extends that map, or fails exactly on a present name or without memory |
| ServerTables.RemoveIsDeletion | server/group_mng.c:160 | a removal deletes from that map |
| ServerTables.StandsIsSound | shared/adt/HashMap.c:315-378 | a table whose every bucket holds its part of the map is sound as a whole, its size included, and conversely |
| ServerTables.NamePlace | shared/adt/HashMap.c:315-329 | where the record of a name lies in a manager's table, by the closed form of djb2 |
| ServerTables.CreateTable | server/group_mng.c:35 | the table each manager creates is empty and has 101 buckets |
| ServerTables.InsertEntry | server/group_mng.c:97 | the call the managers make on the linked-list table, in terms of that map |
| ClientNet.SendAll | client/client_net.c:46-65 | all bytes leave in order however send splits them; an error leaves a prefix sent |
| ClientNet.RecvExact | client/client_net.c:68-84 | the next bytes of the stream, however recv splits them; failure only on error or end of stream |
| ClientNet.RecvMsg | client/client_net.c:87-110 | exactly one frame is taken off the stream |
| ClientGroups.ClientGroupsMng.JoinEntry | client/client_groups_mng.c:128-184 | pushes an entry in a new node of the linked list unless the name is tracked, the windows fail or memory runs out |
| ClientGroups.ClientGroupsMng.LeaveEntry | client/client_groups_mng.c:187-205 | unlinks the entry of the name if it is tracked; no other node comes or goes |
| ClientGroups.ClientGroupsMng.Clear | client/client_groups_mng.c:208-219 | the pop loop over the linked list ends with an empty list made of old nodes |
| ClientManager.ClientMng.Register | client/client_mng.c:93-99 | one exchange; the mirror does not change; without a reply the status is PROTOCOL |
| ClientManager.ClientMng.Login | client/client_mng.c:102-116 | one exchange; on OK the mirror becomes logged in under the name, otherwise it does not change; without a reply the status is PROTOCOL |
| ClientManager.ClientMng.Logout | client/client_mng.c:119-146 | one exchange; on OK the mirror is that of a fresh client, otherwise it does not change; without a reply the status is PROTOCOL |
| ClientManager.ClientMng.CreateGroup | client/client_mng.c:171-188 | one exchange; the caller gets the address in the reply, and on OK the group is tracked if its windows open, in a new list node; without a reply the status is PROTOCOL |
| ClientManager.ClientMng.JoinGroup | client/client_mng.c:191-208 | one exchange; the caller gets the address in the reply, and on OK the group is tracked if its windows open, in a new list node; without a reply the status is PROTOCOL |
| ClientManager.ClientMng.LeaveGroup | client/client_mng.c:211-235 | one exchange; on OK the group is no longer tracked, the other list nodes staying; without a reply the status is PROTOCOL |
| Lockstep.CallTransportsStatus | client/client_mng.c:68-168 | the status and the address a call returns are the handler's |
| Lockstep.CallTellsAddress | client/client_mng.c:149-168 | a client that entered a group was told the address the group has on the server |
| Lockstep.CallTracks | client/client_groups_mng.c:128-219 | what a call does to the tracked groups: an entry whose windows open adds the group at the end, one whose windows fail and any failed call leave the list as it was |
| Lockstep.CallKeepsStep | client/client_mng.c:102-235 | every call keeps login state and user name equal to the server's session and the tracked groups inside the user's list |
| Lockstep.StayInStep | client/client_mng.c:102-235 | over any sequence of calls interleaved with any events on other sockets client and server stay in step; if every window opens the two group lists are equal, order included |
| Lockstep.PlayIsRun | server/server_mng.c:75-149 | behind the turns the server performs a run of the client's frames and all other events, in order, nothing left out |
| Lockstep.ConnectedStaysInStep | client/client_mng.c:102-235 | the same from start-up on: for every client the server accepts, whatever happened before |
| Session.IssueAnswered | client/client_mng.c:68-235 | a call of the client object on whose line the reply arrives sends exactly the request's frame and takes status, address and mirror from that reply |
| Session.Converse | client/client_mng.c:93-235 | a call of the client object answered by the server object has the outcome of the model's call: mirror, server state, status and address, the client having sent the bytes the server handled |
| Session.PlayAll | client/client_mng.c:93-235 | over any calls and any events on other sockets the two objects go through the play of the lockstep theorems |
| Session.KeepInStep | client/client_mng.c:93-235 | from the moment it connects a client object stays in step with the server object |
| Session.PlayFromStart | client/client_mng.c:20-51 | a server and a client, built and run together, end in the state of that play and in step |
| Lockstep.LeaveStatus | server/server_mng.c:312-317 | the group manager never refuses a leave the user manager accepted |

## Left out

- Null-pointer guards at the head of the C functions: references here cannot be null where every caller passes an object.
- That a key of a hash table is a pointer into the record stored under it: keys are name values.
- Initialisation failures of the managers themselves: their constructors have the memory they need; `HashMapCreate`, `QueueCreate` and the filling of the pool model failing memory.
- Which of its three allocations fails inside an insertion by a manager: `Mem.slot` covers them, and a bucket list made before a later failure makes no difference to the table's contents.
- Socket set-up, signals, interrupted or failing select calls, partial sends by the server, and the server's main function: operating-system plumbing. The select loop runs over the rounds in which select returned.
- Destroy functions, `free`, QueueIsEmpty, ListIsEmpty and ListItrForEach: no manual memory here, and the rest would add only easy members.
- HashMap_Rehash and HashMap_GetStatistics are declared in the header but not implemented.
- Chat windows, their process identifiers, the message queue and the multicast programs: opening a window is a boolean outcome.
- The text user interface and logging.
- Client calls over a transport that fails in mid-exchange: the lockstep theorems assume a reliable one; over any other the methods promise the outcome of the reply if one arrived and PROTOCOL, with the mirror unchanged, if none did.
