# Squick core: a verified model

Squick is a C++ game-server framework. This project models the parts of its core that keep state or take
bytes apart, and proves what the code keeps over whole runs. `dafny verify dfyconfig.toml` checks it.

| files | what they model |
|---|---|
| `Bytes`, `Framing`, `RpcPacket`, `NetStream` | the nine-byte message head, packets, and the receive buffer of a connection |
| `Reentry`, `StreamMode` | receivers of any frame format whose callback runs them again, and reads that remove too much |
| `WebSocket` | frames of RFC 6455 (sections 5.2, 5.3 and 5.5): checks, unmasking in place, recursive decoding, encoding |
| `SetOrder`, `HashRing`, `Maps` | the consistent-hash ring with 500 virtual nodes a name, and the maps with a shared cursor |
| `NodeLinks`, `NodeTurns`, `NetClient` | the connections to other servers: a state machine per server, rings of connected nodes, one cursor that callbacks re-enter |
| `Requests` | request ids, bound coroutines and acks |
| `Timers`, `TimerCalls`, `Schedule` | the timer scheduler: an ordered multiset of ticks beside a map of timers |
| `ClassIncludes`, `ClassLoading` | include closure and inheritance of the logic-class files |
| `RingBuffer` | the growing byte ring |
| `Arithmetic`, `RecordGrid`, `RecordStore` | the row and column store over one flat vector of shared cells |
| `Splitting`, `DataLists` | the slot pool of a typed list, splitting and joining |
| `Guids`, `Fifo`, `ThreadPool`, `ThreadCells`, `Actors`, `ActorObjects` | the thread pool and actors, over all interleavings |
| `Rc4`, `HexText` | the stream cipher and hexadecimal text |

Each component has the same two layers. Classes with the source's fields and loops are proved equal to
functions on values (`Abs`, `Contents`, `View`, `Rows` or a ghost field `state` give the value of an object). The
theorems are about those functions: over all inputs, all splits of a stream, or all runs of a state machine.

Where the code departs from what it is meant to do, the code is modelled and the exact condition is proved:

- a buffered head with a wrong flag, id 0 or an oversized length stalls its connection for good (`NetStream.RecoversIff`);
- a message with id 0 is sent but never delivered and blocks what follows (`NetStream.SentIsDeliveredIff`);
- a buffer that reaches 2^31 bytes in one read delivers nothing (`NetStream.DeliversBelowLimitIff`);
- stream mode throws away an unfinished frame when a read completes none (`WebSocket.StreamModeKeepsTailIff`, `WebSocket.FirstOctetIsDropped`), so it loses nothing exactly when every read completes a frame or is refused (`WebSocket.StreamLosesNothingIff`);
- a text frame re-enters the decoder on the same octets, at every depth (`WebSocket.TextFrameReentersForever`): decoding returns exactly when no text frame comes behind frames that pass (`WebSocket.DecodeReturnsIff`);
- encoding a payload above 65535 bytes asks for as many bytes as the byte-swapped size says, for every size below 2^32 more than the payload holds (`WebSocket.LongPayloadAsksForMore`);
- a broadcast from a callback ends the pass over the servers early (`NodeLinks.PassCoversAllIff`, `NodeLinks.BroadcastEndsThePass`);
- picking a random node of a kind whose nodes are all gone dereferences a null pointer (`NodeLinks.RandomNodeFaultsIff`, `NodeLinks.RandomNodeFaultsAfterLoss`), and with collisions exactly when none that is connected has kept a position (`NodeLinks.RandomNodeFaultsForAnyHashIff`);
- erasing a ring node moves or drops another node's keys exactly when, behind a position the two share, the next one left is not that other node's (`HashRing.EraseMovesOnlyOwnKeysIff`); it can leave a live node without any position (`HashRing.CollisionsEmptyTheRingIff`);
- a timer removed and added again can fire early off the stale tick, exactly when the clock has not reached its element's own trigger time (`Timers.FireIsSpacedIff`, `Timers.RemovalLeavesStaleTick`);
- a class can give an inherited property another type than its parent (`ClassIncludes.TypesInheritedIff`);
- a `Pop` of wrapped data that stops before the wrap copies past its destination (`RingBuffer.OverrunsIff`, `RingBuffer.OverrunIsReached`);
- swapping two rows twice restores them only if both were in use (`RecordGrid.SwapUndoneIff`), and `SetRow` returns false even when it wrote;
- a separator that begins as it ends is not restored by joining (`Splitting.JoinUndoesSplitIff`), and lists joined by it can come back as others (`Splitting.SplitUndoesJoinIff`, `Splitting.BorderedListIsLost`);
- the second actor created in a millisecond is never registered, and all created actors share worker 0 (`Actors.SecondOfAMillisecondIsDead`, `Actors.SecondActorNeverAnswers`, `Actors.ActorsShareTheFirstWorker`).

Where comments in the source and its code differ, the code is followed.

## Model

| member | source | states |
|---|---|---|
| Bytes.BigEndian32RoundTrip | src/plugin/core/net/i_net.h:140-187 | the four octets written for a 32-bit field, the highest first, read back as it |
| Bytes.FromBigEndian32RoundTrip | src/plugin/core/net/i_net.h:163-187 | any four octets are the ones written for the value they read as |
| Bytes.XorTwice | src/plugin/core/net/ws_module.cc:496-503 | masking an octet twice with one key octet gives it back |
| Bytes.XorIsBitwise | src/plugin/core/net/ws_module.cc:496-503 | each bit of the result is set where exactly one of the two octets has it set |
| Framing.DrainAppend | src/plugin/core/net/net.cc:113-156 | for any cutter whose verdict on a prefix stands when bytes follow: draining a buffer and then more bytes is draining both together |
| Framing.ChunkIndependence | src/plugin/core/net/net.cc:113-156 | feeding any chunking to such a cutter agrees with feeding one piece: same output, same first refusal, same rest |
| Reentry.AgainAndAgain | src/plugin/core/net/ws_module.cc:525-527 | a receiver whose callback runs it again on the frame it has not removed meets that frame at every depth |
| Reentry.ReturnsIff | src/plugin/core/net/ws_module.cc:525-527 | such a receiver returns, with any number of activations, if and only if no such frame comes behind whole frames that are taken; then it leaves what draining leaves |
| StreamMode.KeepsTailIff | src/plugin/core/net/net.cc:139-148 | for any frame format, removing the length from before the callback keeps the unfinished bytes if and only if a frame was completed |
| StreamMode.LosesNothingIff | src/plugin/core/net/net.cc:139-148 | over any chunks that removal changes nothing after any read if and only if every read that finds bytes completes a frame or is refused |
| StreamMode.EndsAsOnePiece | src/plugin/core/net/net.cc:139-148 | and then it ends as with everything in one piece |
| RpcPacket.HeadRoundTrip | src/plugin/core/net/i_net.h:140-187 | a written head is parsed back whatever follows it |
| RpcPacket.ParsedHeadBytes | src/plugin/core/net/i_net.h:163-187 | an accepted head is byte for byte the one that would be written |
| RpcPacket.RpcHead.EnCode | src/plugin/core/net/i_net.h:140-160 | writes exactly the nine head bytes and leaves the rest of the buffer |
| RpcPacket.RpcHead.DeCode | src/plugin/core/net/i_net.h:163-187 | returns 0 and keeps the fields on a wrong flag, else 9 and the parsed fields |
| RpcPacket.EnCode | src/plugin/core/net/net.cc:576-589 | the packet of the message; the length wraps to int |
| RpcPacket.DeCode | src/plugin/core/net/net.cc:591-606 | body length cut to int, or -1, -2, -3 for a short head, a wrong flag, a short body; accepts exactly what the packet format accepts |
| RpcPacket.DecodeEncoded | src/plugin/core/net/net.cc:576-606 | decoding an encoded packet gives the message, whatever follows |
| RpcPacket.EncodeDecoded | src/plugin/core/net/net.cc:576-606 | what was decoded re-encodes to the same bytes |
| RpcPacket.PacketLayout | src/plugin/core/net/i_net.h:140-160 | a packet octet by octet: the flag S, id and body length with the highest octet first, the body |
| NetStream.NetObject.AddBuff | src/plugin/core/net/i_net.h:232-236 | appends, and returns the length cut to int |
| NetStream.NetObject.RemoveBuff | src/plugin/core/net/i_net.h:248-256 | for all 32-bit starts and lengths, whose sum wraps: removes the range, nothing when the wrapped end lies past the buffer, and the exception for a start past it |
| NetStream.Net.Dismantle | src/plugin/core/net/net.cc:277-310 | cuts at most one message: buffer, delivery, counter and result in every case |
| NetStream.Net.ConnReadCb | src/plugin/core/net/net.cc:113-156 | outside stream mode: delivers and keeps what greedy cutting of the longer buffer gives; a connection to be removed is left alone |
| NetStream.ChunkIndependent | src/plugin/core/net/net.cc:113-156 | every chunking of arbitrary bytes delivers the same messages and leaves the same buffer as one piece |
| NetStream.NeverStopped | src/plugin/core/net/net.cc:277-310 | the non-stream receiver never refuses a stream |
| NetStream.EncodedArrives | src/plugin/core/net/net.cc:277-310 | encoded messages in front of any tail are delivered in order, then the tail is taken on its own |
| NetStream.SplitMessagesArrive | src/plugin/core/net/net.cc:113-156 | encoded messages split anywhere arrive exactly, in order, and leave an empty buffer |
| NetStream.ReceivingIsLossless | src/plugin/core/net/net.cc:277-310 | what was delivered, re-encoded, followed by what is left, is the input |
| NetStream.RecoversIff | src/plugin/core/net/net.cc:277-310 | with a whole head buffered, more input can deliver something if and only if flag, id and length are good |
| NetStream.DeliversBelowLimitIff | src/plugin/core/net/net.cc:277-310 | with a deliverable message in front, a read delivers something if and only if the buffer stays below 2^31 bytes, and otherwise changes nothing |
| NetStream.SendMsg | src/plugin/core/net/net.cc:544-552 | refuses exactly packets that do not fit an int, else hands out the packet |
| NetStream.SentIsDeliveredIff | src/plugin/core/net/net.cc:544-552 | a message let through is delivered to an empty peer if and only if its id is not 0; with id 0 nothing behind it ever is |
| WebSocket.MaskedTwice | src/plugin/core/net/ws_module.cc:496-503 | masking is its own inverse |
| WebSocket.WSModule.UnmaskInPlace | src/plugin/core/net/ws_module.cc:496-503 | exactly the payload octets change, to their unmasked values |
| WebSocket.WSModule.DecodeOne | src/plugin/core/net/ws_module.cc:384-535 | one activation up to the callback of a text frame, for which the marker stands: verdict, delivery and buffer in every branch; incomplete frames keep their octets |
| WebSocket.WSModule.UseFrame | src/plugin/core/net/ws_module.cc:496-535 | a checked frame: unmasked in place and then closed, delivered or passed over, and removed where decoding goes on |
| WebSocket.WSModule.DecodeFrame | src/plugin/core/net/ws_module.cc:384-535 | the recursion decodes greedily, ends, and returns the first refusal; where it gives the marker, by MarkerIff and DecodeReturnsIff the source does not return |
| WebSocket.WSModule.OnBinary | src/plugin/core/net/ws_module.cc:516-524 | delivers the packet inside a payload or drops the payload |
| WebSocket.WsCutIsStable | src/plugin/core/net/ws_module.cc:384-503 | octets behind a frame never change what the decoder makes of it |
| WebSocket.ChunkIndependent | src/plugin/core/net/ws_module.cc:384-535 | every split of a stream gives the same messages and the same first verdict |
| WebSocket.EncodeFrame | src/plugin/core/net/ws_module.cc:551-585 | head with the canonical length, then the payload; above 65535 bytes the payload's first bytes, as many as the swapped size says, or nothing where that is more than there are |
| WebSocket.LongPayloadAsksForMore | src/plugin/core/net/ws_module.cc:551-585 | for every payload above 65535 and below 2^32 bytes it is more than there are |
| WebSocket.EncodedFrameIsDecoded | src/plugin/core/net/ws_module.cc:384-503 | an encoded binary frame masked with any key decodes to its payload and is consumed exactly |
| WebSocket.DecodedFrameIsEncoded | src/plugin/core/net/ws_module.cc:384-503 | every accepted final binary frame is the masked encoded frame of its payload |
| WebSocket.HeaderVerdictIff | src/plugin/core/net/ws_module.cc:384-494 | each of the six refusals of a header, if and only if its fields are so: mask, opcode, final and reserved bits, length |
| WebSocket.FrameIsAcceptedIff | src/plugin/core/net/ws_module.cc:384-503 | with nothing against it a frame is accepted if and only if all of it is there, with its fields and its octets unmasked |
| WebSocket.DeliveredIff | src/plugin/core/net/ws_module.cc:516-524 | a binary payload hands on a message if and only if it begins with that message's packet and the id is not 0 |
| WebSocket.BinaryFrameDelivers | src/plugin/core/net/ws_module.cc:516-535 | a binary frame hands on what its payload holds, then what is behind it is decoded |
| WebSocket.ControlFrameIsSilent | src/plugin/core/net/ws_module.cc:504-535 | a ping, a pong or an unknown frame leaves no trace in what is decoded behind it |
| WebSocket.CloseFrameStops | src/plugin/core/net/ws_module.cc:504-515 | a close frame ends decoding, whatever is behind it |
| WebSocket.SplitFramesArrive | src/plugin/core/net/ws_module.cc:384-535 | packets sent as masked frames and split anywhere arrive exactly and in order |
| WebSocket.TextFrameReentersForever | src/plugin/core/net/ws_module.cc:525-527 | after any number of re-entries the decoder finds the same text frame, masked and unmasked in turn |
| WebSocket.EmptyTextFrame | src/plugin/core/net/ws_module.cc:525-527 | two octets and a masking key are such a frame |
| WebSocket.MarkerIff | src/plugin/core/net/ws_module.cc:384-535 | the marker verdict is given if and only if a text frame comes behind whole frames that pass |
| WebSocket.PassedIsTaken | src/plugin/core/net/ws_module.cc:384-535 | the frames that pass are the accepted ones that are neither close nor text |
| WebSocket.DecodeReturnsIff | src/plugin/core/net/ws_module.cc:384-535 | with the callback re-entering, decoding returns if and only if no text frame comes behind whole frames that pass, and then leaves the buffer of DecodeFrame |
| WebSocket.StreamReadCb | src/plugin/core/net/net.cc:139-148 | stream mode delivers what decoding delivers, and removes the length from before the callback; nothing is promised where the callback does not return |
| WebSocket.StreamModeKeepsTailIff | src/plugin/core/net/net.cc:139-148 | an unfinished frame survives the read if and only if the read also completed a frame |
| WebSocket.FirstOctetIsDropped | src/plugin/core/net/net.cc:139-148 | the first octet of a frame, read alone, is thrown away |
| WebSocket.StreamLosesNothingIff | src/plugin/core/net/net.cc:139-148 | over any chunks stream mode gives after every read what it would without its removal if and only if every read that finds octets completes a frame or is refused, and then it ends as with one piece |
| HashRing.InsertedRing | src/core/consistent_hash.h:96-109 | insertion adds the name's positions, and a position already taken keeps its owner |
| HashRing.FiveHundredPositions | src/core/consistent_hash.h:96-131 | of the 500 positions of a name insertion takes the free ones and erasure clears all, and nothing else changes |
| HashRing.InsertEraseRestoresIff | src/core/consistent_hash.h:96-131 | insert then erase restores the ring if and only if the name's positions were free |
| HashRing.SuitExists | src/core/consistent_hash.h:152-166 | a non-empty ring has a successor for every hash, around the end if need be |
| HashRing.SuitIsUnique | src/core/consistent_hash.h:152-166 | and only one |
| HashRing.SuitIsNearestIff | src/core/consistent_hash.h:152-166 | it is the nearest position from the hash upwards and around the end |
| HashRing.InsertMovesOnlyToNewNode | src/core/consistent_hash.h:96-166 | for any hash, inserting a node moves a key only to that node |
| HashRing.EraseMovesOnlyOwnKeysIff | src/core/consistent_hash.h:121-166 | erasing a node leaves every other node's keys with their node if and only if each position it shares is backed: the next one left belongs to the node that loses it |
| HashRing.EraseMovesOnlyOwnPositionsIff | src/core/consistent_hash.h:121-166 | erasing a node leaves every other node's keys on their positions if and only if it has its positions to itself |
| HashRing.SharingCanBeHarmless | src/core/consistent_hash.h:121-166 | a node that shares its positions and yet moves no key when erased |
| HashRing.EraseLeavesPositionIff | src/core/consistent_hash.h:121-131 | after an erasure another node has a position if and only if it had one not shared with the erased node |
| HashRing.InsertGivesPositionIff | src/core/consistent_hash.h:96-109 | after its insertion a node has a position if and only if it had one or one of its positions was free |
| HashRing.OwnersAreMembers | src/core/consistent_hash.h:96-131 | after any inserts and erases, collisions included, every owner on the ring is a live member |
| HashRing.RunIsRingOf | src/core/consistent_hash.h:96-131 | without collisions the ring after any run is exactly the ring of its live members |
| HashRing.RingForgetsHistory | src/core/consistent_hash.h:96-131 | without collisions, runs that end with the same members end with the same ring |
| HashRing.CollisionsEmptyTheRingIff | src/core/consistent_hash.h:96-131 | for any hash, inserting two nodes and erasing the first leaves the second, still a member, without any position if and only if all its positions are shared |
| HashRing.ConsistentHash.InsertNode | src/core/consistent_hash.h:96-109 | the loop over 500 virtual nodes inserts the name |
| HashRing.ConsistentHash.EraseNode | src/core/consistent_hash.h:121-131 | the loop over 500 virtual nodes erases the name |
| HashRing.ConsistentHash.ClearAll | src/core/consistent_hash.h:94-94 | an empty ring |
| HashRing.ConsistentHash.GetSuitNode | src/core/consistent_hash.h:152-166 | the virtual node at the successor position, none on an empty ring |
| Maps.MapEx.AddElement | src/core/map_ex.h:30-44 | an existing name keeps its element |
| Maps.MapEx.RemoveElement | src/core/map_ex.h:46-55 | removes exactly the name |
| Maps.MapEx.First | src/core/map_ex.h:127-138 | least key, cursor on it; an empty map leaves the cursor |
| Maps.MapEx.Next | src/core/map_ex.h:140-151 | next greater key of the current map, or the end |
| Maps.MapEx.ClearAll | src/core/map_ex.h:181-184 | no elements |
| Maps.ConsistentHashMapEx.AddElement | src/core/map_ex.h:231-246 | element and ring positions are added together |
| Maps.ConsistentHashMapEx.RemoveElement | src/core/map_ex.h:248-258 | and removed together |
| Maps.ConsistentHashMapEx.ClearAll | src/core/map_ex.h:260-264 | both are emptied |
| Maps.ConsistentHashMapEx.GetElementBySuit | src/core/map_ex.h:195-229 | nothing exactly on an empty ring, else the owner's element, which the map holds |
| NodeLinks.RunKeepsInv | src/plugin/core/net/net_client_module.cc:323-466 | in every run: records filed under their ids, net modules distinct, rings match connections and hold only live owners, connection attempts justified |
| NodeLinks.StepKeepsInv | src/plugin/core/net/net_client_module.cc:323-466 | one update, whatever events are raised in it, keeps all of that |
| NodeLinks.OnRingIffConnected | src/plugin/core/net/net_client_module.cc:392-426 | in every run a server is on a kind's ring map if and only if it is connected and of that kind, and no two servers share a net module |
| NodeLinks.RandomNodeIsConnected | src/plugin/core/net/net_client_module.cc:281-288 | a picked node is connected and of the kind asked for, whatever the hash: the one on the nearest position from the value on; 0 for a kind that never connected |
| NodeLinks.RandomNodeFaultsIff | src/plugin/core/net/net_client_module.cc:281-288 | without collisions a pick dereferences null if and only if nodes of the kind connected once and none is connected now |
| NodeLinks.RandomNodeFaultsForAnyHashIff | src/plugin/core/net/net_client_module.cc:281-288 | collisions included: if and only if nodes of the kind connected once and no connected one has a position on their ring |
| NodeLinks.RandomNodeFaultsAfterLoss | src/plugin/core/net/net_client_module.cc:281-288 | a run that gets there: one node is announced, connects and is lost |
| NodeLinks.NodesKeepTheirInfo | src/plugin/core/net/net_client_module.cc:428-466 | a repeated announcement never changes a known server's address or kind |
| NodeLinks.ReconnectsAreSpaced | src/plugin/core/net/net_client_module.cc:323-372 | every attempt but a server's first follows a loss, with no attempt between, more than 10 later |
| NodeTurns.UpdateTreats | src/plugin/core/net/net_client_module.cc:323-426 | in every run, what an Update makes of any server: after its turn the last socket event decides its state, also while it is still connecting; a loss sets the clock; lost ones drop their net module and are dialled again; nothing else happens to it, and it is on its kind's ring map if and only if it is connected |
| NodeTurns.PolledIsLostIff | src/plugin/core/net/net_client_module.cc:411-426 | a polled server is disconnected afterwards if and only if a disconnection was its last socket event: lost at this clock, and on no ring map |
| NodeTurns.LostServerIsDialled | src/plugin/core/net/net_client_module.cc:323-372 | in every run a lost server drops its net module on its first turn and is dialled with a new one on the first later turn more than 10 past the loss; nothing else happens to it |
| NodeTurns.AnnouncedAreDialled | src/plugin/core/net/net_client_module.cc:428-466 | in every run, the servers an Update adds are exactly the unknown ones announced before it or by callbacks in it, each as first announced, connecting, dialled now with a net module of its own |
| NodeLinks.PassCoversAllIff | src/plugin/core/net/net_client_module.cc:323-372 | one pass takes servers in ascending order, none twice, and all of them if and only if no polled server but the last ends on a broadcast |
| NodeLinks.BroadcastEndsThePass | src/plugin/core/net/net_client_module.cc:323-372 | a run of two servers in which the second gets no turn |
| NodeLinks.EventsKeepNets | src/plugin/core/net/net_client_module.cc:392-426 | events during a poll leave every server's net module in place |
| NodeLinks.EventsTouchOneServer | src/plugin/core/net/net_client_module.cc:392-426 | events of one server's net module change no other server's record |
| NetClient.NetClientModule.GetServerNetInfo | src/plugin/core/net/net_client_module.cc:271-279 | the cursor search: the record with that net module and the cursor left on it, or none and the cursor at the end |
| NetClient.NetClientModule.FindByNet | src/plugin/core/net/net_client_module.cc:271-279 | with distinct net modules the search ends on the server that owns the net module |
| NetClient.NetClientModule.OnConnected | src/plugin/core/net/net_client_module.cc:392-409 | the record becomes connected and joins its kind's ring, made if need be; the cursor is on that server |
| NetClient.NetClientModule.OnDisConnected | src/plugin/core/net/net_client_module.cc:411-426 | the record is disconnected at this clock and leaves the ring; the cursor is on that server |
| NetClient.NetClientModule.SendToAllNode | src/plugin/core/net/net_client_module.cc:115-127 | visits every server and leaves the shared cursor at the end |
| NetClient.NetClientModule.Poll | src/plugin/core/net/net_client_module.cc:323-372 | the events of one net module, in order, with where they leave the cursor |
| NetClient.NetClientModule.Call | src/plugin/core/net/net_client_module.cc:392-426 | one callback of a polled net module, with where it leaves the cursor |
| NetClient.NetClientModule.Round | src/plugin/core/net/net_client_module.cc:323-372 | a round of the loop takes a pass of NodeLinks one server further |
| NetClient.NetClientModule.TakeTurn | src/plugin/core/net/net_client_module.cc:323-372 | one server's turn in each of its four states, with the cursor it leaves |
| NetClient.NetClientModule.AddNode | src/plugin/core/net/net_client_module.cc:42-42 | announced nodes wait in order |
| NetClient.NetClientModule.KeepState | src/plugin/core/net/net_client_module.cc:374-382 | the keep-alive clock moves when 10 have passed |
| NetClient.NetClientModule.ProcessUpdate | src/plugin/core/net/net_client_module.cc:323-372 | the cursor-driven pass, with re-entering callbacks, is the pass of NodeLinks |
| NetClient.NetClientModule.ProcessNetConnect | src/plugin/core/net/net_client_module.cc:428-466 | admits the announced nodes in order, known ids excepted; added records are new objects |
| NetClient.NetClientModule.AdmitNode | src/plugin/core/net/net_client_module.cc:428-466 | an unknown id gets a record that is connecting; a known one changes nothing |
| NetClient.NetClientModule.Update | src/plugin/core/net/net_client_module.cc:26-30 | a whole update keeps the invariant and is a step of NodeLinks; added records are new objects |
| NetClient.NetClientModule.RunAll | src/plugin/core/net/net_client_module.cc:26-466 | a new module brought through any announcements and updates is in the state of that run of NodeLinks |
| NetClient.NetClientModule.GetRandomNodeID | src/plugin/core/net/net_client_module.cc:281-288 | 0 for a kind never connected, none where null is dereferenced, else the owner on the ring |
| Requests.NextIdIs | src/plugin/core/net/net_client_module.cc:228-234 | the n-th id, for every n, wrap included |
| Requests.CycleOfIds | src/plugin/core/net/net_client_module.cc:228-234 | the ids are 1, 2, ... up to 2^48 - 1, then 1 again |
| Requests.SameIdIff | src/plugin/core/net/net_client_module.cc:228-234 | two requests share an id if and only if their numbers differ by a multiple of 2^48 - 1 |
| Requests.IdsDistinctInWindow | src/plugin/core/net/net_client_module.cc:228-234 | any 2^48 - 1 consecutive requests have distinct ids |
| Requests.StepKeepsAccounted | src/plugin/core/net/net_client_module.cc:214-265 | an ack resumes exactly the bound request with its id, or nothing |
| Requests.EveryRequestResumedAtMostOnce | src/plugin/core/net/net_client_module.cc:188-265 | while no request outlives the id cycle none is dropped or resumed twice, and an awaited one is bound until it is resumed |
| Requests.DroppedIff | src/plugin/core/net/net_client_module.cc:214-226 | the duplicate branch is taken if and only if a bound request is a whole number of id cycles away |
| Requests.RequestTable.GenerateRequestID | src/plugin/core/net/net_client_module.cc:228-234 | the next id of the cycle |
| Requests.RequestTable.Request | src/plugin/core/net/net_client_module.cc:188-200 | an awaitable that carries the id of its request and can be suspended on |
| Requests.RequestTable.CoroutineBinder | src/plugin/core/net/net_client_module.cc:214-226 | binds the awaitable under the id it carries, or drops a duplicate |
| Requests.RequestTable.OnAckHandler | src/plugin/core/net/net_client_module.cc:236-265 | resumes the bound request, with the calls it makes, then erases the entry |
| Timers.RunKeepsInv | src/plugin/core/utils/schedule_module.cc:3-126 | the counting and arming invariant in every run, whatever callbacks add or remove |
| Timers.FiresAreCounted | src/plugin/core/utils/schedule_module.cc:3-84 | fires plus remaining is the count; the last fire takes the timer out of the map |
| Timers.LiveTimersAreArmed | src/plugin/core/utils/schedule_module.cc:38-115 | a live timer with something remaining has a pending tick |
| Timers.QuietUpdate | src/plugin/core/utils/schedule_module.cc:38-84 | with callbacks that add nothing: at most one fire for each tick due at entry, in order, and nothing due left when intervals are positive |
| Timers.SilentUpdate | src/plugin/core/utils/schedule_module.cc:38-84 | in any run, with callbacks that make no calls: exactly the due ticks fire whose timer is in the map and not used up by ticks before, in order, each the timer that now has its key |
| Timers.EveryDueTickFires | src/plugin/core/utils/schedule_module.cc:38-84 | without removals every due tick fires, once and in order: its own timer, at the time that timer was due |
| Timers.DueTimersFire | src/plugin/core/utils/schedule_module.cc:38-84 | so every live timer that is due and has something remaining fires |
| Timers.RunSorted | src/plugin/core/utils/schedule_module.cc:38-115 | the ticks stay in order of their time |
| Timers.FiresAreSpaced | src/plugin/core/utils/schedule_module.cc:38-115 | without removals a timer first fires its interval after it was added at the earliest, and its fires are at least its interval apart |
| Timers.FireIsSpacedIff | src/plugin/core/utils/schedule_module.cc:38-115 | in any run a fire comes at least an interval after the previous one, or after the timer was added, if and only if the clock has reached the element's own trigger time |
| Timers.RemovalLeavesStaleTick | src/plugin/core/utils/schedule_module.cc:86-126 | a run with a removal in which it has not |
| TimerCalls.UpdatePlays | src/plugin/core/utils/schedule_module.cc:3-84 | in every run, whatever callbacks call, an Update leaves in the map and creates exactly what its fires and their calls do one after the other: each fire is of a live timer, a last one takes it away, then its callbacks' calls are made |
| TimerCalls.DueTickFires | src/plugin/core/utils/schedule_module.cc:3-84 | in any run, whatever other callbacks call, a live timer with a due tick fires unless a call removes it |
| TimerCalls.FiresAreNow | src/plugin/core/utils/schedule_module.cc:38-84 | all fires of an Update are of due ticks, at its clock |
| TimerCalls.RemovedStaysOut | src/plugin/core/utils/schedule_module.cc:3-84 | a key the calls of a fire remove and no later call adds is out of the map afterwards, and no later fire is of it |
| TimerCalls.AddedStaysIn | src/plugin/core/utils/schedule_module.cc:3-115 | a key the calls of a fire add is in the map afterwards, unless a later call removes it or a last fire uses it up |
| TimerCalls.AddedIsCreated | src/plugin/core/utils/schedule_module.cc:3-115 | an addition from a callback under a free key creates its timer |
| TimerCalls.CreatedWasAdded | src/plugin/core/utils/schedule_module.cc:3-115 | an Update creates no timer but those the calls of its fires add |
| TimerCalls.CallTakesEffect | src/plugin/core/utils/schedule_module.cc:86-126 | a call adds or removes the timers of the keys it names, a known one stays, and no other changes |
| Schedule.ScheduleElement.DoHeartBeatEvent | src/plugin/core/utils/schedule_module.cc:3-24 | counts down and sets the next time |
| Schedule.ScheduleModule.AddSchedule | src/plugin/core/utils/schedule_module.cc:86-115 | a new timer with its tick; a known one stays |
| Schedule.ScheduleModule.RemoveSchedule | src/plugin/core/utils/schedule_module.cc:119-126 | the timer goes, its tick stays |
| Schedule.ScheduleModule.RemoveOwner | src/plugin/core/utils/schedule_module.cc:117-117 | all timers of the owner go, their ticks stay |
| Schedule.ScheduleModule.InsertInOrder | src/plugin/core/utils/schedule_module.cc:106-111 | a tick goes behind all that are not later, and the iterator stays on its tick |
| Schedule.ScheduleModule.MakeCalls | src/plugin/core/utils/schedule_module.cc:13-20 | callbacks re-enter the scheduler while it iterates |
| Schedule.ScheduleModule.FireElement | src/plugin/core/utils/schedule_module.cc:51-66 | a last fire leaves the map before the callbacks; re-arming is deferred |
| Schedule.ScheduleModule.TakeTick | src/plugin/core/utils/schedule_module.cc:38-84 | one due tick: fire, callbacks, deferred re-arming, erasure |
| Schedule.ScheduleModule.FlushDeferred | src/plugin/core/utils/schedule_module.cc:75-77 | the deferred ticks join the multiset in order |
| Schedule.ScheduleModule.Update | src/plugin/core/utils/schedule_module.cc:38-84 | the loop over due ticks is the update of Timers |
| ClassIncludes.VisitOrders | src/plugin/core/config/class_module.cc:215-264 | visiting extends a list by the newly reachable files: no duplicates, each file after its includes, nothing missing |
| ClassIncludes.VisitReadsInOrder | src/plugin/core/config/class_module.cc:215-264 | includes are read in the order they are written: what the first ones lead to is listed before the rest |
| ClassIncludes.VisitDeclares | src/plugin/core/config/class_module.cc:108-134 | and declares exactly the names of the files added |
| ClassIncludes.InheritCopies | src/plugin/core/config/class_module.cc:266-288 | the inheritance loop copies the parent's list file by file, its early exit never taken |
| ClassIncludes.FartherAddsNothing | src/plugin/core/config/class_module.cc:266-288 | for farther ancestors the early exit skips nothing that is missing |
| ClassIncludes.AddClassExtendsParent | src/plugin/core/config/class_module.cc:266-297 | a class's list is its parent's followed by the newly reachable files, well ordered; it declares every name of its parent |
| ClassIncludes.Lists | src/plugin/core/config/class_module.cc:318-347 | down any line of descent every list is ordered and holds its ancestors' lists as prefixes |
| ClassIncludes.ClassIsReachable | src/plugin/core/config/class_module.cc:266-347 | a class lists exactly the files reachable from its line of descent |
| ClassIncludes.DescendantHoldsAncestor | src/plugin/core/config/class_module.cc:266-347 | every ancestor's list is a prefix and its names are declared |
| ClassIncludes.TypesInheritedIff | src/plugin/core/config/class_module.cc:108-134 | inherited names keep the parent's types if and only if declaring the parent's files in list order gives them |
| ClassIncludes.ConsistentTypesInherited | src/plugin/core/config/class_module.cc:108-134 | they do when no two files disagree on a type |
| ClassIncludes.TypeCanChange | src/plugin/core/config/class_module.cc:108-297 | three files for which a child gets another type than its parent |
| ClassLoading.Class.First | src/core/list.h:57-69 | first file, or the caller's name and cursor untouched on an empty list |
| ClassLoading.Class.Next | src/core/list.h:71-83 | next file, or the caller's name past the last |
| ClassLoading.Class.Add | src/core/list.h:33-41 | appends without looking for duplicates |
| ClassLoading.ClassModule.AddProperties | src/plugin/core/config/class_module.cc:108-134 | the first declaration of a name stays |
| ClassLoading.ClassModule.AddClassInclude | src/plugin/core/config/class_module.cc:215-264 | the recursion computes a visit; false and nothing changed for a listed file |
| ClassLoading.ClassModule.Inherit | src/plugin/core/config/class_module.cc:266-288 | the cursor loop over one ancestor with its early exit |
| ClassLoading.ClassModule.InheritLine | src/plugin/core/config/class_module.cc:266-288 | the loop over the ancestors |
| ClassLoading.ClassModule.AddClass | src/plugin/core/config/class_module.cc:266-297 | under built ancestors the class is built |
| ClassLoading.ClassModule.AddElement | src/core/map_ex.h:30-44 | the first class of a name stays |
| ClassLoading.ClassModule.LoadChildren | src/plugin/core/config/class_module.cc:340-344 | the children of a node are loaded under its class |
| ClassLoading.ClassModule.LoadNode | src/plugin/core/config/class_module.cc:318-347 | a tree of nodes: all classes registered are built, none is replaced, exactly the tree's names are added, and each new one has the files of the nodes on the way to it, its parent's first |
| ClassLoading.ClassModule.Load | src/plugin/core/config/class_module.cc:349-369 | the same for a document, whose top nodes have no parent |
| ClassLoading.RegistersTree | src/plugin/core/config/class_module.cc:318-347 | loading registers every name of the tree, nothing else, and the first class of a name wins |
| ClassLoading.IdsAreNames | src/plugin/core/config/class_module.cc:318-347 | the names of a tree are those of the nodes at its addresses |
| ClassLoading.RegistersPaths | src/plugin/core/config/class_module.cc:318-347 | the first node of an unknown name, in document order, is registered with its own file and then those of its ancestors in the tree, the nearest first, then those above the tree |
| ClassLoading.DistinctAreFirst | src/plugin/core/config/class_module.cc:318-347 | and where no two nodes have one name, so is every node |
| ClassLoading.RegistersRoots | src/plugin/core/config/class_module.cc:349-369 | a document registers every name of its trees, nothing else, and known ones stay |
| ClassLoading.RootsRegisterPaths | src/plugin/core/config/class_module.cc:349-369 | the first node of a name in a document is registered with its own file and its ancestors' |
| RingBuffer.FirstInFirstOut | src/core/string_ring_buffer.h:40-132 | over any requests to the queue without Clear, what came out followed by what is queued is what went in |
| RingBuffer.NextTakeGives | src/core/string_ring_buffer.h:40-132 | after any such run a take gives exactly the bytes of the stream that come next, if that many are queued, and Clear drops what is queued |
| RingBuffer.OverrunsIff | src/core/string_ring_buffer.h:66-85 | one of Pop's copies leaves the size bytes of its destination if and only if the data wraps and the read stops before the wrap |
| RingBuffer.OverrunIsBoundless | src/core/string_ring_buffer.h:74-77 | then the second copy's length, a negative int as a size_t, is above 2^63 |
| RingBuffer.DrainNeverOverruns | src/core/string_ring_buffer.h:66-85 | a Pop of everything is sound wherever the marks are |
| RingBuffer.NoPopOverrunsIff | src/core/string_ring_buffer.h:66-85 | no Pop of any size overruns if and only if at most one byte lies before the wrap |
| RingBuffer.OverrunIsReached | src/core/string_ring_buffer.h:40-85 | two pushes and a take on a buffer of four bytes, after which a Pop of one byte copies two |
| RingBuffer.StringRingBuffer.Serve | src/core/string_ring_buffer.h:40-132 | a run of the buffer object gives out and keeps what the queue does, first in and first out, up to the first Pop that overruns, and can be followed by another |
| RingBuffer.StringRingBuffer.Size | src/core/string_ring_buffer.h:26-34 | the length of the queue |
| RingBuffer.StringRingBuffer.Push | src/core/string_ring_buffer.h:40-64 | appends exactly the bytes through any number of doublings, which move the marks so; the loop ends |
| RingBuffer.StringRingBuffer.Write | src/core/string_ring_buffer.h:45-61 | the copies of Push, one or two; its last branch is never taken |
| RingBuffer.StringRingBuffer.Resize | src/core/string_ring_buffer.h:135-154 | twice the capacity, same queue, wrapped data straightened |
| RingBuffer.StringRingBuffer.Pop | src/core/string_ring_buffer.h:66-85 | refused when too few; overrun exactly where a copy leaves the destination; else the oldest bytes and nothing else, kept when read only |
| RingBuffer.StringRingBuffer.Read | src/core/string_ring_buffer.h:71-78 | the copies of Pop, one or two, give the oldest bytes unless one of them leaves the destination |
| RingBuffer.StringRingBuffer.Erase | src/core/string_ring_buffer.h:87-95 | drops the oldest bytes, or refuses |
| RingBuffer.StringRingBuffer.ZeroCopyPop | src/core/string_ring_buffer.h:100-119 | where the oldest bytes lie, for contiguous data only |
| RingBuffer.StringRingBuffer.Reset | src/core/string_ring_buffer.h:129-132 | an empty queue |
| RecordGrid.PosInjective | src/core/record.cc:1138-1138 | different rows or columns have different positions in the vector |
| RecordGrid.WriteAt | src/core/record.cc:210-255 | a write changes one cell |
| RecordGrid.WriteIsUpdate | src/core/record.cc:210-255 | on the table it is an update of one entry, types kept |
| RecordGrid.WriteRowIsUpdate | src/core/record.cc:148-157 | a filled row is one entry of the table |
| RecordGrid.SwapIsSwap | src/core/record.cc:1169-1198 | exchanging cells and flags exchanges two entries, either of which may be absent |
| RecordGrid.SwapMovesRows | src/core/record.cc:1169-1198 | the origin's values are at the target, the target's, if it was in use, at the origin, and no other row changes |
| RecordGrid.SwapUndoneIff | src/core/record.cc:1169-1198 | the same swap again undoes it if and only if the target was in use |
| RecordGrid.RemoveIsRemove | src/core/record.cc:1103-1125 | clearing a flag removes one entry |
| RecordGrid.MatchingIsExact | src/core/record.cc:756-780 | the rows found are exactly the used rows with the value, ascending |
| RecordStore.RecordVec.Assign | src/core/record.cc:150-157 | allocates or reuses one cell; no two positions share a cell and every cell keeps its type |
| RecordStore.RecordVec.Exchange | src/core/record.cc:1175-1179 | two pointers change places and still nothing is shared |
| RecordStore.Record.constructor | src/core/record.cc:21-55 | an empty table |
| RecordStore.Record.AddRow | src/core/record.cc:114-170 | -1 exactly for a row out of range, wrong types or a full record; a negative row takes the lowest free one; one entry is written |
| RecordStore.Record.LowestFree | src/core/record.cc:125-131 | the lowest row not in use, -1 when all are |
| RecordStore.Record.FillRow | src/core/record.cc:150-157 | the loop over the columns of one row |
| RecordStore.Record.SetRow | src/core/record.cc:172-208 | writes a used row with matching types, and returns false in any case |
| RecordStore.Record.Set | src/core/record.cc:210-255 | true exactly for a used row and a column of the type; one value of one entry changes |
| RecordStore.Record.Get | src/core/record.cc:577-592 | the value, or the null value of the type |
| RecordStore.Record.Remove | src/core/record.cc:1103-1125 | removes a used row |
| RecordStore.Record.Clear | src/core/record.cc:1127-1133 | removes all |
| RecordStore.Record.SwapRowInfo | src/core/record.cc:1169-1198 | exchanges two entries when the origin is in use |
| RecordStore.Record.FindInt | src/core/record.cc:756-780 | appends exactly the matching rows, ascending; returns the length of the caller's list, -1 for a wrong column |
| Splitting.Find | src/core/data_list.h:646-654 | the first occurrence from a position |
| Splitting.JoinAfterSplit | src/core/data_list.h:491-657 | joining gives the text back if and only if the scan uses up the separator put behind it |
| Splitting.JoinUndoesSplitIff | src/core/data_list.h:491-657 | joining gives every text back if and only if the separator has no border, so for every one-character separator |
| Splitting.SplitUndoesJoinIff | src/core/data_list.h:491-657 | for every separator and list: splitting gives the list back if and only if it is not the list of one empty string and no string with the separator behind it holds an earlier one |
| Splitting.StandsAloneIff | src/core/data_list.h:633-657 | for a separator without border that says of a string alone that it holds none |
| Splitting.BorderedListIsLost | src/core/data_list.h:491-657 | a list of separator-free strings that is not given back |
| DataLists.Slot.Set | src/core/data_list.h:225-251 | a slot of another type ignores the value |
| DataLists.Slot.Reset | src/core/data_list.h:140-142 | untyped |
| DataLists.DataList.AddStack | src/core/data_list.h:1018-1023 | eight new untyped slots, the old ones in place |
| DataLists.DataList.Add | src/core/data_list.h:659-673 | appends the value: the slot used is untyped |
| DataLists.DataList.Clear | src/core/data_list.h:570-579 | empty, and all slots untyped again |
| DataLists.DataList.Set | src/core/data_list.h:755-766 | replaces a value of the same type only |
| DataLists.DataList.InnerAppendEx | src/core/data_list.h:1025-1051 | appends a range of another list, which stays as it was, or of the list itself |
| DataLists.DataList.Split | src/core/data_list.h:633-657 | the loop with its advancing index adds the pieces |
| DataLists.DataList.ToString | src/core/data_list.h:491-505 | the values with separators behind the caller's text, a last separator cut off |
| DataLists.ToStringIsJoin | src/core/data_list.h:491-505 | into an empty text that is joining |
| DataLists.SplitThenToString | src/core/data_list.h:491-657 | through the objects, a text comes back for an unbordered separator |
| Fifo.RankedMove | src/core/queue.h:52-66 | taking an element keeps each producer's order |
| ThreadPool.RunKeepsInv | src/plugin/core/thread/thread_pool_module.h:30-51 | in every interleaving tasks are on the worker of their id, conserved, and in each producer's order |
| ThreadPool.StepKeepsInv | src/plugin/core/thread/thread_pool_module.h:30-51 | one step of any thread keeps all of that |
| ThreadPool.EqualIdsNeverTogether | src/plugin/core/thread/thread_pool_module.cc:36-50 | tasks with equal ids never run at the same time |
| ThreadPool.TasksRunOnce | src/plugin/core/thread/thread_pool_module.h:30-51 | no task runs twice, and once the workers are idle every submitted task has run |
| ThreadPool.EndsOnceAndAfter | src/plugin/core/thread/thread_pool_module.cc:52-61 | an end function runs at most once, after its thread function |
| ThreadPool.EqualIdsKeepOrder | src/plugin/core/thread/thread_pool_module.cc:36-50 | one producer's tasks with equal ids start in the order they were submitted |
| ThreadPool.TasksGoByTheirIds | src/plugin/core/thread/thread_pool_module.cc:36-50 | in every run a worker holds only tasks whose id selects it: the remainder of the id's second half, worker 0 for the null id |
| ThreadPool.SubmittedIff | src/plugin/core/thread/thread_pool_module.cc:36-50 | the tasks submitted in a run are those of its calls of DoAsyncTask, none else and none missing |
| ThreadCells.ThreadPoolModule.DoAsyncTask | src/plugin/core/thread/thread_pool_module.cc:36-50 | the task goes to the worker of its id, the first one for the null id |
| ThreadCells.ThreadPoolModule.RunTask | src/plugin/core/thread/thread_pool_module.h:36-48 | a start and a finish of the oldest task, and its result when it has an end function |
| ThreadCells.ThreadPoolModule.UpdateCell | src/plugin/core/thread/thread_pool_module.h:30-51 | the worker's inner loop runs everything queued, in order, and reports tasks with an end function |
| ThreadCells.ThreadPoolModule.UpdateTaskResult | src/plugin/core/thread/thread_pool_module.cc:52-59 | every waiting result gets its end function, in order |
| Actors.RunKeepsInv | src/plugin/core/actor/actor_module.cc:33-121 | in every interleaving update tasks carry their actor's id, messages are conserved and in each sender's order |
| Actors.StepKeepsInv | src/plugin/core/actor/actor_module.cc:33-121 | one step of any thread keeps all of that |
| Actors.UpdateRunsOnOneThread | src/plugin/core/actor/actor_module.cc:53-74 | no actor's Update runs on two threads |
| Actors.ActorsShareTheFirstWorker | src/plugin/core/actor/actor_module.cc:33-41 | every created actor is updated on worker 0, so no two ever at the same time |
| Actors.MessagesHandledOnce | src/plugin/core/actor/actor.cc:13-29 | a message is taken, handled and returned at most once each, and in that order |
| Actors.MessagesTakenInOrder | src/plugin/core/actor/actor.cc:13-29 | one sender's messages to an actor are taken in order |
| Actors.HandledIff | src/plugin/core/actor/actor.cc:13-29 | in every run a message that is received is handled if and only if its kind has a handler then, whatever comes later |
| Actors.HandledHasHandler | src/plugin/core/actor/actor.cc:13-29 | in every run the actor a handled message was sent to has a handler for its kind |
| Actors.HandlersIff | src/plugin/core/actor/actor.cc:50-50 | an actor has the handlers that were added to it |
| Actors.SentIff | src/plugin/core/actor/actor_module.cc:114-121 | the messages sent in a run are those of its calls, to the actor named or to the one the id leads to, none else and none missing |
| Actors.SentWaits | src/plugin/core/actor/actor.cc:52-52 | and each waits in the mailbox of its actor until it is received |
| Actors.RegisteredIff | src/plugin/core/actor/actor_module.cc:33-110 | an id leads to an actor if and only if that was made under it while it was free and the id was not released since |
| Actors.ScheduledIff | src/plugin/core/actor/actor_module.cc:53-74 | the update tasks of a run are those its UpdateEvents queued, each for the actor its id led to then |
| Actors.CreateRegistersIff | src/plugin/core/actor/actor_module.cc:33-41 | a created actor is registered if and only if no registered one has its millisecond |
| Actors.SecondOfAMillisecondIsDead | src/plugin/core/actor/actor_module.cc:33-41 | an actor that was not registered is never updated and takes no message, in any run that follows |
| Actors.SecondActorNeverAnswers | src/plugin/core/actor/actor_module.cc:33-41 | two actors made in one millisecond: a message sent to the second waits for good |
| ActorObjects.ActorObject.Update | src/plugin/core/actor/actor.cc:13-29 | the draining loop empties the mailbox and returns the messages that have a handler, in order |
| ActorObjects.ActorObject.SendMsg | src/plugin/core/actor/actor.cc:52-52 | the message waits behind the others |
| ActorObjects.AnsweredCount | src/plugin/core/actor/actor.cc:13-29 | of a drained mailbox exactly the messages whose kind has a handler are answered, as often as they are queued |
| ActorObjects.AnswersOneByOne | src/plugin/core/actor/actor.cc:13-29 | and in the order of the mailbox |
| ActorObjects.ReceivesDrain | src/plugin/core/actor/actor.cc:13-29 | on the worker that is in an actor's task, receiving the first message as often as there are messages drains the mailbox: those with a handler are handled and returned, in order |
| ActorObjects.TurnIsRun | src/plugin/core/thread/thread_pool_module.h:36-48 | a worker's turn with an update task is a run of start, receives and finish |
| ActorObjects.QueuedIsAddressed | src/plugin/core/actor/actor_module.cc:53-74 | in every run the actor of a queued update task has been made, which RunTask asks for |
| ActorObjects.ActorModule.CreateActor | src/plugin/core/actor/actor_module.cc:33-41 | a Create step; returns the new actor even where the map keeps the old one |
| ActorObjects.ActorModule.SendMsgToActor | src/plugin/core/actor/actor_module.cc:114-121 | a SendMsgToActor step: one queue grows if the id is registered |
| ActorObjects.ActorModule.ReleaseActor | src/plugin/core/actor/actor_module.cc:103-110 | a Release step: the id goes, if it is there |
| ActorObjects.ActorModule.AddHandler | src/plugin/core/actor/actor.cc:50-50 | an AddHandler step |
| ActorObjects.ActorModule.SendMsg | src/plugin/core/actor/actor.cc:52-52 | a SendMsg step, also for an actor the map does not have |
| ActorObjects.ActorModule.UpdateActor | src/plugin/core/actor/actor.cc:13-29 | Update of an actor is the run of Receive steps of the worker that is in its task |
| ActorObjects.ActorModule.RunTask | src/plugin/core/thread/thread_pool_module.h:36-48 | a turn of a worker's inner loop, with the actor it updates, is a run of the state machine |
| ActorObjects.ActorModule.UpdateEvent | src/plugin/core/actor/actor_module.cc:53-74 | at most every ten milliseconds, then a run of Schedule steps: exactly one for each registered actor |
| ActorObjects.SchedulesSubmit | src/plugin/core/actor/actor_module.cc:62-71 | scheduling registered actors in any order submits one update task each, under its id |
| ActorObjects.ActorModule.UpdateResultEvent | src/plugin/core/actor/actor_module.cc:76-86 | a run of Return steps: every waiting result is given out, in order |
| Rc4.BoxStaysPermutation | src/plugin/core/config/myrc4.cc:43-81 | the box holds every byte once after key setup and after every byte of the stream |
| Rc4.SameCycleSameSetup | src/plugin/core/config/myrc4.cc:65-81 | keys that repeat to the same first 256 bytes are one key |
| Rc4.RepeatedKeyIsSameKey | src/plugin/core/config/myrc4.cc:65-81 | so a key and the key written twice are one key |
| Rc4.FirstDifferenceTells | src/plugin/core/config/myrc4.cc:65-81 | keys that differ first in byte n give boxes that differ after n + 1 bytes |
| Rc4.SameBoxesIff | src/plugin/core/config/myrc4.cc:65-81 | the successive boxes of two keys are the same if and only if their cycles are |
| Rc4.KeyIsTold | src/plugin/core/config/myrc4.cc:65-81 | no two keys of one length, up to 256 bytes, pass through the same boxes |
| Rc4.NeutralSetup | src/plugin/core/config/myrc4.cc:65-81 | a key after which every byte is in its own place |
| Rc4.NeverMeetIff | src/plugin/core/config/myrc4.cc:43-63 | generators are the same after any number of bytes if and only if they were the same before |
| Rc4.StepEmits | src/plugin/core/config/myrc4.cc:55-60 | the byte a step emits in terms of the box before its swap, also where the swap reaches it |
| Rc4.CountsBytes | src/plugin/core/config/myrc4.cc:55-60 | one of the two marks counts the bytes of the stream |
| Rc4.NeverTrapped | src/plugin/core/config/myrc4.cc:43-63 | no key leads to the cycle of states whose other mark is one ahead on the entry 1 |
| Rc4.NeutralStream | src/plugin/core/config/myrc4.cc:43-63 | with the neutral key the stream begins with 2, 5 |
| Rc4.CryptTwice | src/plugin/core/config/myrc4.cc:6-63 | decrypting undoes encrypting, for any key of at least one byte |
| Rc4.GetKey | src/plugin/core/config/myrc4.cc:65-81 | the two loops of key setup |
| Rc4.SwapByte | src/plugin/core/config/myrc4.cc:83-87 | two entries change places, also when they are one |
| Rc4.NextByte | src/plugin/core/config/myrc4.cc:55-60 | one step of the generator and the byte it gives |
| Rc4.XorStream | src/plugin/core/config/myrc4.cc:55-60 | the loop over the data |
| Rc4.RC4 | src/plugin/core/config/myrc4.cc:43-63 | the data becomes its cipher text, in place |
| Rc4.EncryptThenDecrypt | src/plugin/core/config/myrc4.cc:6-41 | the array is restored |
| HexText.BytesSurviveHex | src/plugin/core/config/myrc4.cc:89-139 | text written for bytes reads back as them, and is accepted if and only if there are any |
| HexText.TextSurvivesIff | src/plugin/core/config/myrc4.cc:89-139 | accepted text is written again as it was if and only if it uses the sixteen digits with capital letters |
| HexText.AcceptedIff | src/plugin/core/config/myrc4.cc:108-139 | which texts are accepted, control characters included |
| HexText.ByteToHex | src/plugin/core/config/myrc4.cc:89-106 | the text and its final NUL |
| HexText.HexToByte | src/plugin/core/config/myrc4.cc:108-139 | null exactly for text it rejects, else the bytes |

## Left out

- Sockets, libevent, HTTP, UDP, protobuf, Lua, XML and JSON parsing, logging, configuration of plugins: input and output, or libraries that are not part of this model. Socket reads are arbitrary chunks, parsed files are a finite map, events of a net module are a list.
- Callback bodies: what a callback may call back into is a script of such calls; nothing else of it is modelled.
- Clocks and hashes: every clock is a parameter, and the ring hash (CRC32) is an arbitrary function.
- WebSocket.WSModule.DecodeOne: for a text frame it stops at the callback with the marker verdict.
- WebSocket.WSModule.DecodeFrame: for a text frame it returns the marker verdict, where the source recurses until its stack ends; buffers of 2^31 bytes and the handshake are left out.
- WebSocket.EncodeFrame: what append does when it is asked for more bytes than the payload holds (it throws length_error or bad_alloc for most such counts, else it reads past the payload), and a big-endian machine, on which the size is not swapped.
- WebSocket.LongPayloadAsksForMore: says that the count exceeds the payload, not which of these follows.
- HashRing.ConsistentHash.GetSuitNode: the calls that hash a name or the clock first only choose the hash value, which is a parameter.
- NetClient.NetClientModule.OnConnected: each kind's ring map is a value in the module; the object with its own methods is verified in Maps. The ring inside the map of all servers is never read and is left out.
- NetClient.NetClientModule.Poll: sending, and the lists of connect and receive callbacks, are left out.
- Requests.RequestTable.OnAckHandler: the periodic resumption of coroutines that waited too long.
- Timers.FiresAreCounted: timers created with count 0, which fire once and are then neither re-armed nor removed.
- Schedule.ScheduleModule.AddSchedule: the map of maps is one map keyed by owner and name; intervals are whole milliseconds, not floats.
- ClassIncludes.AddClassExtendsParent: include graphs with cycles, on which the recursion does not end, and files that do not exist; records and components of a class, which are added like properties.
- ClassLoading.ClassModule.LoadNode: a class is registered after it is filled, not before; nothing reads the map in between. Instance paths are left out.
- RingBuffer.StringRingBuffer.Pop: what memory holds after an overrun. Capacity 0, for which Push never returns, and capacities past 2^31 are left out.
- RecordStore.Record.Set: columns of floats and vectors, access by tag, event handlers and the remaining Find functions, which repeat these.
- DataLists.DataList.Split: strings with NUL characters are cut by the source; floats, vectors and copies of a list, which share its slots, are left out.
- ThreadPool.TasksRunOnce: quitting workers, and the start of a worker's thread before its quit flag is set.
- ActorObjects.ActorModule.UpdateEvent: the order in which the map gives the actors, the switch that runs them in the main thread (a constant false), and components of actors.
- Rc4.RC4: an empty key, which divides by zero, and null pointers.
- Integer widths are modelled where the code narrows them (lengths cast to int, ids of 48 bits, octets); counters that would need 2^31 calls to wrap are unbounded.
