# Verified model of the wilson node bus

Programs that use the wilson bus talk to each other through a service process: each node owns a local socket,
the service knows the nodes by name, and whatever a node wants everybody to hear it hands to the service. This
project is a Dafny model of that traffic: of the bytes on the sockets, of the queues and threads at both ends,
of the linked list in which the service remembers its nodes, and of the packets that come in from a remote
server. The theorems hold for all inputs, all networks, all interleavings and all runs; where the code does not
keep what one would expect of it, the exact condition is proved and an input is given.

`dafny verify dfyconfig.toml` checks the whole project.

## How the model is laid out

| file | models |
|---|---|
| `Bytes.dfy`, `Messages.dfy`, `Xml.dfy` | bytes, 32-bit words, `strncpy`; message types and queue items; documents as libxml2 hands them over |
| `List.dfy` | the list macros of `include/List.h` on heap objects, with deletion as something that may happen once |
| `CmdQueue.dfy` | `NBUS_CMD` and the ring array `NBUS_CMD_QUEUE`, refined to a bounded FIFO of values |
| `NodeTable.dfy`, `Registry.dfy` | the node registry: its meaning as a list of names, and the linked structure that implements it |
| `Delivery.dfy` | numbered send attempts: whether each arrives, and what `sendNodeMessage` reports of it |
| `NodeNetwork.dfy` | the paged senders and the receiver of local sockets |
| `Packet.dfy`, `NodePort.dfy` | the packet codec and the framer of the TCP stream |
| `Looper.dfy`, `Dispatcher.dfy` | the wake pipe; queue, pipe and dispatcher thread as a transition system |
| `KillBarrier.dfy` | what a KILL leaves behind in that system |
| `NodeAdapter.dfy` | a node's coordinator, dispatcher and wait loop as imperative code |
| `XmlLists.dfy` | the child lists of `NBUSXML` and `CommandXML`, printing and parsing |
| `ServiceTable.dfy`, `Service.dfy` | `DefaultService::processMessage`: its meaning, and the loop |
| `ServiceLaws.dfy` | what each kind of item sends, registers and makes the default node, and which node packets are forwarded to |
| `Forwarding.dfy` | from the TCP stream through the service's queue to the default node |
| `ServiceRun.dfy` | the transition system and the registry together |
| `Client.dfy` | `INodeBusService::cast` and the DROP request it makes when a send is reported lost |
| `Rendezvous.dfy` | `getNodeList` and the reply it waits for |
| `Relay.dfy` | claims across the parts: LIST end to end, whole-page broadcasts, self-relay |
| `EndToEnd.dfy` | from a list of sent messages, over sockets, coordinator, queue and dispatcher, to the node's effects |

The environment appears as functions that every statement quantifies over: how many bytes each write and
read moves, which attempts find a peer, what text parses to which document, in which batches the pipe is
read, how much of an XML header one read brings and what its buffer held before, whether the server can be
reached and a storage device is there. Bodies of critical sections are single steps. The pipe is a FIFO of
whole tokens that only `wakeup` and `exit` write to. A read of it takes all the tokens there are, or a
bufferful; what is proved of all interleavings holds for reads that stop anywhere as well, and only where the
difference matters does a statement ask for whole reads (`KillBarrier.WholeReads`).

## Where the code does something unexpected

- A message whose length is a non-zero multiple of 4096 is sent completely, then a zero-length write makes
  `sendNodeMessage` return -1 (`ReportVersusDelivery`). So a broadcast of such a payload unregisters every local
  node, on any network, whether it has reached them or not (`WholePagesUnregisterAll`); and a client's cast of one
  has its node unregistered although the node has got it (`WholePageCastDrops`).
- The service is registered with itself, so a broadcast it relays comes back to its own queue. As long as its
  attempts on itself succeed, the broadcasts on the bus circulate for ever, whatever becomes of the other nodes
  (`SelfRelayConserves`). They succeed for all lengths that do not fill whole pages (`PartialPagesCirculate`), but
  one queued broadcast that does fill whole pages ends the circulation of all of them (`WholePagesEndRelay`).
- KILL is a drain barrier exactly when the queue takes no more callbacks than are still to come in front of the exit
  (`KillBarrierIff`). The exit token's own callback counts among them unless the token gets to the start of a batch,
  which it does exactly if the tokens in front of it fill whole reads. KILL is a barrier whenever every thread that
  has pushed has also finished its wakeup, however many threads push (`KillDrainsAfterWakeups`). Where it is not,
  there is an exit that leaves items behind (`KillMayStrand`), and such states are reached (`StrandingIsReachable`).
- The coordinator reads every header word into the same buffer. A stream that breaks off inside its first word is
  completed with the bytes of earlier connections, and may so be taken for a KILL: a new coordinator takes the single
  byte 3 for one (`BrokenWord`). A message of INT_MAX bytes overflows the size of the receiver's buffer.
- `sendToSocket` goes on after a failed page without counting it, so it takes its last page for a whole one and leaves
  its buffer, exactly if a page before the last has failed (`SendingIsFront`).
- A join of an unknown entry type fails but has dropped the name by then, and a re-join of the default node
  clears the default node (`NodeRegistry.Join`).
- `wait` passes the start of the batch to every callback. That loses no wake-up: a batch that starts with the
  exit token ends at once (part of `DispatcherKeepsInv`).
- A LIST request to an empty registry makes `toXML` walk a null list. `processMessage` gets there exactly when its
  loop reaches a LIST request while nobody is registered (`FaultIffEmptyList`), for instance after a request to drop
  the service itself (`EmptyListIsReachable`). A node that is sent such a LIST response has the effect `Broken`.
- `listen` reads an XML header once and goes on with what the new buffer held before where that read was short. A stream
  that ends inside its last header may so bring out one more packet (`FramedCut`).
- `listen` runs into undefined behaviour exactly when after some turns the stream goes on with a header length above
  INT_MAX, with a header of another document kind, or with an event that announces more data than an int or a
  32-bit packet length holds (`FaultIffBadHead`), for instance a `nodebus` header or an event of length -1
  (`BadHeaderFaults`). `parserPacket` and `copyHeader` overflow in the same way (`PacketOutcome`, `CopyHeader`).

## Model

| member | source | states |
|---|---|---|
| Bytes.StrNCpyFaithful | service/Packet.cpp:227 | strncpy copies a buffer faithfully iff nothing but NULs follows its first NUL; NUL-free buffers always |
| List.ListAdd | include/List.h:24-34 | a fresh object ends up right behind the sentinel and the ring is well formed in both directions |
| List.Delete | include/NodeEntry.h:46-49 | the rest of the ring stays well formed in order, without the deleted object, which may be deleted once |
| CmdQueue.NbusCmd.Assign | service/Queue.cpp:66-86 | the assigned item has the same value and a payload buffer of its own |
| CmdQueue.SlotIsModulo | service/Queue.cpp:164-165 | slot indices count modulo the queue size from the bottom; the top is the slot after the last element |
| CmdQueue.NbusCmdQueue.constructor | service/Queue.cpp:99-110 | an empty queue whose slots are distinct objects |
| CmdQueue.NbusCmdQueue.Push | service/Queue.cpp:149-178 | appends a deep copy, or refuses exactly when all slots are taken; no slot shares memory with another or with the caller; returns the number of items |
| CmdQueue.NbusCmdQueue.Pop | service/Queue.cpp:180-210 | hands out a fresh copy of the oldest item in fresh memory, or nothing exactly when empty |
| CmdQueue.NbusCmdQueue.Clear | service/Queue.cpp:126-147 | empties the queue and keeps the slots apart |
| CmdQueue.NbusCmdQueue.GetSize | service/Queue.cpp:212-222 | the number of queued items |
| NodeTable.DropFilters | service/DefaultService.cpp:157-187 | drop removes exactly the entry of that name and keeps names distinct |
| NodeTable.DropSplits | service/DefaultService.cpp:168-183 | the other entries keep their places on both sides of the dropped one |
| NodeTable.JoinPutsFirst | service/DefaultService.cpp:233-267 | a join yields the new entry followed by the old list without its name; the count grows only for a new name |
| NodeTable.KeptInOrder | service/DefaultService.cpp:308-342 | one broadcast pass addresses each entry of the kind once, in list order, and what it leaves keeps its order |
| NodeTable.SurvivorsAreKept | service/DefaultService.cpp:319-338 | after the pass exactly the entries of other kinds and those whose own attempt succeeded are left |
| NodeTable.SurvivorsUnique | service/DefaultService.cpp:319-338 | broadcast keeps names distinct, invents nothing and removes no more than the addressed entries |
| NodeTable.SurvivorsUniform | service/DefaultService.cpp:308-342 | a pass in which all attempts succeed changes nothing; one in which all fail removes every addressed entry and no other |
| NodeTable.SurvivorsSubsequence | service/DefaultService.cpp:319-338 | two entries left by a pass stood in the same order before it |
| NodeTable.RunKeepsUnique | service/DefaultService.cpp:141-342 | names are pairwise distinct after every sequence of joins, drops and broadcasts |
| NodeTable.RegisteredIffJoined | service/DefaultService.cpp:141-342 | in every run an entry is registered iff it was joined and no later drop, re-join, failed attempt or failed reply took it out |
| NodeTable.NewestFirst | service/DefaultService.cpp:145-150 | in every run the registry lists entries from the latest join to the earliest |
| Delivery.Network.SendNodeMessage | service/NodeNetwork.cpp:472-597 | reports success exactly for an attempt that finds its peer, whose socket takes the whole frame, and whose message is a KILL or does not fill whole pages; an attempt arrives iff its wire is the whole frame |
| Delivery.ArrivalIsReceived | service/NodeNetwork.cpp:254-320 | what a coordinator gets to queue of an attempt is exactly what the receiver makes of its wire: the message with its bytes and type, or nothing |
| Registry.NodeRegistry.AddNodeEntry | service/DefaultService.cpp:141-155 | links the entry in first and counts it, whatever its name, and keeps the ring well linked; null is refused |
| Registry.NodeRegistry.Drop | service/DefaultService.cpp:157-187 | the linked list becomes the list without that name, recounted; the default node is cleared if it was the one dropped |
| Registry.NodeRegistry.Join | service/DefaultService.cpp:189-231 | the linked list becomes the joined list; null names are refused; an unknown kind only drops the name |
| Registry.NodeRegistry.Attempt | service/DefaultService.cpp:323-334 | an entry that cannot be reached is unlinked and the cursor steps back to its predecessor |
| Registry.NodeRegistry.Broadcast | service/DefaultService.cpp:269-306 | the loop that deletes while iterating terminates, makes exactly the attempts of one pass in list order, and leaves a valid ring of the survivors with the right count |
| Registry.NodeRegistry.ListNodes | service/DefaultService.cpp:448-454 | the reply's child list holds the registered names in reverse registry order |
| Registry.NodeRegistry.Exist | service/DefaultService.cpp:364-387 | 1 iff an entry of that name is registered, 0 if not, -1 for null |
| NodeNetwork.FramingRoundTrip | service/NodeNetwork.cpp:254-320 | a whole frame yields exactly the sender's type and bytes, whatever the connections before left in the buffer; a frame cut at a word or in its data yields nothing; an empty message yields nothing; only INT_MAX bytes overflow |
| NodeNetwork.BrokenWord | service/NodeNetwork.cpp:254-276 | a stream that breaks off inside its first word is taken for a KILL iff the bytes left over in the buffer complete it to one, and ignored otherwise; the byte 3 is a KILL to a new coordinator |
| NodeNetwork.FrameInjective | service/NodeNetwork.cpp:533-592 | two different messages never have the same frame |
| NodeNetwork.ReportVersusDelivery | service/NodeNetwork.cpp:559-596 | on a socket that takes everything, success implies delivery or, for INT_MAX bytes, an overflow at the receiver; delivery is reported as failure exactly for non-empty messages of whole pages |
| NodeNetwork.WritePage | service/NodeNetwork.cpp:573-589 | the write loop puts out the page's bytes in order, all of them or a proper prefix, and fails at once on an empty page |
| NodeNetwork.SendToSocket | service/NodeNetwork.cpp:149-195 | on sockets that may fail and recover: the bytes that go out page by page, the sum of the finished pages as the result, and whether the loop leaves its buffer at the last page |
| NodeNetwork.SendingIsFront | service/NodeNetwork.cpp:149-195 | it leaves its buffer iff a page before the last has failed; otherwise what goes out is a front part of the buffer, and the result is the full length iff that is everything, as it is where writes progress |
| NodeNetwork.FullPagesAreFront | service/NodeNetwork.cpp:158-192 | the whole pages in front of the last are the front of the buffer iff none of them has failed |
| NodeNetwork.GapAfterFailure | service/NodeNetwork.cpp:172-192 | after a failed first page the next pages go out all the same, and what goes out is the buffer without that page |
| NodeNetwork.SendNodeMessage | service/NodeNetwork.cpp:533-597 | puts out a prefix of the frame, the whole of it exactly if the socket takes every page; 0 iff the whole frame is out and the message is a KILL or its length mod 4096 is not 0 |
| NodeNetwork.Connection.Read | service/NodeNetwork.cpp:296 | a read moves between 1 and n bytes of the stream, and 0 only at its end or for n = 0 |
| NodeNetwork.ReadFully | service/NodeNetwork.cpp:294-307 | for any chunking the loop collects exactly the next bytes, or reports 0 when the stream ends early |
| NodeNetwork.Serve | service/NodeNetwork.cpp:254-322 | any connection, broken off anywhere, leads to exactly the callback its bytes and the old buffer contents stand for, whatever the chunking, or is told to have announced a length whose buffer size overflows |
| NodeNetwork.AcceptLoop | service/NodeNetwork.cpp:238-323 | the callbacks are those of the connections in order, each with the buffer its predecessor left; no callback follows a KILL |
| NodeNetwork.KillEndsLife | service/NodeNetwork.cpp:266-275 | whatever connections follow a KILL, the coordinator's life is the same as without them |
| NodeNetwork.FailingAcceptEndsLife | service/NodeNetwork.cpp:245-250 | whatever would follow a failing accept, its life is the same as without it |
| NodeNetwork.ServesOn | service/NodeNetwork.cpp:256-320 | a connection that brings nothing, or a callback other than KILL, leaves the rest to be served as it would be alone |
| NodeNetwork.LeftIsLength | service/NodeNetwork.cpp:256-289 | the word buffer keeps what was read into it last: after a whole message its length, after a single byte that byte in front of the old ones |
| NodeNetwork.SetupLocalNode | service/NodeNetwork.cpp:197-332 | SETUP is called back once, before any message, and only after bind and listen succeeded |
| NodeNetwork.Exchange | service/NodeNetwork.cpp:533-592 | sender and receiver together, for any splitting of writes and reads: exactly the message arrives iff the socket takes the whole frame, else nothing; INT_MAX bytes overflow; 0 iff the frame is out and the length does not fill pages |
| NodeNetwork.HealthyGoesOut | service/NodeNetwork.cpp:559-592 | if every non-empty write makes some progress, the page loop puts out every byte of a payload of any length |
| Packet.SplitPacket | service/Packet.cpp:103-115 | cutting at the length field finds header and data again, whatever follows |
| Packet.PacketOutcome | service/Packet.cpp:79-178 | what parserPacket makes of a packet, whatever follows it: refused, recognised with as much data as the header announces, or a read beyond the caller's bytes or a size that overflows |
| Packet.PacketRoundTrip | service/Packet.cpp:79-178 | parserPacket recovers header and data iff the header's C string parses, announces that much data, and the sizes fit the copy; always so for a NUL-free header |
| Packet.KindsRoundTrip | service/Packet.cpp:138-173 | an event header comes back with exactly its data and a command header without any, where the sizes fit; an event that announces more than there is leads to a read beyond the caller's bytes |
| Packet.ShortPacketRefused | service/Packet.cpp:86-113 | bytes shorter than a prefix, with another start code, or cut inside their header are refused |
| Packet.NbusPacket.CopyHeader | service/Packet.cpp:195-288 | a buffer of the announced size that starts with start code, length field and header; -1 and no buffer for an unparsable header; a write past the buffer iff the packet length wraps around |
| Packet.NbusPacket.CopyData | service/Packet.cpp:180-193 | appends the chunk to the data copied so far and touches nothing before it; -1 without a header |
| Packet.NbusPacket.IsCompleted | service/Packet.cpp:290-298 | for a packet under construction: true iff all announced data has been copied in, and then the buffer is exactly the wire form of header and data |
| Packet.NbusPacket.CompletedIsWhole | service/Packet.cpp:180-193 | a packet is complete exactly when all data is in, and then it is the wire form of header and data |
| Packet.NbusPacket.ParseHeader | service/Packet.cpp:20-77 | a buffer for the whole packet with start code and header in place and an open length field; documents of other kinds get no buffer; a write past the buffer iff the packet length wraps around |
| Packet.NbusPacket.ParserPacket | service/Packet.cpp:79-178 | on any bytes: accepts what ParsePacket recognises, with a private NUL-terminated copy, the packet length and the header and data positions; refuses or overruns exactly where ParsePacket says so |
| Packet.SendInChunks | service/Packet.cpp:79-298 | header and data copied in any chunks give the same bytes as in one, complete; a fresh parserPacket recovers header, data length and packet length, with a copy of any but a nodebus header; sizes overflow iff the receiver cannot hold the packet |
| NodePort.FramedOne | service/NodePort.cpp:102-226 | a well-formed packet whose header is read whole is framed byte for byte in front of any bytes, and the rest as if alone |
| NodePort.FramedCut | service/NodePort.cpp:144-169 | the front part of a packet brings nothing out, unless it ends inside the header and that, completed by the heap, parses as the header of a packet without data |
| NodePort.StreamOfPackets | service/NodePort.cpp:99-226 | for any list of well-formed packets whose headers are read whole, exactly these packets come out in order, in front of whatever the rest of the stream is framed to |
| NodePort.NoisePassesOver | service/NodePort.cpp:134-138 | fifteen bytes that do not begin with the start code are passed over, and the rest is framed as if alone |
| NodePort.UnparsablePassesOver | service/NodePort.cpp:164-169 | a header that does not parse is passed over, and the rest is framed as if alone, one header later |
| NodePort.PacketsAmongNoise | service/NodePort.cpp:102-226 | well-formed packets with any noise and unparsable headers between them come out exactly as they were sent, in order, in front of what the rest is framed to |
| NodePort.WellFormedIff | service/Packet.cpp:36-72 | well-formed packets are the events that announce the data they come with and the commands without data, within the sizes that the arithmetic holds |
| NodePort.HeaderAsRead | service/NodePort.cpp:144-146 | byte i of the header is the stream's if the one read has brought it, and what the heap held otherwise |
| NodePort.FramedPacketsAreWellFormed | service/NodePort.cpp:134-213 | from any stream, also with garbage and with headers cut short, every packet that comes out is the wire form of a well-formed one |
| NodePort.FramerAgreesWithParser | service/NodePort.cpp:162-220 | from any stream, a packet that listen queues is recognised by parserPacket with the same header and data iff the C string of its header parses, announces that much data and the sizes fit; without a NUL iff the sizes fit |
| NodePort.FaultIffBadHead | service/NodePort.cpp:134-213 | the loop runs into undefined behaviour iff after some turns comes a header length above INT_MAX, or a header, as it is read, of another document kind or of an event whose data length is negative as an int or whose packet length wraps around |
| NodePort.BadHeaderFaults | service/Packet.cpp:36-77 | a stream that starts with a nodebus header, or with an event of length -1, is such a one |
| NodePort.EnqueuedAllFits | service/NodePort.cpp:215-225 | with room for all of them the queue grows by exactly the packets, in order, tagged GLOBAL |
| NodePort.ReadPacket | service/NodePort.cpp:104-213 | one turn of the loop takes exactly one packet off the stream, skips, or stops, for any chunking of prefix and data and any short read of the header |
| NodePort.Listen | service/NodePort.cpp:99-231 | for any chunking and any short header reads the queue is offered exactly the framed packets in order, one wake-up each, and the loop ends for the right reason |
| Dispatcher.ProducerKeepsInv | service/NodeAdapter.cpp:61-96 | pushes, late wake-ups, refused pushes and KILL keep every queued item covered by a callback to come |
| Dispatcher.DispatcherKeepsInv | service/NodeLooper.cpp:135-181 | so do batch reads, callbacks that are given the batch's start, early returns, timeouts and checks |
| Dispatcher.NoStrandedMessage | service/NodeAdapter.cpp:61-128 | in every run queue size is at most pushes not yet woken for + wake tokens in pipe and batch + 1 for a callback that has not popped; idle means empty |
| Dispatcher.ExactlyOnceFifo | service/NodeAdapter.cpp:105-189 | in every run the popped items followed by the queue are the accepted items, and neither history is rewritten |
| Dispatcher.SetupHandshake | service/NodeNetwork.cpp:197-223 | in every run, if the set-up flag is true then the coordinator has bound and has listened, both with success, and serves |
| Dispatcher.QuietRunsDrain | service/NodeLooper.cpp:135-184 | without new pushes the threads come to rest after a bounded number of steps, with everything accepted popped |
| Dispatcher.BoundedWaiting | service/NodeLooper.cpp:135-181 | an item at place k of the queue has been popped, or the looper has exited, after 5(k + 1) steps of the dispatcher, however many items others go on pushing |
| KillBarrier.KillBarrierIff | service/NodeAdapter.cpp:86-96 | at any reachable KILL, with any posters then and later, where each read takes all tokens or a bufferful: every exit leaves everything accepted before popped iff the queue takes no more callbacks than the one under way, one per token on its way, and the exit token's own unless that looks at its event and the pipe holds whole bufferfuls |
| KillBarrier.KillDrainsAfterWakeups | service/NodeAdapter.cpp:240-263 | so it does whenever no thread stands between its push and its wakeup, even for reads that cut the pipe anywhere |
| KillBarrier.KillMayStrand | service/NodeLooper.cpp:142-166 | and where the callbacks do not suffice, a run with whole reads to an exit that leaves items of before the KILL unpopped |
| KillBarrier.PlaceInPipe | service/NodeLooper.cpp:142-151 | whole reads take whole bufferfuls off in front of the exit token until it is in reach, and then it starts its batch iff nothing is left in front of it |
| KillBarrier.StrandingIsReachable | service/NodeAdapter.cpp:240-263 | a run of a new node to a KILL that may leave an item behind: it has been set up and polls an empty pipe, and another thread has pushed but not yet woken |
| KillBarrier.LatePushIsLost | service/NodeAdapter.cpp:191-201 | a node that polls with an empty pipe keeps its queue at a KILL only if it is empty |
| KillBarrier.RoundsMeaning | service/NodeAdapter.cpp:105-189 | the number of callbacks a queue takes is one more than that of what an undisturbed callback leaves of it |
| KillBarrier.KillIsDrainBarrier | service/NodeAdapter.cpp:86-96 | if only the coordinator posts, everything accepted has been popped when the looper exits, wherever the exit token falls in a batch |
| KillBarrier.ExitLeavesOnlyLateItems | service/NodeLooper.cpp:147-166 | with other posters the exit leaves at most one item per wake-up that was not read before it |
| Dispatcher.UndisturbedCallback | service/NodeAdapter.cpp:105-189 | the steps of an undisturbed callback pop exactly the items up to the first one that makes it return |
| NodeAdapter.EffectYields | service/NodeAdapter.cpp:114-186 | SETUP sets up, an item without data is invalid, a response to a waiting call goes to its buffer with its nodes turned round, and everything else, XML or not, is delivered with exactly its bytes and type |
| NodeAdapter.StopsMeaning | service/NodeAdapter.cpp:114-128 | a callback returns and leaves the rest at SETUP, at an item without data and at a LIST response without nodes, and at nothing else |
| NodeAdapter.Adapter.LocalAction | service/NodeAdapter.cpp:61-84 | posts the bytes as given (a SETUP message stays zeroed) and one wake token even when the queue is full; refuses missing or empty data |
| NodeAdapter.Adapter.NodeCallback | service/NodeAdapter.cpp:86-96 | KILL writes the exit token and queues nothing |
| NodeAdapter.Adapter.Dispatch | service/NodeAdapter.cpp:105-189 | takes items in order up to and including the first at which it returns, each yields its effect, the rest stays queued, and the result is -1 iff that one was bad |
| NodeAdapter.Adapter.Handle | service/NodeAdapter.cpp:114-186 | the one effect that the item yields: a response with a sync id is answered into the caller's buffer and not delivered; everything else with data is delivered once as it is |
| NodeAdapter.Adapter.Thread | service/NodeLooper.cpp:124-185 | for any batch sizes: exits iff the pipe holds an exit token, after exactly the draining callbacks that its batches lead to when each callback is given the start of its batch; drains the queue if it does not exit, or if the exit token is the last one |
| NodeAdapter.FixedReadsDrain | service/NodeLooper.cpp:142-166 | with reads of one size, the draining callbacks are one per token before the exit token, and one more unless those fill whole reads |
| NodeAdapter.WorkedIff | service/NodeAdapter.cpp:105-189 | so many callbacks empty the queue iff it takes no more rounds |
| NodeAdapter.DispatchedMeaning | service/NodeAdapter.cpp:105-189 | item by item, dispatch takes the shortest front part that ends in a stopping item, or everything, with one effect per item in order |
| XmlLists.ChildList.Forward | service/XMLParser.cpp:685-691 | the forward walk lists the children from newest to oldest |
| XmlLists.ChildList.Backward | service/XMLParser.cpp:861-866 | the backward walk lists the children from oldest to newest |
| XmlLists.ChildList.Destroy | include/XMLTypes.h:196-211 | the destructor deletes every child exactly once, then the sentinel |
| XmlLists.NbusXml.AddNode | include/XMLTypes.h:228-237 | a node goes in front of the others |
| XmlLists.ParseBus | service/XMLParser.cpp:171-187 | a parsed document holds its nodes in reverse document order, and its attributes |
| XmlLists.Reprint | service/XMLParser.cpp:671-694 | parsing and printing a LIST response reverses its nodes and changes nothing else |
| XmlLists.CommandXml.AddArgument | include/XMLTypes.h:315-324 | an argument comes last in insertion order |
| XmlLists.ParseCommand | service/XMLParser.cpp:543-572 | a parsed command has the document's arguments in document order |
| XmlLists.CommandRoundTrip | service/XMLParser.cpp:847-872 | print, parse and print again gives the same arguments in insertion order, for any number of them |
| ServiceTable.HandleKeepsUnique | service/DefaultService.cpp:389-738 | whatever the item, names stay distinct and no send attempt is forgotten |
| ServiceTable.DrainKeepsUnique | service/DefaultService.cpp:389-738 | one processMessage keeps names distinct, takes at least one item off a non-empty queue, and all of them unless it stops early |
| ServiceTable.ServiceLifeIsRun | service/DefaultService.cpp:389-738 | whatever is sent to a service that has registered itself, REGISTER and USB requests included and whatever they meet outside, its registry is that of a run of joins, drops, broadcasts and replies |
| ServiceTable.RegisteredForLife | service/DefaultService.cpp:389-738 | a node is registered iff its last join, by request or by REGISTER, was not undone by a drop, a re-join, a failed attempt of a relayed or USB broadcast, or a failed reply |
| ServiceTable.DrainHandlesWhatItTakes | service/DefaultService.cpp:389-403 | one processMessage handles exactly the items it takes off the queue, each once, in order |
| ServiceTable.FaultIffEmptyList | service/DefaultService.cpp:436-460 | processMessage runs into the null list iff the loop reaches a LIST request at a moment when nobody is registered |
| ServiceTable.EmptyListIsReachable | service/DefaultService.cpp:462-472 | a service that is asked to drop itself and then for its list gets there |
| ServiceLaws.SendsOfItem | service/DefaultService.cpp:405-735 | every item adds exactly the attempts of its kind: a packet from the network to the default node, a broadcast to every local node in order, a LIST answer to the node named, READY to the router, the USB notice to every local node; and no others |
| ServiceLaws.NodesOfItem | service/DefaultService.cpp:425-660 | every item brings and takes exactly the entries of its kind, and leaves the registry alone if it is none of these |
| ServiceLaws.DefaultOfItem | service/DefaultService.cpp:157-187 | after an item n is the default node iff the item makes it so, or it was and is neither replaced nor dropped while registered |
| ServiceLaws.DefaultIff | service/DefaultService.cpp:389-738 | in every life n is the default node iff a SET_DEFAULT_NODE or a REGISTER has made it so that no later one and no drop or re-join of n has undone |
| ServiceLaws.GlobalIsForwarded | service/DefaultService.cpp:700-713 | in every life a packet from the network adds exactly one attempt, with its bytes, on the node that is the default by then, and none if there is no such node |
| ServiceLaws.LifeForwards | service/DefaultService.cpp:700-713 | in every life the attempts with GLOBAL messages are exactly these, in order |
| ServiceLaws.ReadyIsEvent | service/DefaultService.cpp:504-514 | the READY packet is recognised as an event without data |
| Forwarding.DrainForwards | service/DefaultService.cpp:389-403 | packets handled in one go all go to the default node, in order and byte for byte, and nothing else happens |
| Forwarding.ListenAndServe | service/NodePort.cpp:99-231 | a stream that is queued and then handled: the default node is sent the framed packets that fit into the queue, in order and byte for byte, and nobody else is sent anything |
| Forwarding.ForwardStream | service/NodePort.cpp:99-231 | what the server puts into the stream as packets, between noise and unparsable headers, reaches the default node, for any chunking |
| ServiceRun.RegistryOfRun | service/DefaultService.cpp:33-60 | in every interleaving of pushes, wake-ups and dispatcher the registry is that of the run of joins, drops, broadcasts and replies of the items popped so far, with distinct names; when all is idle, of every item ever accepted |
| ServiceRun.CrashesIff | service/DefaultService.cpp:436-460 | in every interleaving the process is down iff a LIST request has been popped while nobody was registered |
| ServiceRun.IsDispatcherRun | service/DefaultService.cpp:389-403 | without the registry it is a run of queue, pipe and dispatcher, so what holds of those holds of the service |
| Service.DefaultService.LocalAction | service/DefaultService.cpp:33-60 | posts the bytes and a wake token, never an item without data; SETUP only marks the service initialised |
| Service.DefaultService.MakeReply | service/DefaultService.cpp:438-456 | the reply echoes sync id, buffer and node, and lists the registry backwards; none for an empty registry |
| Service.DefaultService.List | service/DefaultService.cpp:436-470 | sends the reply to the named node and drops that node if the send fails |
| Service.DefaultService.Register | service/DefaultService.cpp:476-530 | REGISTER with a server that can be reached joins the router, then the default node, makes that the default and sends the READY packet to the router; else it changes nothing |
| Service.DefaultService.UsbRequest | service/DefaultService.cpp:535-658 | a USB request without a storage device broadcasts the notice as a JSON message, dropping whom it does not reach |
| Service.DefaultService.ProcessItem | service/DefaultService.cpp:397-736 | an item changes registry, default node and sends as Handle says, with the early returns for invalid and unparsable items; the attempts it adds are those of its kind |
| Service.DefaultService.ProcessMessage | service/DefaultService.cpp:389-738 | the loop over the ring array and the linked registry has the effect of Drain on the whole queue |
| Rendezvous.StepKeepsOnePerCall | service/INodeBusService.cpp:127-152 | at most one request, reply or exit token is under way per waiting call, and none for a finished one, though descriptors and buffers are used again |
| Rendezvous.StepKeepsTexts | service/NodeAdapter.cpp:142-158 | a written buffer holds the text for the registry that the service saw for that call |
| Rendezvous.ReturnsTheMatchingReply | service/INodeBusService.cpp:143-151 | in every run getNodeList returns only with the reply to its own request, written before it returned |
| Rendezvous.RepliesFindTheirCall | service/NodeAdapter.cpp:148-153 | in every run a reply that is still to be written meets a caller that is still waiting for it |
| Relay.ListTextIsRegistryOrder | service/DefaultService.cpp:436-460 | if this reply's own text parses back, then from the service through printing and parsing to the caller's buffer the final text lists the registry in registry order |
| Relay.ListReachesCaller | service/DefaultService.cpp:436-470 | a LIST request adds one attempt, on the node it names, and there it yields the caller's reply: the names in registry order, in the buffer and for the call that the request names |
| Relay.WholePagesUnregisterAll | service/NodeNetwork.cpp:559-596 | on any network a broadcast of whole pages unregisters every local node and no other |
| Relay.BroadcastOnHealthyNetwork | service/DefaultService.cpp:308-342 | if each of its attempts arrives, a broadcast leaves the registry alone iff its payload does not fill whole pages or nobody is addressed |
| Relay.SelfRelayStep | service/DefaultService.cpp:126 | on any network, handling a broadcast brings one copy back iff the service is registered with itself and its own attempt arrives; it stays registered iff that attempt is reported a success |
| Relay.WithoutSelfRunsEnd | service/DefaultService.cpp:716-730 | with no local entry of the service every run is bounded and ends with queue and flight empty |
| Relay.RegisteredIffSelfReached | service/DefaultService.cpp:319-338 | at the end of any run the service is still registered iff all its attempts on itself were reported successes |
| Relay.SelfRelayConserves | service/DefaultService.cpp:716-730 | in every run in which they were, whatever the others met, the broadcasts in queue and flight are the same ones and some step is always enabled |
| Relay.PartialPagesCirculate | service/NodeNetwork.cpp:559-596 | that is so in every run in which they arrive and no broadcast on the bus fills whole pages, of whatever lengths |
| Relay.WholePagesEndRelay | service/NodeNetwork.cpp:559-596 | with a broadcast of whole pages at place k of the queue every run, on any network, is bounded by what is on the bus and k, and ends with queue and flight empty |
| Client.NodeBusService.Cast | service/INodeBusService.cpp:45-58 | the first attempt is the message with its bytes and type on the node, and one DROP request to the service follows exactly if that is reported lost; 0 except for missing arguments |
| Client.CastReachesNode | service/INodeBusService.cpp:50 | the node that is named gets exactly the message iff the attempt arrives, and nothing else |
| Client.CastDropsIff | service/INodeBusService.cpp:45-58 | once the service has handled what the cast asks of it, exactly the cast's node is gone, and only if the send was reported lost and the request arrived |
| Client.WholePageCastDrops | service/INodeBusService.cpp:50-55 | a registered node that has got the whole message stays registered iff it is a KILL or does not fill whole pages |
| EndToEnd.SendAll | service/NodeNetwork.cpp:533-592 | each connection carries what its own socket takes of its message, and the reports are those of the sender |
| EndToEnd.Collect | service/NodeNetwork.cpp:218-323 | a coordinator is called back with SETUP, then with exactly the messages that go out whole and are not empty, in order, then with KILL |
| EndToEnd.Run | service/NodeAdapter.cpp:61-189 | from senders to a dispatcher that runs at any times in between, for any splitting of writes, reads and batches: the node is set up, and with room for all each message that goes out is handed over once, in order, with exactly the bytes and type it was sent with, unless it is a SETUP or a reply; without room those that meet room have their effects; the looper exits |
| EndToEnd.AllAreHeard | service/NodeNetwork.cpp:254-320 | messages with data that all go out are all heard, with their types and bytes, in order |
| EndToEnd.KeptAllIff | service/Queue.cpp:149-178 | none is lost iff none meets a full queue; a slot for each is enough, and so is one slot if the dispatcher keeps up |
| EndToEnd.AcceptedIsAdmitted | service/Queue.cpp:149-178 | in every run the queue accepts exactly the pushes that meet room, in order |
| EndToEnd.NoneRefused | service/Queue.cpp:149-178 | in every run those are all the pushes iff none meets a full queue, however many there are |
| EndToEnd.EverySchedule | service/NodeAdapter.cpp:86-189 | for any number of messages and every interleaving of coordinator and dispatcher that gets to the exit, everything that met room has been popped; if all did, each is handed over in the same way |

## Left out

- Service.DefaultService.Register: starting the port's and the default node's threads, and reading from the server. The READY text is one that parses as an event without data.
- Service.DefaultService.UsbRequest: the process that is forked when a storage device is there.
- NodeNetwork.Serve: a read of a header word returns less than four bytes only at the end of the stream (its sender writes each in one piece); what follows a negative or overflowing length is left open.
- NodeNetwork.SendNodeMessage: creating and connecting the socket is part of `Delivery.Network.SendNodeMessage`, as attempts that find no peer.
- NodePort.Listen: the address exchange before the packet loop.
- Dispatcher.SetupHandshake: the coordinator's steps bind, listen, SETUP, serve are the states of the transition system, in setupLocalNode's order; threads other than the coordinator do not post SETUP messages, and NodeAdapter::run's sleeping loop is the observation of the flag.
- Rendezvous.ReturnsTheMatchingReply: the reply is handled in the caller's own process, its descriptor is positive, and only the dispatcher writes exit tokens to that pipe; that a lost request leaves the caller waiting for ever is allowed, not excluded.
- Relay.SelfRelayConserves: the queue has room for all circulating items (when it is full, relayed items are refused and lost like any other push), and only broadcasts are on the bus.
- EndToEnd.Run: the senders come one after the other, and no message has INT_MAX bytes. After a LIST response without nodes (`Broken`) the dispatcher of the model goes on; the code has crashed by then.
- EndToEnd.EverySchedule: that the coordinator posts what it is called back with is the hypothesis on the run's pushes; `EndToEnd.Run` proves it of the code for the schedules in which the dispatcher runs between callbacks.
- NodeLooper::wait under concurrent pushes is the transition system, not a method; NodeAdapter.Adapter.Thread is the loop on what is already in the pipe.
- libxml2 is a function from text to document and back; white space trimming, attributes that are missing, and buffers of 64 or 1024 bytes are not modelled.
- INodeBusService::join, setDefaultNode and broadcast, which build one request and send it.
- The sendNodeMessage variant that keeps its socket open, NodeLooper::timer, the stack, the test case parser, the bridge, the logger and the default node's callback.
- Socket names and address families: a send attempt names its peer and either reaches it or does not.
- Memory that is leaked or freed twice on error paths.
