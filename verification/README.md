# libktorrent, verified

A Dafny model of the parts of libktorrent whose correctness is a statement about whole runs: the
peer wire framing, the Kademlia routing table and its lookups, the scattered storage of pieces, the
download of a chunk, the bandwidth scheduler and bencoding. Objects that the library updates in
place are classes with the same fields and loops; each method is proved against an independent
definition of what it should do, and what the library is for is proved about those definitions.

`dafny verify dfyconfig.toml` checks everything.

| file | models |
|---|---|
| `Common.dfy` | options, bytes, 32-bit numbers in network order, wrap-around |
| `PacketReader.dfy` | reassembly of packets from a byte stream |
| `Packet.dfy`, `PacketSocket.dfy` | outgoing packets, their two queues, partial writes |
| `Connection.dfy` | a sender, the byte stream and a receiver together |
| `Key.dfy` | 160-bit arithmetic on five limbs |
| `KBucketEntry.dfy` | a node as a bucket remembers it |
| `KClosest.dfy` | the search for the closest nodes |
| `KBucket.dfy`, `KBucketTable.dfy` | buckets and the routing table |
| `RpcServer.dfy` | transaction ids and the overflow queue |
| `LookupTasks.dfy` | node lookups and announces |
| `TorrentLayout.dfy` | where chunks lie in files |
| `MultiFileCache.dfy` | saving and loading pieces across files and do-not-download (DND) side files |
| `WebSeed.dfy` | chunks as HTTP ranges, and the response back as chunks |
| `ChunkDownload.dfy` | requests, arrival of pieces, the incremental hash |
| `Bandwidth.dfy` | nested allowances and round robin |
| `Bencode.dfy`, `BencodeCodec.dfy`, `BencodeGrammar.dfy` | decoder, encoder and the language that is accepted |

The main results:

- **Framing.** `Connection.Guarantee`: after any interleaving of enqueuing, cancelling, partial
  writing, reading and delivering, what was delivered is a prefix of the payloads that the sender
  selected, and all of it once every byte has arrived. It rests on `EndToEnd`, `FramesParse`,
  `ParseResumes` and the history that `PacketSocket` keeps. `EndToEndThroughHooks` extends it to
  connections whose bytes are encrypted on the way.
- **Routing table.** `KBucketTable.Valid` holds in every table grown from empty: the ranges are
  consecutive and tile [Key::min(), Key::max()], every entry, candidate and pinged-for candidate is
  in its range, the sizes are bounded, and there are at most 157 buckets. An insert drops at most one
  entry of the table, a bad one, our own bucket is split exactly when it is full, wide enough and has no bad
  entry, a split drops none and never fails, and the end of a ping drops at most the entry that did not
  answer and a bad one.
- **Storage.** `MultiFileCache.PutPiece` and `LoadPiece` are writes and reads of one flat array.
- **Webseeds.** `WebSeed.DownloadsTheTorrent`: a server that answers the ranges asked for fills exactly the
  missing chunks with their own bytes, whatever chunks other sources complete meanwhile.
- **Lookups.** `Finishes`: no task stalls, asks a node twice or goes on for ever; `Walked`: every listed node is
  asked, the closest first.
- **Chunk downloads.** `ChunkDownload.Piece`: whatever the order of arrival, the hash sees the chunk in order;
  after every piece each source is asked for as much as it accepts, and for no more.
- **Transaction ids.** `RPCServer.Valid`: active calls have different ids, no call is lost, requests
  go out in the order in which they were made, and calls wait only while all 256 ids are in use.
- **Bandwidth.** Loops end, move exactly what they take off the allowance, leave allowance unused only
  when nobody can use it, give every group its assured amount if the allowance suffices, and in one turn of a group let any two sockets that stay in its list move amounts
  at most one slot apart.
- **Bencode.** `RoundTripExactly`, `NodesAreLocal`, and `DecodesExactly`: the decoder accepts exactly the language
  described by `Grammar`.

## Where the code and its documentation differ

- `Key::max()` is documented as all FF (src/dht/key.h:62), but only its first byte is FF
  (src/dht/key.cpp:162). The model follows the code, so a table covers the keys up to that one, and
  nodes above it are not stored.
- A repeated distance offered to a full `KClosestNodesSearch` still erases the largest distance, so
  the search then holds one entry too few. `OfferKeepsSmallest` says exactly when this happens.
- A piece that comes from a source that is not assigned, while the only assigned source was asked for
  it, stays marked as requested there. `ChunkDownload.Piece` says exactly when this happens, and
  `StaleRequestRun` makes it happen for any chunk of several pieces.
- The end of a ping can put an entry in a bucket twice: its candidate is not looked for in the bucket, where
  it may have been stored meanwhile. `ResponseUnique` and `TimeoutUnique` say exactly when, and `DuplicateRun`
  is a run that ends like that. Nothing else creates duplicates (`KBucketTable.Insert`, `OnTimeout`).
- A lookup that is killed while it waits in the queue is started all the same (src/dht/taskmanager.cpp:42-49),
  and then a finished task sends requests: at most 16, and some exactly if its list is not empty
  (`NodeLookup.Start`, `AnnounceTask.Start`, `KilledTaskSends`).
- The timeout of a call goes by the id in its request (src/dht/rpcserver.cpp:269-272). If the call was over
  already and the id is in use again, it ends the other call (`RPCServer.TimedOut`, `LateTimeout`).
- The slot of the round robin is computed in 32 bits and is 0, no limit, for one socket with the largest
  allowance. `SlotBoundsExactly` says that the allowance bounds what is moved in all other cases.
- An allowance of 0 means "no limit", and the step for assured rates can pass on 0. So a round can exceed
  the global limit; `CoveredExactly` says for which groups and amounts it cannot, and
  `SecondGroupIsNotCovered` gives an example for every limit.
- The constant `max` in the subtraction of keys is computed in 32 bits and is 0; the result is right
  all the same (`BorrowIsRight`).

## Model

| member | source | states |
|---|---|---|
| `PacketReading.ParseResumes` | src/peer/packetreader.cpp:62-140 | parsing a stream may stop at any byte, inside a length or a packet, and resume there with the same result |
| `PacketReading.FragmentationIndependence` | src/peer/packetreader.cpp:122-140 | however a stream is cut into reads, the packets, the bytes left over and the error are those of one parse of the whole |
| `PacketReading.ParseOnePacket` | src/peer/packetreader.cpp:100-120 | a length followed by part of its packet yields nothing yet, followed by all of it yields exactly the packet |
| `PacketReading.ParseHeader` | src/peer/packetreader.cpp:62-98 | what an unfinished length, a keep-alive and a length above the limit yield |
| `PacketReading.AtExtend` | src/peer/packetreader.cpp:100-120 | copying bytes into the unfinished packet keeps the machine in step with the parse of the stream |
| `PacketReading.AtLength` | src/peer/packetreader.cpp:66-88 | so do the bytes of the next length: it is kept, skipped as keep-alive, or starts a packet |
| `PacketReading.AtOverlong` | src/peer/packetreader.cpp:90-94 | a length above the limit is an error whatever follows it, and what was complete before stays deliverable |
| `PacketReading.AtPop` | src/peer/packetreader.cpp:32-47 | taking the front packet moves exactly one payload from the queue to the delivered ones, and an unfinished one is never taken |
| `PacketReading.PacketReader.DequeuePacket` | src/peer/packetreader.cpp:32-47 | returns the oldest complete packet, and nothing only when no packet is complete |
| `PacketReading.PacketReader.Update` | src/peer/packetreader.cpp:49-60 | hands over all complete packets in order, and none after an error |
| `PacketReading.PacketReader.TakeLength` | src/peer/packetreader.cpp:64-84 | joins the bytes of a length from several reads; decodes it once it has four bytes |
| `PacketReading.PacketReader.NewPacket` | src/peer/packetreader.cpp:62-98 | consumes at least one byte, stops early only between packets, and keeps in step with the parse |
| `PacketReading.PacketReader.ReadPacket` | src/peer/packetreader.cpp:100-120 | fills the unfinished packet as far as the bytes go and keeps in step with the parse |
| `PacketReading.PacketReader.OnDataReady` | src/peer/packetreader.cpp:122-140 | after any number of reads and dequeues, delivered plus complete packets are the packets of all bytes received, and the error flag says whether there was an over-long length |
| `Packets.CreateIsWellFormed` | src/download/packet.cpp:19-25 | every packet carries the length of what follows, and its payload is its type and body |
| `Packets.PieceAnswersOneRequest` | src/download/packet.cpp:86-104 | a piece packet matches exactly the request that it answers, and its reject names that request |
| `Packets.RequestCarries` | src/download/packet.cpp:57-65 | a request or reject carries index, offset and length, in this order |
| `PacketSockets.PiecesYield` | src/net/packetsocket.cpp:43-74 | a piece passes a waiting control packet only right after at least three control packets |
| `PacketSockets.PiecesProgress` | src/net/packetsocket.cpp:43-74 | while pieces wait, every four packets in a row include a piece, unless 2^32 control packets in a row have wrapped the counter |
| `PacketSockets.SendPart` | src/download/packet.cpp:128-143 | after a partial write, the bytes on the wire are still all selected packets but for the unsent rest of the last |
| `PacketSockets.PacketSocket.SelectPacket` | src/net/packetsocket.cpp:43-74 | moves one packet from the front of the queue that fairness names; nothing else leaves or changes the queues |
| `PacketSockets.PacketSocket.SendCurrent` | src/download/packet.cpp:128-143 | sends the next bytes of the current packet, at most the limit, and accounts for those of pieces; unless the socket refuses bytes, the packet is out or the limit is reached |
| `PacketSockets.PacketSocket.Write` | src/net/packetsocket.cpp:76-118 | sends at most the limit, stops only at the limit, when the socket refuses bytes or when nothing is queued; every packet is sent or queued exactly once, in order, and pending plus uploaded bytes are conserved |
| `PacketSockets.PacketSocket.AddPacket` | src/net/packetsocket.cpp:120-132 | appends to the queue of its kind and keeps the count of pending bytes |
| `PacketSockets.PacketSocket.ClearPieces` | src/net/packetsocket.cpp:154-174 | drops every queued piece; with reject, exactly one matching reject for each, in order |
| `PacketSockets.PacketSocket.DoNotSendPiece` | src/net/packetsocket.cpp:176-196 | drops exactly the queued pieces that answer the request; with reject, one matching reject for each |
| `PacketSockets.PacketSocket.NumPendingPieceUploadBytes` | src/net/packetsocket.cpp:205-209 | the counter is the number of unsent bytes of queued and current pieces, so it never underflows |
| `Connections.FramesParse` | src/download/packet.cpp:19-25 | the bytes of any list of packets within the limit parse back to exactly their payloads |
| `Connections.EndToEnd` | src/peer/packetreader.cpp:122-140 | any prefix of the sent bytes parses without error to a prefix of the payloads, and all of the bytes to all of them |
| `Connections.EndToEndThroughHooks` | src/net/packetsocket.cpp:71-73 | the same for fragments of any size when the bytes are changed packet by packet on sending and changed back read by read on arrival, by hooks that are inverse at every position of the stream |
| `Connections.Connection.Guarantee` | src/net/packetsocket.cpp:76-118 | in every reachable state the delivered payloads are a prefix of the selected ones, and all of them when everything sent has been read |
| `Connections.Connection.Cancel` | src/net/packetsocket.cpp:154-196 | cancelling never touches what was selected before |
| `Connections.Connection.Deliver` | src/peer/packetreader.cpp:49-60 | when everything sent has been read, the peer has been handed exactly the selected payloads |
| `Keys.CompareIsNumericOrder` | src/dht/key.cpp:56-74 | comparing digit by digit from the left is comparing the numbers |
| `Keys.BytesAreTheNumber` | src/dht/key.cpp:56-74 | the 20 bytes and the five limbs of a key write the same number |
| `Keys.ComparisonIsNumeric` | src/dht/key.cpp:46-74 | memcmp orders keys as 160-bit integers |
| `Keys.Add` | src/dht/key.cpp:76-88 | the sum modulo 2^160 |
| `Keys.AddByte` | src/dht/key.cpp:90-102 | the sum modulo 2^160, although the loop stops when nothing is carried |
| `Keys.BorrowIsRight` | src/dht/key.cpp:143-146 | the borrowing branch stores the right limb although its constant wraps to 0 |
| `Keys.Subtract` | src/dht/key.cpp:133-151 | the difference modulo 2^160 |
| `Keys.Divide` | src/dht/key.cpp:104-116 | the floor of the quotient by a positive int |
| `Keys.Mid` | src/dht/key.cpp:153-160 | the floor of the true average, whichever argument is larger, and between them |
| `Keys.XorIsAMetric` | src/dht/key.cpp:118-121 | the distance is symmetric, 0 only for equal keys, and obeys the triangle inequality |
| `Keys.XorUndoes` | src/dht/key.cpp:118-121 | applying a distance twice gives the key back |
| `Keys.XorOfLimbs` | src/dht/key.cpp:118-121 | limb by limb is the exclusive or of the whole numbers |
| `Keys.DistanceIsXor` | src/dht/key.cpp:118-121 | the distance of two keys is the exclusive or of their 160-bit numbers |
| `Keys.DistanceIsInjective` | src/dht/key.cpp:118-121 | two nodes at the same distance have the same id |
| `KClosest.KSmallestIsUnique` | src/dht/kclosestnodessearch.cpp:27-48 | the k smallest distances are one set, so the order of arrival does not matter |
| `KClosest.OfferKeepsSmallest` | src/dht/kclosestnodessearch.cpp:32-47 | an offer keeps the k smallest distances if and only if it is not a repeated distance, below the largest, on a full map |
| `KClosest.RepeatedDistanceLosesAnEntry` | src/dht/kclosestnodessearch.cpp:41-46 | an example of the exception |
| `KClosest.KClosestNodesSearch.Place` | src/dht/kclosestnodessearch.cpp:32-47 | what happens to the map, and that the entry erased is the one with the largest distance |
| `KClosest.KClosestNodesSearch.TryInsert` | src/dht/kclosestnodessearch.cpp:27-48 | for different ids, the map holds exactly the closest of all entries offered so far |
| `DhtEntries.BadMeans` | src/dht/kbucketentry.cpp:57-82 | a node is bad if and only if it was last heard of more than 15 minutes ago and has left three queries or three pings unanswered |
| `KBuckets.StoreSound` | src/dht/kbucket.cpp:90-118 | storing an entry keeps sizes and ranges |
| `KBuckets.PingSound` | src/dht/kbucket.cpp:170-201 | so does pinging or queueing a candidate: at most K candidates and two pings |
| `KBuckets.StoreLosesOnlyTheBad` | src/dht/kbucket.cpp:90-118 | storing adds the entry, adds nothing else, and loses at most one node, which was bad |
| `KBuckets.StoreIfThereIsAPlace` | src/dht/kbucket.cpp:90-118 | an entry is stored if and only if its node is in the bucket, or there is room or a bad entry |
| `KBuckets.StoreAppends` | src/dht/kbucket.cpp:90-118 | a stored entry is the newest, just as it was given; it replaces the entry of the same node or else, in a full bucket, the first bad one, and all others keep their order |
| `KBuckets.QueueMeans` | src/dht/kbucket.cpp:172-181 | a queued candidate is first, without an older entry of its node, and only the last ones are dropped |
| `KBuckets.PingMeans` | src/dht/kbucket.cpp:170-201 | a candidate is queued while two pings are out; otherwise the first questionable entry is pinged for it, if there is one |
| `KBuckets.ResponseMeans` | src/dht/kbucket.cpp:120-137 | when a ping is answered it is over, and its candidate takes the place of the first bad entry or is tried on another one |
| `KBuckets.TimeoutMeans` | src/dht/kbucket.cpp:139-168 | when it is not, the candidate replaces the first entry at the address, and the first waiting candidate is tried if fewer than two pings are out |
| `KBuckets.RequestTimeoutMeans` | src/dht/kbucket.cpp:231-243 | a request that was not answered counts against the first entry at its address and no other |
| `KBuckets.PingKeepsIdents` | src/dht/kbucket.cpp:170-201 | pinging loses no node |
| `KBuckets.ResponseLosesOnlyTheBad` | src/dht/kbucket.cpp:120-137 | an answered ping loses at most one node, a bad entry of the bucket, and gains none but a candidate |
| `KBuckets.TimeoutLosesTwo` | src/dht/kbucket.cpp:139-168 | a ping that was not answered loses at most the entry at its address and one bad entry, and gains none but candidates |
| `KBuckets.StoreKeepsUnique` | src/dht/kbucket.cpp:90-118 | storing an entry never puts a node in the bucket twice |
| `KBuckets.CountersKeepUnique` | src/dht/kbucket.cpp:170-201 | neither do pinging and counting failed requests |
| `KBuckets.ReplaceBadUnique` | src/dht/kbucket.cpp:203-217 | replacing a bad entry does if and only if the new entry stands elsewhere in the bucket |
| `KBuckets.ResponseUnique` | src/dht/kbucket.cpp:120-137 | an answered ping creates a duplicate if and only if its candidate stands in the bucket at a place other than that of the first bad entry, and there is one |
| `KBuckets.TimeoutUnique` | src/dht/kbucket.cpp:139-168 | the exact condition for a ping that was not answered, over the contents before |
| `KBuckets.StoredThenAnswered` | src/dht/kbucket.cpp:90-137 | from any full bucket with two bad entries and a candidate that is not in it, storing the candidate and then answering its ping ends with a duplicate |
| `KBuckets.DuplicateRun` | src/dht/kbucket.cpp:90-137 | a whole run of that kind |
| `RoutingTables.ExtremeKeys` | src/dht/key.cpp:162-173 | the values of Key::min() and Key::max(); the latter is FF followed by zeros |
| `RoutingTables.KBucket.SplitAllowed` | src/dht/kbucket.cpp:54-65 | exactly the buckets with our id whose range is wider than K may be split |
| `RoutingTables.KBucket.ReplaceBadEntry` | src/dht/kbucket.cpp:203-217 | the first bad entry gives way, if there is one |
| `RoutingTables.KBucket.PingQuestionable` | src/dht/kbucket.cpp:170-201 | pings the first questionable entry, or queues the candidate as the freshest when two pings are out |
| `RoutingTables.KBucket.Insert` | src/dht/kbucket.cpp:90-118 | refreshes, appends, replaces a bad entry, asks for a split or lets the candidate wait, in this order; a stored entry is the newest one (`StoreAppends`) |
| `RoutingTables.KBucket.OnResponse` | src/dht/kbucket.cpp:120-137 | the candidate of an answered ping tries the next bad or questionable entry |
| `RoutingTables.KBucket.OnTimeout` | src/dht/kbucket.cpp:139-168 | the entry that did not answer gives way to the candidate, and the next candidate is tried |
| `RoutingTables.KBucket.RequestTimedOut` | src/dht/kbucket.cpp:231-243 | the first entry with the address has one failure more |
| `RoutingTables.KBucket.Split` | src/dht/kbucket.cpp:67-88 | fails exactly for ranges of at most three keys; otherwise the halves adjoin, meet at the floor of the middle, together know the same nodes, have no duplicates and keep the order of entries |
| `RoutingTables.TilesPartition` | src/dht/kbuckettable.cpp:84-93 | every key of the interval lies in exactly one range |
| `RoutingTables.SplitTiles` | src/dht/kbuckettable.cpp:48-66 | replacing a range by its halves keeps the ranges consecutive, disjoint and covering |
| `RoutingTables.SplitKeepsNarrow` | src/dht/kbucket.cpp:67-88 | our own range halves with every split |
| `RoutingTables.FewSplits` | src/dht/kbucket.cpp:54-65 | so a range that may still be split is one of at most 156 |
| `RoutingTables.SplitRanges` | src/dht/kbuckettable.cpp:48-66 | a split by our own bucket keeps all of this and leaves at most 157 ranges |
| `RoutingTables.KBucketTable.FindBucket` | src/dht/kbuckettable.cpp:84-93 | finds the bucket of a key; only keys above Key::max() have none |
| `RoutingTables.KBucketTable.Insert` | src/dht/kbuckettable.cpp:32-72 | keeps the table invariant; the entry is the newest of its bucket afterwards, just as it was given, if its node was known or there was a place, and the bucket is full otherwise; a bucket is split if and only if it is ours, is where the entry belongs, is full, has no bad entry and is wide enough; at most one node is lost, whose entry was in the table and bad; nothing else is gained, and no duplicate arises |
| `RoutingTables.KBucketTable.InsertAt` | src/dht/kbuckettable.cpp:46-48 | the same for one bucket, with the lost entry from that bucket, and exactly when a split is asked for |
| `RoutingTables.KBucketTable.SplitBucket` | src/dht/kbuckettable.cpp:48-71 | a split never fails and loses no node |
| `RoutingTables.KBucketTable.OnePlacePerNode` | src/dht/kbuckettable.cpp:84-93 | a node is in one bucket only, and at one place only if no bucket has duplicates |
| `RoutingTables.KBucketTable.PingOver` | src/dht/kbucket.cpp:120-168 | answers and timeouts of pings keep the table invariant, lose at most the silent entry and one bad entry of that bucket, and create a duplicate exactly under the condition named |
| `RoutingTables.KBucketTable.OnTimeout` | src/dht/kbuckettable.cpp:109-116 | only the first bucket that knows the address counts a failure, no node is lost, and no duplicate arises |
| `RpcServers.AllIdsInUse` | src/dht/rpcserver.cpp:149-170 | all one-byte ids are in use exactly when there are 256 calls, so the searches end |
| `RpcServers.ActiveCallsAreDistinct` | src/dht/rpcserver.cpp:129-170 | no call is active under two ids |
| `RpcServers.Sending` | src/dht/rpcserver.cpp:129-170 | sending the oldest waiting call under a free id overwrites and loses nothing |
| `RpcServers.Removing` | src/dht/rpcserver.cpp:90-98 | removing a call ends that call and no other |
| `RpcServers.RPCServer.DoCall` | src/dht/rpcserver.cpp:149-170 | sends at once under the first free id from the counter on if there is one, and queues last otherwise |
| `RpcServers.RPCServer.FindId` | src/dht/rpcserver.cpp:151-163 | finds the first free id from the counter on, if and only if there is one |
| `RpcServers.RPCServer.DoQueuedCalls` | src/dht/rpcserver.cpp:129-147 | sends waiting calls in order until none waits or all ids are in use, and leaves the counter behind the last id given |
| `RpcServers.RPCServer.DataReceived` | src/dht/rpcserver.cpp:69-103 | an answer ends exactly its call, calls made meanwhile by listeners are kept, and the invariant holds again |
| `RpcServers.RPCServer.TimedOut` | src/dht/rpcserver.cpp:180-190 | a timeout ends the call that holds the id of the timed-out call, which is that call if and only if it was not over yet; all others stay, and waiting calls go out |
| `RpcServers.HolderIs` | src/dht/rpcserver.cpp:149-170 | the id of a call that was sent belongs to it until it is over, and never afterwards |
| `RpcServers.LateTimeout` | src/dht/rpcserver.cpp:269-272 | a run in which the late timeout of an answered call ends another call |
| `LookupTasks.NodeLookup.Finishes` | src/dht/nodelookup.cpp:81-109 | at most 216 requests, none to the same id twice; finished once 200 are over, or all |
| `LookupTasks.WalkOn` | src/dht/nodelookup.cpp:87-99 | taking the closest node off the list and asking it, unless it was asked before, keeps every statement of `Walked`: order, addresses, nobody skipped and nobody asked who was not listed |
| `LookupTasks.NodeLookup.Ask` | src/dht/nodelookup.cpp:87-99 | requests go out, the closest first, until none is left to ask or 16 are out; somebody is asked if and only if there is room and somebody new |
| `LookupTasks.NodeLookup.Update` | src/dht/nodelookup.cpp:81-109 | afterwards between 1 and 16 requests are out or the task is finished; nodes leave the list only by being asked |
| `LookupTasks.NodeLookup.StartWith` | src/dht/task.cpp:27-37 | all given nodes are listed or asked, and a task that starts does not stall |
| `LookupTasks.NodeLookup.Start` | src/dht/task.cpp:39-45 | starting keeps the invariant, also for a task that was killed while it waited: that one stays finished and sends at most 16 requests, and some if and only if its list is not empty |
| `LookupTasks.NodeLookup.HandleNodes` | src/dht/nodelookup.cpp:31-47 | adds exactly those of the named nodes that are neither ours nor asked before |
| `LookupTasks.NodeLookup.OnCallOver` | src/dht/task.cpp:47-75 | an answer or timeout ends one request, all named nodes and no others get listed or asked, and the task goes on or finishes |
| `LookupTasks.KilledTaskSends` | src/dht/taskmanager.cpp:36-50 | a run in which a finished task sends a request |
| `LookupTasks.AnnounceTask.Finishes` | src/dht/announcetask.cpp:99-142 | at most 216 get_peers and 66 announces, none repeated; finished once 250 are over, or all |
| `LookupTasks.AnnounceTask.Announce` | src/dht/announcetask.cpp:105-115 | announces to answering nodes until none is left or 16 requests are out |
| `LookupTasks.AnnounceTask.GetPeers` | src/dht/announcetask.cpp:117-132 | asks listed nodes until none is left or 16 requests are out; somebody is asked if and only if there is room and somebody new |
| `LookupTasks.AnnounceTask.Update` | src/dht/announcetask.cpp:99-142 | afterwards between 1 and 16 requests are out or the task is finished, and no node is forgotten |
| `LookupTasks.AnnounceTask.Start` | src/dht/task.cpp:39-45 | as for a lookup; nothing is announced then |
| `LookupTasks.AnnounceTask.HandleNodes` | src/dht/announcetask.cpp:30-46 | adds those of the named nodes that were not asked, and no others, up to 100 listed ones |
| `LookupTasks.AnnounceTask.CallFinished` | src/dht/announcetask.cpp:48-92 | an answer lists its sender for an announce and the nodes that it names, and nobody else |
| `LookupTasks.AnnounceTask.OnCallOver` | src/dht/announcetask.cpp:48-92 | a node that answered is announced to or waits for it; the nodes that it named are listed or asked if the list has room for them; nobody else is added, and the task goes on or finishes |
| `TorrentLayouts.SpansMeans` | src/torrent/torrentfile.cpp:28-43 | a non-empty file spans exactly the chunks that it shares bytes with |
| `TorrentLayouts.FileOffsetMeans` | src/torrent/torrentfile.cpp:161-175 | the offset is where in the file the chunk starts |
| `TorrentLayouts.ChunkIsCovered` | src/torrent/torrent.cpp:381-433 | the files of a chunk cover it in order without gap or overlap |
| `TorrentLayouts.PartIs` | src/diskio/multifilecache.cpp:480-500 | offset and size computed for each file of a chunk are the place where the chunk continues |
| `TorrentLayouts.Torrent.FindStart` | src/torrent/torrent.cpp:388-416 | the search never skips a file with bytes of the chunk |
| `TorrentLayouts.Torrent.Scan` | src/torrent/torrent.cpp:418-428 | collects the files of the chunk in order |
| `TorrentLayouts.Torrent.CalcChunkPos` | src/torrent/torrent.cpp:381-433 | whatever was asked before, the files that hold bytes of the chunk, in order |
| `MultiFileCaches.SegmentIsIntersection` | src/diskio/multifilecache.cpp:421-441 | the segment is the intersection of the piece and the part of the chunk in the file |
| `MultiFileCaches.SlotsAreDistinct` | src/diskio/dndfile.cpp:31-36 | different bytes of chunks that pieces can be created for have different places, in complete files and in the two areas of DND files |
| `MultiFileCaches.AreasOfDndFile` | src/diskio/dndfile.cpp:31-36 | after the header of a DND file come the part of its first chunk and the part of its last chunk, each from its beginning |
| `MultiFileCaches.SharedPlaces` | src/diskio/dndfile.cpp:83-142 | in a DND file two bytes share a place if and only if they have the same offset in two chunks that both start in the file |
| `MultiFileCaches.PlaceIs` | src/diskio/multifilecache.cpp:480-530 | the offset that the loops compute is the place of the byte |
| `MultiFileCaches.AtNextFile` | src/diskio/multifilecache.cpp:476-530 | each turn of the loops moves to where the next file continues the chunk |
| `MultiFileCaches.WriteHolds` | src/diskio/dndfile.cpp:115-142 | writing a segment changes these bytes of the torrent and no others |
| `MultiFileCaches.MultiFileCache.WriteFile` | src/diskio/multifilecache.cpp:592-602 | one segment is written to the file or the right area of the side file |
| `MultiFileCaches.MultiFileCache.SavePiece` | src/diskio/multifilecache.cpp:535-608 | saving a piece is writing it to the flat torrent at its offset |
| `MultiFileCaches.MultiFileCache.CreatePiece` | src/diskio/multifilecache.cpp:375-409 | there is a buffer for a piece exactly if its chunk touches several files or its only file is on disk |
| `MultiFileCaches.MultiFileCache.PutPiece` | src/diskio/multifilecache.cpp:411-419 | preparing and saving a piece writes it to the flat torrent, or changes nothing when there can be no buffer |
| `MultiFileCaches.MultiFileCache.ReadPart` | src/diskio/multifilecache.cpp:512-526 | one segment is read from the file or the right area of the side file |
| `MultiFileCaches.MultiFileCache.LoadPiece` | src/diskio/multifilecache.cpp:443-533 | no piece when there can be no buffer; otherwise every byte of it that was ever saved |
| `MultiFileCaches.MultiFileCache.LoadFromOneFile` | src/diskio/multifilecache.cpp:462-470 | the same for a chunk in one file |
| `WebSeeds.AddedCut` | src/download/webseed.cpp:462-472 | adding or merging a range extends what is asked for by exactly its bytes |
| `WebSeeds.KeepsMore` | src/download/webseed.cpp:390-436 | bytes of one more chunk are kept at their own place if it is not complete, and ignored otherwise |
| `WebSeeds.ServedIsTheTorrent` | src/download/webseed.cpp:438-476 | the contents of the ranges queued for a stretch of chunks are that stretch of the torrent |
| `WebSeeds.WebSeed.DownloadsTheTorrent` | src/download/webseed.cpp:390-476 | if the server answers the ranges, only bytes of the torrent are written, each at its place and none to chunks complete from the start; after the last chunk every chunk that nobody else completed is written and reported |
| `WebSeeds.WebSeed.FillRangeList` | src/download/webseed.cpp:438-476 | the ranges queued for chunks so far are their torrent bytes in order, without gap or overlap |
| `WebSeeds.WebSeed.FillRanges` | src/download/webseed.cpp:188-193 | all ranges together are exactly the bytes of the first to the last chunk |
| `WebSeeds.WebSeed.HandleData` | src/download/webseed.cpp:390-436 | however the response is cut, the bytes written are exactly those whose chunks are not complete at the time, each at its chunk and offset, and exactly these chunks are reported when they end; bytes past the last chunk are dropped |
| `WebSeeds.WebSeed.ChunkFinished` | src/download/webseed.cpp:400-410 | another source may complete a chunk between any two parts of the response |
| `WebSeeds.WebSeed.Advance` | src/download/webseed.cpp:393-435 | one turn takes as much as the current chunk misses and reports it once complete |
| `ChunkDownloads.CountAll` | src/download/chunkdownload.cpp:113-118 | the count reaches the number of pieces exactly when all have arrived |
| `ChunkDownloads.ChunkDownload.LengthIs` | src/download/chunkdownload.cpp:59-77 | a piece reaches up to the next multiple of 16384, or to the end of the chunk |
| `ChunkDownloads.DuplicatesOnlyAtTheEnd` | src/download/chunkdownload.cpp:213-250 | a piece in flight is requested again only if every missing piece is in flight |
| `ChunkDownloads.OthersCountsEach` | src/download/chunkdownload.cpp:229-236 | every other source that is asked for a piece counts once |
| `ChunkDownloads.RequestUsesOne` | src/download/chunkdownload.cpp:269-291 | every request uses up one of finitely many, so the loop over sources ends |
| `ChunkDownloads.ChunkDownload.HashSeesTheChunk` | src/download/chunkdownload.cpp:516-537 | in any order of arrival the hash has seen a beginning of the chunk, and all of it when all pieces have arrived |
| `ChunkDownloads.ChunkDownload.UpdateHash` | src/download/chunkdownload.cpp:516-537 | feeds the hash the longest unbroken run of pieces, each once and in order |
| `ChunkDownloads.ChunkDownload.BestPiece` | src/download/chunkdownload.cpp:213-250 | the first of the missing pieces with the fewest other requesters, and none only if there is nothing to ask for |
| `ChunkDownloads.ChunkDownload.SendRequest` | src/download/chunkdownload.cpp:269-291 | requests the best piece from this source and nothing else, and logs what the source had been asked for |
| `ChunkDownloads.ChunkDownload.OneRound` | src/download/chunkdownload.cpp:257-266 | a source leaves the list only when it is choked, full or asked for everything |
| `ChunkDownloads.ChunkDownload.SendRequests` | src/download/chunkdownload.cpp:252-267 | ends, even if every source always accepts more; every request goes to a source that is not choked and accepts it, and afterwards every source is choked, full or asked for everything |
| `ChunkDownloads.ChunkDownload.EndgameCancel` | src/download/chunkdownload.cpp:316-329 | takes the piece, and nothing else, off the list of every source |
| `ChunkDownloads.ChunkDownload.Piece` | src/download/chunkdownload.cpp:84-122 | a piece is used exactly if it is wanted, has the right size and can be stored; returns true exactly when that completes the chunk, which then has been hashed in order; otherwise the sources stay, keep their other requests, and are asked for more exactly as far as they accept; says from arguments and state before exactly when a request goes stale |
| `ChunkDownloads.StaleRequest` | src/download/chunkdownload.cpp:84-122 | a state and a piece after which a request is stale |
| `ChunkDownloads.StaleRequestRun` | src/download/chunkdownload.cpp:84-149 | a run that ends like that, for every chunk of several pieces |
| `ChunkDownloads.ChunkDownload.Assign` | src/download/chunkdownload.cpp:136-149 | adds a new source once, keeps sources and requests in agreement, and asks until all are satisfied |
| `ChunkDownloads.ChunkDownload.Release` | src/download/chunkdownload.cpp:151-163 | forgets exactly this source and its requests |
| `ChunkDownloads.ChunkDownload.NotDownloaded` | src/download/chunkdownload.cpp:165-193 | a rejecting or silent source is given up, and the others are asked for as much as they accept |
| `Bandwidth.SlotIn32Bits` | src/net/socketgroup.cpp:47 | the slot fits 32 bits except for one socket with the largest allowance |
| `Bandwidth.SlotIsAShare` | src/net/socketgroup.cpp:47 | a slot is the share of one socket, rounded up past it |
| `Bandwidth.SlotBoundsExactly` | src/net/socketgroup.cpp:47-90 | with the 32-bit slot, what successive turns move is certain to stay within the allowance if and only if it is not one socket with the largest allowance |
| `Bandwidth.EmptyTurns` | src/net/socketgroup.cpp:52-90 | in that case any number of turns may move nothing and leave the allowance as it is |
| `Bandwidth.SocketGroup.CalcAllowance` | src/net/socketgroup.cpp:105-120 | starts the accounts of a round |
| `Bandwidth.SocketGroup.ProcessUnlimited` | src/net/socketgroup.cpp:29-43 | every socket moves all it can |
| `Bandwidth.SocketGroup.ProcessLimited` | src/net/socketgroup.cpp:45-93 | ends; moves exactly the drop in allowance; a socket is dropped only when it can do no more, allowance remains only if all were dropped, and if no socket is listed twice, any two that remain have moved amounts at most one slot apart |
| `Bandwidth.SlotsApart` | src/net/socketgroup.cpp:52-90 | one turn of the round robin, or a socket taken off the list, keeps the sockets within one slot of each other |
| `Bandwidth.SocketGroup.Process` | src/net/socketgroup.cpp:122-174 | takes the same bytes off both allowances, never exceeds either, and gives up only when the group or its sockets can do no more |
| `Bandwidth.NetworkThread.GroupsStayWithinTheirLimits` | src/net/networkthread.cpp:113-175 | in every round a group with a limit moves at most its computed allowance, assured and ordinary steps together |
| `Bandwidth.NetworkThread.DoGroupsLimited` | src/net/networkthread.cpp:76-111 | moves exactly the drop in allowance, makes progress if anyone stays ready, and otherwise all are done or the allowance is gone |
| `Bandwidth.NetworkThread.GroupTurn` | src/net/networkthread.cpp:83-106 | one group, given any share between 1 and what is left, moves exactly the drop in allowance; it stays ready only if it moved something and otherwise is done |
| `Bandwidth.CoveredRun` | src/net/networkthread.cpp:145-160 | if every group with an assured amount still finds some allowance, the assured steps move exactly what they take off it |
| `Bandwidth.CoveredExactly` | src/net/networkthread.cpp:145-160 | the assured steps are certain to stay within the global allowance if and only if that is so |
| `Bandwidth.EnoughIsLeft` | src/net/networkthread.cpp:145-160 | if the allowance suffices for what a group and those before it can take, that group finds as much as it can take |
| `Bandwidth.SecondGroupIsNotCovered` | src/net/networkthread.cpp:150-156 | an example in which it is not so |
| `Bandwidth.NetworkThread.AssuredStep` | src/net/networkthread.cpp:146-158 | what one group moves and leaves in its assured step: the assured amount or what is left, unless it can do no more |
| `Bandwidth.NetworkThread.AssuredSteps` | src/net/networkthread.cpp:141-160 | the assured steps are a run in the sense of `Run`, and what is left of the allowance is what that run leaves; every group for which the allowance suffices gets its assured amount or can do no more |
| `Bandwidth.NetworkThread.DoGroups` | src/net/networkthread.cpp:140-175 | ends; stays within every group's limit, and within the global allowance if that covers the assured amounts; every group moves at least its assured amount, or all that it can, if the allowance suffices for it and those before it; less than the global allowance is moved only if no ready socket can move more |
| `Bandwidth.NetworkThread.DoGroupsUnlimited` | src/net/networkthread.cpp:115-139 | without a global limit every ready socket moves all it can within its group's limit |
| `Bencoding.Decode` | src/bcodec/bdecoder.cpp:26-43 | the cursor strictly advances over each node, whose stored bytes are the slice that it was read from |
| `Bencoding.DecodeSame` | src/bcodec/bdecoder.cpp:26-43 | the bytes of a node decode to the same node wherever they stand |
| `Bencoding.NodesAreLocal` | src/bcodec/bdecoder.cpp:65-220 | the stored bytes of every node of an accepted input, at any depth, decode alone to that node |
| `BencodeCodec.IntegerRoundTrip` | src/bcodec/bencoder.cpp:111-129 | an integer is read back if and only if it is below 2^63 |
| `BencodeCodec.NegativeIntegers` | src/bcodec/bdecoder.cpp:129-166 | a minus sign negates; -n is read if and only if n is at most 2^63, as an Int node if it is at most 2^31 |
| `BencodeCodec.DecimalIsCanonical` | src/bcodec/bencoder.cpp:111-141 | numbers are written without leading zeros |
| `BencodeCodec.TextRoundTrip` | src/bcodec/bencoder.cpp:131-141 | a byte string is read back |
| `BencodeCodec.RoundTrip` | src/bcodec/bdecoder.cpp:26-43 | the encoding of a tree decodes to that tree |
| `BencodeCodec.RoundTripAnywhere` | src/bcodec/bdecoder.cpp:65-220 | so it does between any other bytes, and the cursor stops right after it |
| `BencodeCodec.DecodedIsHoldable` | src/bcodec/bdecoder.cpp:129-220 | no node that the decoder returns holds an integer outside 64 bits or a string of 2^31 bytes |
| `BencodeCodec.RoundTripExactly` | src/bcodec/bdecoder.cpp:26-43 | between any other bytes a tree is read back if and only if all its integers are below 2^63 and all its strings shorter than 2^31 |
| `BencodeGrammar.ToNumberIs` | src/bcodec/bdecoder.cpp:145-158 | the text of an integer is accepted if and only if it is digits, perhaps after a sign and between blanks, and then has their value |
| `BencodeGrammar.LenOfIs` | src/bcodec/bdecoder.cpp:182-195 | the length loop accepts exactly digits and computes their number modulo 2^32, as a signed one |
| `BencodeGrammar.DecodedIsGrammar` | src/bcodec/bdecoder.cpp:26-220 | the bytes of every node decoded are written as `Grammar` says |
| `BencodeGrammar.GrammarIsDecoded` | src/bcodec/bdecoder.cpp:26-220 | bytes written like that decode to that node |
| `BencodeGrammar.DecodesExactly` | src/bcodec/bdecoder.cpp:26-220 | the decoder returns a node and a cursor if and only if the bytes from the cursor on begin with that node, written as `Grammar` says; everything else is an error |
| `BencodeCodec.BEncoder.WriteInt` | src/bcodec/bencoder.cpp:111-129 | appends the encoding of the integer |
| `BencodeCodec.BEncoder.WriteBytes` | src/bcodec/bencoder.cpp:131-141 | appends the encoding of the byte string |
| `BencodeCodec.BEncoder.WriteTree` | src/bcodec/bencoder.cpp:74-150 | the calls for a tree append its encoding |
| `BencodeCodec.BDecoder.Decode` | src/bcodec/bdecoder.cpp:26-43 | the recursive methods compute the decoding, error cases included, and leave the cursor behind it |
| `BencodeCodec.BDecoder.ParseDict` | src/bcodec/bdecoder.cpp:65-101 | entries up to the closing mark, with string keys |
| `BencodeCodec.BDecoder.ParseList` | src/bcodec/bdecoder.cpp:103-127 | items up to the closing mark |
| `BencodeCodec.BDecoder.ParseInt` | src/bcodec/bdecoder.cpp:129-166 | an integer of 32 or 64 bits, or an error |
| `BencodeCodec.BDecoder.ParseString` | src/bcodec/bdecoder.cpp:168-220 | a byte string of the announced length, or an error |

## Left out

- Sockets, polling, threads, mutexes, timers and signals are events that may happen in any order between
  calls. A socket takes any prefix of what it is offered.
- Connections.Connection.Guarantee: the hooks of sender and receiver are the identity; `EndToEndThroughHooks`
  lifts that for the byte stream, for hooks that work position by position as a stream cipher does.
- PacketReading.PacketReader.ReadPacket: the 32-bit wrap of `read + size`, which needs a single read of almost 4 GB.
- Packets.CreateIsWellFormed: stands for all `create` functions; the bodies of port, have, bitfield and
  extension messages are arbitrary bytes, and packets are smaller than 4 GB.
- PacketSockets.PacketSocket.NumPendingPieceUploadBytes: the counter is kept modulo 2^32, so it is the true count while
  less than 4 GB is queued. `dataBytesUploaded`, which resets the other counter, is not modelled.
- The routing table: loading and saving (`loadTable` accepts unchecked buckets), refreshing, and the removal of a
  bucket while its pings are out. As in the source, candidates and pings of a bucket are dropped when it is
  split.
- RoutingTables.KBucket.PingQuestionable: `doCall` always returns a call, as RPCServer::doCall does.
- Transaction ids: message parsing and sending. Calls made by listeners are modelled as a number of calls made
  before the answered call is removed.
- Lookup tasks: each call tells its task once that it is over, by an answer or a timeout.
- Announcing: the database of peers, tokens, and bootstrap nodes, which are entered as in
  NodeLookup.AddDHTNode.
- TorrentLayouts.Torrent.CalcChunkPos: the case of no files; a layout has at least one byte.
- Storage: memory-mapped pieces, the cache of loaded pieces, opening, moving, preallocating and
  converting files. Bytes never written may read as anything.
- MultiFileCaches.MultiFileCache.SavePiece: a piece is saved only if it was created, and no file changes
  between complete and DND in between.
- Webseeds: connections, redirects, resets, disabling, retrying, `continueCurChunk`, failures to get a
  piece to write to, and torrents with one file, which are asked for in one range. A chunk that is complete
  stays so.
- Chunk downloads: saving and loading, choosing sources, cancels sent to sources, and statistics. What was
  given to the hash is a list of pieces; SHA-1 itself is not modelled, and stored pieces can be read back.
- ChunkDownloads.ChunkDownload.Piece: an offset that is not a multiple of 16384 is taken for the piece that it lies in, as
  the source does.
- Bandwidth.SocketGroup.ProcessLimited: numbers are not cut to 32 bits; `SlotIn32Bits` and `SlotBoundsExactly` name the
  one case in which that makes a difference. The list of sockets is filled anew for every round with each ready
  socket once, so that none is listed twice.
- Bandwidth.NetworkThread.DoGroups: rates and rounding are arbitrary numbers; adding and removing groups and the
  direction of a transfer are left out.
- Decoding: verbose logging. Number parsing follows the documentation of QString::toInt and toLongLong.
  Lengths wrap in 32 bits as in the source; the cursor does not, so inputs are smaller than 2^32 bytes.
- Encoding: floats and booleans, which are written as strings and integers.
- MSE handshake, RC4, SHA-1, big integers, HTTP, SOCKS, name resolution, magnet links, trackers, jobs and
  user interfaces.
