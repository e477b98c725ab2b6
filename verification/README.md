# Stacki: models of its stateful cores, and proofs about them

Stacki installs clusters.  This project models, in Dafny, the parts of it whose
behaviour is hardest to see from the code, and proves what they do on every input
and over every run.  `dafny verify dfyconfig.toml` checks all of it.

- **The Avalanche tracker** (`TrackerTypes`, `RequestOrder`, `RunningOut`,
  `RequestTable`, `TrackerRun`, `TrackerLimits`, `PeerSelection`, `PeerTurns`,
  `PeerLaws`, `DoubleListing`, `Tracker`, `LookupLaws`, `WireRecords`, `TrackerClient`).
  A server keeps the hashes of requested files in a growable ring buffer, each with a
  list of peers.  `RequestTable.HashTable` is that buffer, updated
  in place; every operation is proved against a plain list, newest request first
  (`RequestOrder`).  `TrackerRun` is the state machine of the four messages over that
  list, and `Tracker.Server.Serve` ties the code's main loop to it, message by
  message.  `PeerLaws` says what each message does to the peers of a file, and
  `LookupLaws` which peers a reply offers and in what order.  `WireRecords` is the reply
  in bytes and `TrackerClient` the client that takes it; `TrackerClient.Predict` goes
  from the server's table to the client's answer.
- **The kickstart order** (`Reachability`, `DepthFirst`, `OrderGraph`,
  `OrderIterator.dfy` with module `KickstartOrder`).  Three depth-first searches over
  a mutable graph of nodes and reversible edges produce the order in which the
  fragments of a kickstart profile are put together.
- **The profile semaphore** (`ProfileSemaphore`).  A counter in a file under a file
  lock bounds how many profiles are generated at once; processes interleave at every
  step and may die at any of them.
- **The raster algorithms of the patched gd library** (`Flooding`, `FloodFill`,
  `FloodLaws`, `Clipping`, `Lines`, `LineLaws`, `ClipLaws`, `PolygonRows`,
  `PolygonEdges`, `FilledPolygon`, `Resampling`).
  Pixels are an array that the methods write; what they draw is stated as a map from
  points to colours.
- **Smaller cores**: the pipe buffer `PipeBuffer`, the address allocator
  `IpAllocator`, the character encoding of password hashes `PasswordCodec`.
- `Arithmetic` and `Sequences` hold what several of these need.

## Where the code does not do what one would expect

- A full table whose head is at the last slot: `newentry` tests for the full table
  before it wraps head, and head runs onto tail.  Giving back the last entries while
  head is 0 does the same.  `TrackerRun.Corner` is exactly the set of states and
  messages in which this happens (`TrackerRun.StuckOnlyInCorner`,
  `RunningOut.UnregisterLeavesNothingIff`); both kinds are met in runs from the empty
  table (`TrackerLimits.FreshPeerDone`, `TrackerLimits.FullCornerReachable`).  `Tracker.Server.Serve` stops there, while the
  code goes on.
- A lookup looks for the requestor among the first three peers only and otherwise
  adds it, so a host can be listed twice, and PEER_DONE then leaves one listing
  (`TrackerLimits.LookupListings`, `TrackerLimits.PeerDoneForgetsIff`).
  `DoubleListing.TwiceListed` is a run of four messages in which that happens.
- UNREGISTER with several peers goes on at the same slot after the entry there has run
  out of peers and the table has been compacted; it then removes peers from the next
  older file, exactly when the peers before the last one named are all that the entry
  has (`TrackerLimits.UnregisterIsLocalIff`, `TrackerLimits.EarlyHurts`).
- `timestamp_compare` is not transitive when coop groups that are known and unknown
  are mixed (`PeerSelection.TransitiveIff` gives the exact condition).
- The comment in `prep_peers` says that the requestor is not copied in.  It is not,
  but no peer after it is either: the loop does not step past it.  All other peers
  looked at are offered if and only if none of them comes after the requestor
  (`TrackerLimits.OffersAllOthersIff`; `TrackerLimits.OffersNone` is a list of which
  nobody is offered).
- A process that dies between emptying and filling the semaphore's file makes the
  counter start anew, and more profiles than processors are generated
  (`ProfileSemaphore.CrashKeepsInvIff`, `ProfileSemaphore.LostCounter`).  Each such death
  lets in at most one more for each processor (`ProfileSemaphore.AfterLoss`,
  `ProfileSemaphore.BoundedByLosses`).
- Filling up to a border misses parts of the region behind points that have the new
  colour already (`FloodLaws.BorderFillMisses`).  `FloodLaws.BorderedIsRegionIff` and
  `FloodLaws.AlwaysRegionIff` say when the whole region is filled, from one point and
  from all, `FloodLaws.MissedIsBehind` which points are missed, and
  `FloodLaws.SamePictureIff` when that cannot be seen.
- Clipping a line leaves out fractions, so that its part in the picture may be drawn
  otherwise than the whole line would have been (`ClipLaws.ClippingMoves`).  Of the lines
  that end right of and below the picture's corner, exactly the level, upright and
  diagonal ones are drawn as their part in every picture (`ClipLaws.ClippingKeepsIff`);
  `ClipLaws.ClippedIsClose` says how far off the others can be.
- A fill from the right of the picture goes to and fro between the first two rows for
  ever, painting nothing, exactly when the last column has no point of colour 0 in the
  rows it comes to (`FloodLaws.FirstCall`, `FloodLaws.ToAndFroIff`).
- A polygon that is cut off below can have an odd number of crossings on its last row
  (`PolygonRows.CrossingsAreEvenIff`, `PolygonRows.OddWhenCutOff`).
- The check for the top of the address range compares with a negative number and never
  holds, so counting upwards gives out the broadcast address
  (`IpAllocator.OnlyBottomIsRefused`, `IpAllocator.UpwardsMeetsBroadcast`);
  `IpAllocator.GivesBroadcastIff` says exactly when.
- `encode64` loses four bits when two bytes are left over
  (`PasswordCodec.InjectiveIff`).

## Model

| member | source | states |
|---|---|---|
| RequestTable.HashTable.constructor | src/stack/tracker/server.c:30-48 | a new table has the given number of zeroed slots, head 0 and tail at the last slot, and holds no request |
| RequestTable.HashTable.Compact | src/stack/tracker/server.c:144-247 | from any head and tail, also where the window wraps, the entries in use end up next to head in their order, all slots behind them zeroed, everything outside the window untouched; it terminates |
| RequestTable.HashTable.ReclaimFreeEntries | src/stack/tracker/server.c:249-326 | with the m entries in use next to head, tail moves right behind the oldest of them and head stays; head and tail meet if and only if no entry is in use and head is 0 |
| RequestTable.HashTable.GrowHashTable | src/stack/tracker/server.c:331-405 | moving the block above tail keeps the window entry by entry, and all other slots are zeroed |
| RequestTable.HashTable.NewEntry | src/stack/tracker/server.c:407-428 | a zeroed slot becomes the newest entry in front of the old ones, the table growing when full; the outcome is that of the list model, corner state included |
| RequestTable.HashTable.AddRequest | src/stack/tracker/server.c:792-824 | a new hash becomes the newest request with its peers; the invariant holds again unless head has met tail |
| RequestTable.HashTable.GetPeers | src/stack/tracker/server.c:477-558 | finds a hash exactly when it is listed, in the slot it is listed in |
| RequestTable.HashTable.GetNextPeers | src/stack/tracker/server.c:560-609 | gives the request made right after the one at a slot, and nothing after the newest |
| RequestTable.HashTable.DropPeerFrom | src/stack/tracker/server.c:949-995 | removes exactly the first listing of an address, and frees the entry when it was the only peer |
| RequestTable.HashTable.RemovePeer | src/stack/tracker/server.c:949-1005 | the list afterwards is the list with that one peer dropped, freed entries closed up and their slots given back when asked for |
| RequestTable.HashTable.UnregisterHash | src/stack/tracker/server.c:1007-1038 | an unknown hash changes nothing; otherwise the peers are removed one after the other at the same place of the list, which is closed up in between |
| RequestTable.HashTable.UnregisterAll | src/stack/tracker/server.c:1040-1080 | one listing of the sender is dropped from every entry, and entries left without peers disappear |
| RequestTable.HashTable.Verify | src/stack/tracker/server.c:103-139 | reports no error exactly when every slot between tail and head is in use |
| RequestTable.HashTable.ValidIsInv | src/stack/tracker/server.c:103-139 | a table as the code intends it satisfies the invariant of the list model: distinct hashes, live entries, room for one more |
| RequestTable.WindowGrow | src/stack/tracker/server.c:360-399 | the block move of a growing table leaves every entry at its age |
| RequestTable.WindowAdvance | src/stack/tracker/server.c:413-427 | moving head up, with wrap-around, puts the slot it leaves in front of the window |
| RequestOrder.LiveKeepsWellFormed | src/stack/tracker/server.c:103-139 | closing up the freed entries of a well-formed list leaves a well-formed list |
| TrackerRun.StepKeepsInv | src/stack/tracker/server.c:1132-1161 | every message other than in a corner state keeps the invariant |
| RunningOut.UnregisterLeavesNothingIff | src/stack/tracker/server.c:1007-1038 | an UNREGISTER leaves no request at all if and only if it names the newest file and its peers fall into parts, one after another, that take all peers of the files away, newest first |
| TrackerRun.StuckOnlyInCorner | src/stack/tracker/server.c:306-310 | a message makes head meet tail if and only if the table is full and head at the last slot for a new file, or head is 0 and the peers named are all that is listed |
| TrackerRun.RunKeepsInv | src/stack/tracker/server.c:1114-1181 | the invariant holds in every state of every run |
| TrackerRun.StepKeepsNewer | src/stack/tracker/server.c:1132-1161 | no message changes which of two hashes was requested first |
| TrackerRun.RunKeepsNewer | src/stack/tracker/server.c:1114-1181 | over any run, two hashes that stay listed keep their order |
| TrackerRun.OfferedWasAnnounced | src/stack/tracker/server.c:1114-1181 | a peer listed for a hash after a run from the empty table was announced for that hash by a message of the run |
| TrackerRun.RegisterMentions | src/stack/tracker/server.c:870-944 | after a REGISTER an entry lists exactly the old peers and the named ones |
| TrackerRun.LookupMentions | src/stack/tracker/server.c:629-652 | after a lookup an entry lists exactly the old peers and the requestor |
| PeerLaws.RegisterIs | src/stack/tracker/server.c:870-944 | after a REGISTER everyone listed is in the old place, and ready if it is the first listing of a named address; the other named ones are appended, once each, ready, in the order in which they are first named |
| PeerLaws.NamedAreReady | src/stack/tracker/server.c:896-926 | the listing of a named address that is found first is ready |
| PeerLaws.StepRegisters | src/stack/tracker/server.c:848-946 | after a REGISTER message its file is listed, everyone named, or else the sender, is ready there, a new file lists nobody else, and of a known one the other peers are as they were |
| PeerLaws.RequestorIsMarked | src/stack/tracker/server.c:625-652 | a requestor seen among the first three peers is downloading there and listed no more often; otherwise it is appended as downloading; all other peers stay as they were |
| PeerLaws.OfferedIff | src/stack/tracker/server.c:625-652 | the peer at a place is offered if and only if the place is one of the first three and the requestor is neither there nor before |
| PeerLaws.DropIsUndone | src/stack/tracker/server.c:949-995 | put back in front of any other listing of its address, the dropped peer gives the entry as it was |
| PeerLaws.UnregisterIs | src/stack/tracker/server.c:1007-1038 | an UNREGISTER that does not run out of peers early takes each address away as often as it is named, keeps the states and the other entries, and removes the entry when nobody is left |
| PeerLaws.StepUnregisters | src/stack/tracker/server.c:1007-1038 | an UNREGISTER message does that to the file it names, and leaves head and size of the table; of a file that is not listed it changes nothing |
| PeerLaws.StepForgets | src/stack/tracker/server.c:1040-1080 | after a PEER_DONE exactly those files are listed that have a peer besides one listing of the sender, with all peers but that one |
| PeerLaws.StepLooksUp | src/stack/tracker/server.c:685-846 | after a LOOKUP its file lists the requestor, a new file as the newest and with nobody else; no other file comes, goes, moves or has other peers |
| TrackerLimits.FreshPeerDone | src/stack/tracker/server.c:306-310 | PEER_DONE on a fresh server makes head meet tail |
| TrackerLimits.FullCornerReachable | src/stack/tracker/server.c:416-425 | a run from the initial table leads to a full one whose head has to wrap |
| TrackerLimits.PeerDoneForgetsIff | src/stack/tracker/server.c:1040-1080 | PEER_DONE leaves no listing of its sender if and only if no entry listed it twice |
| TrackerLimits.LookupListings | src/stack/tracker/server.c:629-652 | a lookup lists the requestor once more exactly when it is not among the first peers looked at |
| DoubleListing.ReadyComeFirst | src/stack/tracker/shuffle.c:506-550 | where the coop groups do not decide, a shuffle puts ready peers before the others |
| DoubleListing.TwiceListed | src/stack/tracker/server.c:625-844 | a host asks for a file, three others that have it are registered, it asks again: however the peers are shuffled it is now listed twice, and its PEER_DONE leaves one listing |
| TrackerLimits.OffersAllOthersIff | src/stack/tracker/server.c:625-652 | all peers looked at but the requestor are offered if and only if none of them comes after it |
| TrackerLimits.OffersNone | src/stack/tracker/server.c:629-641 | of a list of two that the requestor is first of, nobody is offered |
| TrackerLimits.EmptiesEarlyStep | src/stack/tracker/server.c:1007-1038 | the peers before the last one named are all that an entry has exactly when removing them one by one frees the entry before the last |
| TrackerLimits.UnregisterIsLocalIff | src/stack/tracker/server.c:1007-1038 | an UNREGISTER leaves all other files alone, whatever else is listed, if and only if the peers named before the last one are not all that the entry has |
| TrackerLimits.EarlyHurts | src/stack/tracker/server.c:1007-1038 | when it does run out early there is a list in which another file loses its peer |
| PeerSelection.CompareIsLexicographic | src/stack/tracker/shuffle.c:506-550 | with known coop groups the comparison orders by own group, then readiness, then oldest assignment |
| PeerSelection.CompareDecides | src/stack/tracker/shuffle.c:506-550 | the groups decide only if all three are known and one of the two peers alone is of the requestor's; otherwise the ready one goes first, and of two in the same state the one assigned longer ago |
| PeerSelection.TransitiveIff | src/stack/tracker/shuffle.c:506-550 | the comparison is transitive over some groups if and only if these do not mix known and unknown ones in the way that breaks it |
| PeerSelection.Sort | src/stack/tracker/shuffle.c:601-607 | sorting permutes the keys, and orders them whenever the comparison can |
| PeerSelection.DtTable.LookupTimestamp | src/stack/tracker/shuffle.c:429-476 | gives the last assignment and coop group of a host, adding it when it is new, and changes no other host |
| PeerSelection.DtTable.UpdateTimestamp | src/stack/tracker/shuffle.c:478-502 | stamps exactly the given host |
| PeerSelection.DtTable.ClearEntry | src/stack/tracker/shuffle.c:395-427 | forgets time and group of the given host and leaves all other rows as they are, in their places |
| PeerSelection.DtTable.Shuffle | src/stack/tracker/shuffle.c:552-640 | permutes the peers, puts first one that is minimal in the comparison, and stamps that one and no other |
| PeerTurns.OldestFirst | src/stack/tracker/shuffle.c:506-640 | of peers of equal standing one assigned no later than any other comes first |
| PeerTurns.EveryPeerTakesItsTurn | src/stack/tracker/shuffle.c:552-640 | n shuffles of n peers of equal standing, with a rising clock and nothing else stamped, put every peer first exactly once |
| Tracker.Server.FillRecord | src/stack/tracker/server.c:625-652 | of the first three peers those before the requestor are offered, and a requestor that is seen is marked as downloading |
| Tracker.Server.PrepPeers | src/stack/tracker/server.c:611-652 | an entry's peers are shuffled by the table of last assignments, the clock and the requestor's group, which stamps the one that comes first; the record offers from their front, and no other entry changes |
| Tracker.Server.DoLookup | src/stack/tracker/server.c:685-846 | the reply is the asked hash and up to ten later requests in the order they were made; the peers of each were shuffled one request after the other, by the rows that the one before had left, and are offered from the front; its length field is 16 plus the lengths of the records; an unknown hash is added, answered with no peers, and stamps nobody |
| LookupLaws.RecordIsBestFirst | src/stack/tracker/shuffle.c:506-640 | where the coop groups are known, the peers of each record come own group first, then ready, then least recently assigned, and nobody left out of it is better than anyone in it |
| LookupLaws.RecordIsFull | src/stack/tracker/server.c:625-652 | a file that does not list the requestor is answered with all of its peers, or with three |
| LookupLaws.FirstIsStamped | src/stack/tracker/shuffle.c:609-640 | the first peer of a record is stamped with the time of the lookup and no other host is, unless the file has only one peer; then nobody is |
| LookupLaws.ElevenRecords | src/stack/tracker/server.c:742-846 | a reply has one record more than there are later requests, and eleven if there are ten or more, in the order of the requests |
| LookupLaws.ThreePeers | src/stack/tracker/server.c:625-652 | of four peers the first three are offered |
| Tracker.Server.RegisterHash | src/stack/tracker/server.c:848-946 | a REGISTER has exactly its effect on the list, which `PeerLaws.StepRegisters` spells out |
| Tracker.Server.UnregisterHash | src/stack/tracker/server.c:1007-1038 | an UNREGISTER has exactly its effect on the list |
| Tracker.Server.UnregisterAll | src/stack/tracker/server.c:1040-1080 | a PEER_DONE has exactly its effect on the list, and in the table of last assignments the sender's row alone is cleared |
| Tracker.Server.Handle | src/stack/tracker/server.c:1132-1161 | every message refines its step of the state machine, a lookup shuffles and stamps as it should and gives its reply, and no other message stamps anyone or replies; the table is valid afterwards unless state and message were a corner |
| Tracker.Server.Serve | src/stack/tracker/server.c:1114-1181 | the main loop follows a run of the state machine and of the table of last assignments, with the replies of its lookups; the verification of the table after each message never reports an error, and it stops early only in a corner |
| WireRecords.RecordsAreDetermined | src/stack/tracker/tracker.h:57-62 | bytes hold at most one list of a given number of records |
| WireRecords.BytesOfValue | src/stack/tracker/tracker.h:57-62 | n bytes are the n lowest bytes of the number that they hold, so that a field has one content for each number |
| WireRecords.ReplyOfOne | src/stack/tracker/tracker.h:23-82 | the bytes of one reply, written out: header, hash, number of peers, address and state |
| WireRecords.ReplyIsSmall | src/stack/tracker/server.c:611-786 | a reply has at most 11 records of at most 3 peers, none of them the requestor |
| WireRecords.PutRecord | src/stack/tracker/server.c:622-652 | writes one record where it belongs and nothing else |
| WireRecords.PutReply | src/stack/tracker/server.c:700-846 | the packet has the lookup operation, its own length, the request's number, the number of records, and then these records; it fits the buffer |
| TrackerClient.Receive | src/stack/tracker/client.c:66-134 | of any packets, those with another number are passed over and the first other one decides: no lookup message, too many records or a length below the header make the client give up, and else it gets the bytes behind the header |
| TrackerClient.ReplyIsSound | src/stack/tracker/client.c:79-128 | a reply as the server writes it is taken, and the bytes the client gets are its records |
| TrackerClient.Client.SavePredictionInfo | src/stack/tracker/tracker-client.c:779-856 | exactly the records after the first are saved, byte for byte; a reply of one record leaves what was saved before |
| TrackerClient.Client.GetPrediction | src/stack/tracker/tracker-client.c:858-903 | a hash is found if and only if a saved record has it, the first such record is returned, and no byte behind the saved ones is read |
| TrackerClient.Remember | src/stack/tracker/tracker-client.c:779-903 | from the server's records to the client's answer, behind replies to other lookups: a file is predicted exactly when it is among the records after the first, or, after a reply of one record, among those saved before |
| TrackerClient.Predict | src/stack/tracker/server.c:685-846 | from the server's table to the client's answer: any client predicts a file exactly when it is among the up to ten that were requested right after the one it asked for, or, when there are none, among those it had saved before |
| Reachability.NewEdgeKeepsAcyclic | src/stack/pylib/stack/profile.py:1215-1217 | an edge to a node that does not lead back makes no cycle |
| Reachability.OutKeepsAcyclic | src/stack/pylib/stack/profile.py:1215-1217 | edges from HEAD to nodes that do not lead to HEAD make no cycle, and no further node leads to HEAD |
| Reachability.IntoKeepsAcyclic | src/stack/pylib/stack/profile.py:1233-1235 | edges to TAIL from nodes that TAIL does not lead to make no cycle |
| Reachability.OnlyAcyclicIsOrdered | src/stack/pylib/stack/profile.py:1238-1242 | a graph with a topological order has no cycle |
| Reachability.SourceAbove | src/stack/pylib/stack/graph.py:294-298 | in a finite graph without cycles every node is reached from one that no edge enters |
| DepthFirst.LeaveRoot | src/stack/pylib/stack/graph.py:300-307 | leaving a node after its children keeps the order of finishing: whatever a finished node leads to is finished before it, or leads back |
| DepthFirst.SeenIsReached | src/stack/pylib/stack/graph.py:300-307 | when a search is over, everything its visited nodes lead to is visited |
| DepthFirst.ReverseFinishLists | src/stack/pylib/stack/profile.py:1238-1252 | falling finishing times list every node that a source leads to once, and every edge between them leads forward unless it is on a cycle |
| KickstartOrder.ListedIsOrdered | src/stack/pylib/stack/profile.py:1238-1252 | without cycles such a list is a topological order of all nodes |
| OrderGraph.Graph.Reverse | src/stack/pylib/stack/graph.py:233-242 | turns every edge around and swaps the degrees of every node, keeping nodes and edges; in the new lists each edge is once, under the node it now leaves |
| OrderGraph.Graph.AddEdge | src/stack/pylib/stack/graph.py:244-253 | adds the edge to the list of the node it leaves, and its nodes where they are new |
| OrderGraph.Graph.Connect | src/stack/pylib/stack/graph.py:186-192 | a new edge adds one pair and one to the two degrees; degrees go on counting edges |
| OrderGraph.Graph.ZeroDegree | src/stack/pylib/stack/graph.py:165-169 | a degree is zero exactly when no edge enters, or leaves, the node |
| OrderGraph.Graph.ReverseShown | src/stack/pylib/stack/graph.py:233-242 | reversing a graph gives the graph of the flipped edges, with the same nodes and edge objects, each edge turned around and the degrees of each node swapped, so reversing twice gives it back |
| Reachability.FlipTwice | src/stack/pylib/stack/profile.py:1210-1213 | flipping all edges twice gives them back |
| KickstartOrder.OrderIterator.Visit | src/stack/pylib/stack/graph.py:300-307 | a search from a node leaves all it newly comes to, the node itself last, and keeps the finishing order |
| KickstartOrder.OrderIterator.Search | src/stack/pylib/stack/graph.py:286-298 | from a root exactly the nodes it leads to are visited; without one exactly those that some node of in-degree zero leads to |
| KickstartOrder.OrderIterator.MarkToHead | src/stack/pylib/stack/profile.py:1206-1213 | the first pass marks exactly the nodes that lead to HEAD, and gives the graph back as it was: its nodes, edge objects, their directions and all degrees |
| KickstartOrder.OrderIterator.MarkFrom | src/stack/pylib/stack/profile.py:1226-1231 | the second pass marks exactly the nodes that TAIL leads to |
| KickstartOrder.OrderIterator.ConnectHead | src/stack/pylib/stack/profile.py:1215-1217 | HEAD gets an edge to exactly the nodes that no edge enters and that do not lead to HEAD |
| KickstartOrder.OrderIterator.ConnectTail | src/stack/pylib/stack/profile.py:1233-1235 | TAIL gets an edge from exactly the nodes that no edge leaves and that TAIL does not lead to |
| KickstartOrder.OrderIterator.Run | src/stack/pylib/stack/profile.py:1197-1254 | the result is a topological order of the completed graph, every node once, if and only if the given graph has no cycle; in any case it lists exactly the nodes that a source leads to, each once, and leads forward along every edge that is on no cycle |
| KickstartOrder.CompletedIsAcyclic | src/stack/pylib/stack/profile.py:1215-1235 | the edges added to HEAD and TAIL make no cycle |
| KickstartOrder.OrderedIffAcyclic | src/stack/pylib/stack/profile.py:1238-1254 | ordered is the same as without cycles |
| KickstartOrder.HeadComesFirst | src/stack/pylib/stack/profile.py:1199-1204 | HEAD is first in the order when nothing led to it |
| KickstartOrder.TailComesLast | src/stack/pylib/stack/profile.py:1220-1224 | TAIL is last in the order when it led nowhere |
| ProfileSemaphore.StepKeepsInv | src/stack/kickstart/profile.py:222-305 | every step of every process keeps: the lock has one owner, what the owner has read is true, and free places and taken ones are n together |
| ProfileSemaphore.CrashKeepsInvIff | src/stack/pylib/stack/lock.py:66-73 | a death keeps this if and only if it does not come while the file is empty, or it is that of the last process to come back and n is the number of processors |
| ProfileSemaphore.CrashKeepsBoundIff | src/stack/pylib/stack/lock.py:66-73 | whatever has been lost before, a death keeps the number of places if and only if it does not come while the file is empty, or the number about to be written is that of the processors; else there is a place for each processor besides those taken |
| ProfileSemaphore.AfterLoss | src/stack/kickstart/profile.py:222-240 | after such a death, and until the next, never more generate, or have died generating, than the places taken at the time and the processors together |
| ProfileSemaphore.BoundedByLosses | src/stack/kickstart/profile.py:222-240 | in any interleaving with any deaths, at most the places at the start and the processors once for each such death |
| ProfileSemaphore.RunKeepsInv | src/stack/kickstart/profile.py:222-305 | it holds in every state of every interleaving in which nobody dies while the file is empty |
| ProfileSemaphore.AlwaysBounded | src/stack/kickstart/profile.py:218-220 | never more processes generate, or have died generating, than there were places at the start |
| ProfileSemaphore.RefusedOnlyWhenFull | src/stack/kickstart/profile.py:232-240 | a process is refused only when all places are taken or lost |
| ProfileSemaphore.ComesBack | src/stack/kickstart/profile.py:301-305 | a process that gives its place back always finds the counter |
| ProfileSemaphore.AllGivenBack | src/stack/kickstart/profile.py:301-305 | when nobody has a place any more the counter is back at its start |
| ProfileSemaphore.Admission | src/stack/kickstart/profile.py:222-246 | with a place left and nobody else moving, a process takes the counter down by one in five steps and generates; after the third the file is empty |
| ProfileSemaphore.Refusal | src/stack/kickstart/profile.py:222-246 | with no place left it gives up after four, and the counter is as it was |
| ProfileSemaphore.GivingBack | src/stack/kickstart/profile.py:301-305 | a process that has generated puts the counter up by one in five steps and is gone |
| ProfileSemaphore.ThereAndBack | src/stack/kickstart/profile.py:222-305 | a process that comes and goes undisturbed leaves the counter as it found it |
| ProfileSemaphore.LostCounter | src/stack/pylib/stack/lock.py:66-73 | a death while the file is empty lets three processes generate on two processors |
| FloodFill.Image.GetPixel | src/foundation/gd/patch-files/gd-2.0.33/gd.c:910-927 | the pixel, or 0 outside the picture |
| FloodFill.Image.SetPixel | src/foundation/gd/patch-files/gd-2.0.33/gd.c:740-759 | changes exactly the pixel inside the picture, and nothing outside |
| FloodFill.FillInside | src/foundation/gd/patch-files/gd-2.0.33/gd.c:1661-1790 | from a start in the picture terminates, recolours exactly the patch of one colour that the start is in, along rows and columns, and leaves all other pixels |
| FloodFill.Fill | src/foundation/gd/patch-files/gd-2.0.33/gd.c:1661-1790 | from a start in, above, below or left of the picture terminates; from above or below it recolours exactly the patches of colour 0 that reach the first, or the last, row |
| FloodFill.BorderInside | src/foundation/gd/patch-files/gd-2.0.33/gd.c:1578-1659 | from a start in the picture terminates and recolours exactly the points reached from it along rows inside the border, and from row to row through points that do not have the new colour; a start on the border changes nothing |
| FloodFill.FillToBorder | src/foundation/gd/patch-files/gd-2.0.33/gd.c:1578-1659 | from a start in, above, below or left of the picture, and with the colour 0 from anywhere, terminates; from outside it recolours exactly what is reached so from the first, or the last, row, or from the end of its row; a negative border or a border 0 seen outside changes nothing |
| Flooding.PouredAll | src/foundation/gd/patch-files/gd-2.0.33/gd.c:1638-1658 | when a row has been looked through and nothing painted leads on, what is painted is what all its points cover |
| Flooding.FloodOn | src/foundation/gd/patch-files/gd-2.0.33/gd.c:1615-1636 | a recursive flood beside a run, of what is left, goes on with the outer one |
| Flooding.SpreadIsAll | src/foundation/gd/patch-files/gd-2.0.33/gd.c:1603-1659 | when the run of the start ends on both sides and is passed above and below, all is covered |
| FloodLaws.AnyPointFillsThePatch | src/foundation/gd/patch-files/gd-2.0.33/gd.c:1661-1790 | filling from any point of a patch fills the same patch |
| FloodLaws.FillBackIff | src/foundation/gd/patch-files/gd-2.0.33/gd.c:1661-1790 | filling back with the old colour restores the picture if and only if the patch touched no point of the new colour |
| FloodLaws.BorderedInRegion | src/foundation/gd/patch-files/gd-2.0.33/gd.c:1578-1659 | a border fill never leaves the region inside the border |
| FloodLaws.BorderedIsRegionIff | src/foundation/gd/patch-files/gd-2.0.33/gd.c:1578-1659 | it fills the whole region if and only if it comes to every point of the new colour above or below what it fills |
| FloodLaws.AlwaysRegionIff | src/foundation/gd/patch-files/gd-2.0.33/gd.c:1578-1659 | it does so from every start if and only if each point of the new colour is come to from the points above and below it |
| FloodLaws.BorderedIsRegion | src/foundation/gd/patch-files/gd-2.0.33/gd.c:1578-1659 | it fills the whole region when the new colour does not occur in it |
| FloodLaws.MissedIsBehind | src/foundation/gd/patch-files/gd-2.0.33/gd.c:1615-1659 | the points of the region that are missed are exactly those joined, past what is filled, to a point above or below it where the fill stops |
| FloodLaws.SamePictureIff | src/foundation/gd/patch-files/gd-2.0.33/gd.c:1578-1659 | the picture is the one with the whole region filled if and only if all points behind those have the new colour already |
| FloodLaws.FirstCall | src/foundation/gd/patch-files/gd-2.0.33/gd.c:1747-1768 | a fill from the right paints nothing if and only if its row does not end with the colour 0, and then begins one right of the next row |
| FloodLaws.ToAndFroIff | src/foundation/gd/patch-files/gd-2.0.33/gd.c:1747-1788 | so begun, the fills go on for ever without painting if and only if neither the first two rows nor those up to the start end with the colour 0 |
| FloodLaws.BorderFillMisses | src/foundation/gd/patch-files/gd-2.0.33/gd.c:1623-1634 | of three points above each other the lowest is missed behind one of the new colour |
| Clipping.InsideStays | src/foundation/gd/patch-files/gd-2.0.33/gd.c:638-691 | a line inside the picture is not changed by the clipping |
| Clipping.ClippedIsInside | src/foundation/gd/patch-files/gd-2.0.33/gd.c:638-691 | what the clipping leaves of a line has both ends in the picture |
| Clipping.TouchingIsNotMissed | src/foundation/gd/patch-files/gd-2.0.33/gd.c:638-691 | a line through a point of the picture is never thrown away |
| Clipping.LevelIsClamped | src/foundation/gd/patch-files/gd-2.0.33/gd.c:638-691 | of a level line, given from either end, the clipping leaves exactly the part between the edges, and nothing when it is outside |
| Lines.DecisionStep | src/foundation/gd/patch-files/gd-2.0.33/gd.c:1033-1048 | the additions of the loop keep its decision variable equal to the error of the rounded line, and turn aside exactly when the rounded line does |
| Lines.Line | src/foundation/gd/patch-files/gd-2.0.33/gd.c:952-1148 | draws exactly the points of the rounded line between the clipped ends, wherever the given ends are, and nothing for a line that is missed |
| LineLaws.LineIsSymmetric | src/foundation/gd/patch-files/gd-2.0.33/gd.c:1011-1031 | the same points are drawn from either end |
| LineLaws.WideLineIsNear | src/foundation/gd/patch-files/gd-2.0.33/gd.c:982-1069 | a line wider than high is never more than half a pixel off, and has every point between its ends that is less than half a pixel off |
| LineLaws.HighLineIsNear | src/foundation/gd/patch-files/gd-2.0.33/gd.c:1070-1146 | so it is for a line higher than wide |
| LineLaws.OneInEachColumn | src/foundation/gd/patch-files/gd-2.0.33/gd.c:1031-1068 | one point in each column between the ends, next to the one before |
| LineLaws.OneInEachRow | src/foundation/gd/patch-files/gd-2.0.33/gd.c:1108-1146 | of a line higher than wide, one point in each row between the ends, next to the one before |
| ClipLaws.StraightIsKept | src/foundation/gd/patch-files/gd-2.0.33/gd.c:952-1148 | of a level, upright or diagonal line, wherever it begins and ends, exactly the points in the picture are drawn |
| ClipLaws.LevelIsDrawn | src/foundation/gd/patch-files/gd-2.0.33/gd.c:952-1069 | of a level line these are all points of its row from one end to the other |
| ClipLaws.ClippingKeepsIff | src/foundation/gd/patch-files/gd-2.0.33/gd.c:638-691 | a line whose ends have no negative coordinates is drawn as its part in every picture if and only if it is level, upright or diagonal |
| ClipLaws.ClippedIsClose | src/foundation/gd/patch-files/gd-2.0.33/gd.c:638-691 | along its shorter axis every drawn point is off the line by less than one and a half pixels and the slope of the line |
| ClipLaws.ClippedIsFarOff | src/foundation/gd/patch-files/gd-2.0.33/gd.c:638-691 | a point that is more than two pixels off |
| ClipLaws.ClippingMoves | src/foundation/gd/patch-files/gd-2.0.33/gd.c:638-691 | a line that comes in over the edge and is drawn one row off |
| LineLaws.LineHasEnds | src/foundation/gd/patch-files/gd-2.0.33/gd.c:1026-1033 | both ends are drawn |
| PolygonRows.CrossingsAreEvenIff | src/foundation/gd/patch-files/gd-2.0.33/gd.c:2641-2687 | a row has an even number of crossings if and only if it is not the last row, or evenly many edges end on it |
| PolygonRows.CrossingsAreEven | src/foundation/gd/patch-files/gd-2.0.33/gd.c:2641-2687 | every row of a polygon that is not cut off below has an even number |
| PolygonRows.OddWhenCutOff | src/foundation/gd/patch-files/gd-2.0.33/gd.c:2682-2686 | a triangle that is cut off below has three |
| PolygonRows.CrossingsAreInside | src/foundation/gd/patch-files/gd-2.0.33/gd.c:2677-2686 | crossings lie between the ends of their edges, so inside the picture |
| PolygonRows.BetweenIsInside | src/foundation/gd/patch-files/gd-2.0.33/gd.c:2703-2713 | between the pairs of sorted crossings lie exactly the points of the even-odd rule |
| FilledPolygon.Collect | src/foundation/gd/patch-files/gd-2.0.33/gd.c:2641-2687 | the buffer holds the crossings of the row in the order of the edges, no more than there are corners; `PolygonEdges.CrossingsByEdges` says where they are |
| PolygonEdges.ColumnIsNearest | src/foundation/gd/patch-files/gd-2.0.33/gd.c:2677-2686 | in whole numbers: an edge crosses a row in the nearest column, the right one of two, and left of the picture in the next one to the right |
| PolygonEdges.ColumnIsNear | src/foundation/gd/patch-files/gd-2.0.33/gd.c:2677-2686 | with ends in the picture a crossing is at most half a pixel off its edge, and meets both ends exactly |
| PolygonEdges.CrossingsByEdges | src/foundation/gd/patch-files/gd-2.0.33/gd.c:2641-2687 | as many crossings are left of a point as edges meet its row left of it, and one is at the point exactly when an edge meets the row there |
| PolygonEdges.InsideIsByEdges | src/foundation/gd/patch-files/gd-2.0.33/gd.c:2641-2713 | the even-odd rule for the crossings is the one for the edges |
| FilledPolygon.SortRow | src/foundation/gd/patch-files/gd-2.0.33/gd.c:2694-2702 | the insertion sort leaves a sorted permutation of the crossings |
| FilledPolygon.DrawRow | src/foundation/gd/patch-files/gd-2.0.33/gd.c:2703-2713 | draws exactly the points between the pairs that are in the picture, wherever the crossings are |
| FilledPolygon.PairedIsEven | src/foundation/gd/patch-files/gd-2.0.33/gd.c:2641-2687 | every row has an even number of crossings when the polygon is not cut off below, or evenly many edges end on the last row of the picture |
| FilledPolygon.Fill | src/foundation/gd/patch-files/gd-2.0.33/gd.c:2571-2720 | a polygon, with corners anywhere, has exactly its points in the picture by the even-odd rule filled; these are the points on an edge, to the nearest column, or with an odd number of edges on their left |
| Resampling.Stretch | src/foundation/gd/patch-files/gd-2.0.33/gd.c:2076-2083 | the stretch vectors are the differences of the rounded cuts, and never negative |
| Resampling.StretchIsWhole | src/foundation/gd/patch-files/gd-2.0.33/gd.c:2076-2083 | a stretch vector adds up to the new width |
| Resampling.CutsIffSource | src/foundation/gd/patch-files/gd-2.0.33/gd.c:2076-2083 | a new column falls into the share of exactly one source column, which has a closed form |
| Resampling.SameWidthKeeps | src/foundation/gd/patch-files/gd-2.0.33/gd.c:2076-2083 | at the same width every column is copied to its own place |
| Resampling.SourceGrows | src/foundation/gd/patch-files/gd-2.0.33/gd.c:2076-2083 | source columns are taken from left to right and none from outside |
| Resampling.SourceUnderEdge | src/foundation/gd/patch-files/gd-2.0.33/gd.c:2076-2083 | the source column is the one on which the right edge of the new column falls |
| Resampling.CopyResized | src/foundation/gd/patch-files/gd-2.0.33/gd.c:2052-2193 | every point of the new rectangle gets the colour of its one source point unless that is transparent, and all other points stay |
| Resampling.NewPointIs | src/foundation/gd/patch-files/gd-2.0.33/gd.c:2076-2187 | without the stretch vectors: a new point has the colour of the source point under its right and lower edges, unless that is transparent |
| PipeBuffer.List.Add | src/stack/piece-pipe/draino.c:324-363 | a packet becomes the last of the list |
| PipeBuffer.List.Pop | src/stack/piece-pipe/draino.c:365-381 | the first packet is taken, and an emptied list has neither head nor tail |
| PipeBuffer.Pipe.Turn | src/stack/piece-pipe/draino.c:262-295 | a turn accepts a packet if there is one and room for it, takes the first of the list up if none is in hand, and writes exactly as many bytes of the one in hand as the receiver takes; the rest, and the packets behind, stay |
| PipeBuffer.Pipe.Drain | src/stack/piece-pipe/draino.c:235-321 | at every moment output and pending bytes are the accepted packets in order, and a finished pipe has written all of them; once the input has ended and each turn takes a byte, it finishes after as many turns as the packet in hand has bytes left, and one |
| IpAllocator.GetNextIP | src/stack/sql/insert-ethers.py:534-570 | gives the highest free host address of the subnet, never its network or broadcast address, and fails if and only if all host addresses are taken |
| IpAllocator.OnlyBottomIsRefused | src/stack/pylib/stack/ip.py:263-273 | counting is refused only on the network address |
| IpAllocator.GivesBroadcastIff | src/stack/pylib/stack/ip.py:263-273 | counting gives a broadcast address out if and only if it comes to the top of a subnet of more than one address |
| IpAllocator.UpwardsMeetsBroadcast | src/stack/pylib/stack/ip.py:263-273 | counting up from the last host gives out the broadcast address |
| PasswordCodec.Encode64 | src/stack/pylib/stack/password.py:56-97 | the output has four digits for each group of three bytes, which are their bits from the lowest on, and two, the twelve lowest bits, for what is left over |
| PasswordCodec.SpellingIsUnique | src/stack/pylib/stack/password.py:56-97 | bytes have one such spelling |
| PasswordCodec.EncodedSpells | src/stack/pylib/stack/password.py:56-97 | the digits taken one after another, by shifting, are that spelling |
| PasswordCodec.RoundTrip | src/stack/pylib/stack/password.py:56-97 | unless two bytes are left over, the bytes can be read back by a reader that refuses all other lengths and values |
| PasswordCodec.ReadIsWritten | src/stack/pylib/stack/password.py:56-97 | what it reads is what was written |
| PasswordCodec.InjectiveIff | src/stack/pylib/stack/password.py:82-88 | different bytes of one length give different characters if and only if the length is not two more than a multiple of three |

## Left out

- Tracker widths: the number of peers of an entry is not limited to 16 bits, nor the size of the table to 32.
- Peer lists are values in the entries, so sharing of their storage, `malloc` and `realloc` failures and `random_shuffle` are not modelled; the overlapping `memcpy` of a growing table is taken as a move.
- Messages carry one hash; the fixed stride over several variable-length records of REGISTER and UNREGISTER is not modelled.
- The assignment table grows without bound; its second block, which the code clears at the wrong place, is not modelled.
- The tracker's clock, its coop groups and the delivery of messages are parameters; sockets, logging and debugging output are left out, and so is the test in `dolookup` that two indices are the same, which cannot hold.
- Tracker.Server.Serve: stops in a corner state, where the code goes on with head equal to tail.
- RequestTable.HashTable.ReclaimFreeEntries: leaves out the last loop of the source, at lines 313 to 320, whose condition cannot hold.
- TrackerClient.Receive: takes the packets as they stand in the client's buffer; that none comes in time is the end of the list, and a failing `malloc` of a sound length is left out.
- TrackerClient.Client.SavePredictionInfo: takes the records as well formed, as the source does, and leaves out a failing allocation.
- The kickstart graph's dictionaries are keyed by the name of a node, which is unique in it, and lists of dictionary keys come in any order.
- KickstartOrder.OrderIterator.Run: the edges of the graph are given to it as a set of pairs of names, for its contract only; HEAD and TAIL are in the graph, as the caller makes sure; of the generator that goes with each node, which is that of the edge it was first come to by, the contract says nothing.
- KickstartOrder.OrderIterator.MarkToHead: clears the marks after reversing the graph instead of before, which the marks do not depend on.
- `FrameworkIterator` is left out: it is the search from a root with another record of the visited nodes.
- ProfileSemaphore.StepKeepsInv: all processes count the same number of processors, and a failing file operation counts as an unreadable file.
- The flood fills are those of plain colours with the whole picture as the clip rectangle.  Tiles, brushes, styles, alpha blending and antialiasing are left out.
- FloodFill.Fill: with a colour other than 0, starts right of the picture, from the row above it to the row below, are left out; `FloodLaws.ToAndFroIff` says when such a fill goes to and fro for ever, and where it ends depends on where the zeros of the last column begin.
- FloodFill.FillToBorder: the same starts are left out, with a border above 0 and a colour other than 0.
- Lines.Line: thickness 1, for which the stroke is one pixel wide; thicker strokes are left out, and the clipping computes with real numbers.
- FilledPolygon.Fill: needs a buffer that is large enough, as the source makes sure before; a polygon whose last row in the picture has an odd number of crossings, for which the source reads a number that it has not written, is left out; the rounding of crossings is that of real numbers.
- Resampling.CopyResized: true-colour pictures without alpha blending; the search for palette colours is left out.
- PipeBuffer.Pipe.Drain: looks at a finite number of turns, as waiting for input or for the receiver may last for ever; the last writes block until they are complete.
- IpAllocator.GetNextIP: counts down from the broadcast address with contiguous netmasks; other increments and base addresses are left out.
- PasswordCodec.Encode64: writes places in the alphabet instead of its characters, which differ; `crypt_private` around it is left out.
- Arcs, rotation, resampling with averages and other floating-point geometry of gd, the parsing of profiles, the generation of kickstart text, the shell tools, the wizards and the packaging are left out.
