# Party Line in Dafny

A Dafny model of the three cores of Party Line, a peer to peer chat with file packs, and proofs
about them. `dafny verify dfyconfig.toml` checks the whole project.

**Verified download.** A publisher cuts a file into blocks of 10240 bytes and links each block by
hash to the next block and to its two children in a binary tree. A downloader knows only the hash
of block 0 and takes blocks from anyone, as far as a block it already has vouches for them; what it
has is a bitmap. `Words` and `Coverage` model the bitmaps, `Chain` the construction of the chain,
`Download` verification and writing as steps on values, `Histories` what becomes of the blocks delivered, `Sender` the choice of the block to serve,
`Swarm` many peers serving each other, and `Packs` the objects that are updated in place, each
method proved to take its step.

**Peer table.** Peers stand in buckets by the highest bit in which their id differs from the node's
own; a cache record per peer gates every insertion. `Ids` models ids as bit strings with the XOR
metric, `PeerTable` the handlers as steps on table and cache, `Routing` lookups and greedy routing,
`WhiteBoxes` the object. The number of bits of an id is a parameter (256 in the program). The public
reference is Maymounkov and Mazieres, Kademlia (2002), sections 2.1 and 2.2.

**Party gossip.** The members of a party form a ring in sorted order and pass each chat on to
positions -1, +1 and +2. `Ring` models the ring, `Gossip` the flood of one chat as a global state,
`Parties` the object of one member, and `PartyFlood` a whole party of them with any number of chats,
whose deliveries are proved to be the steps of each chat's flood.

Hashes are uninterpreted functions of a block record whose digests are never empty. No injectivity
is assumed: results that depend on hashes hold, or two different blocks with the same hash are *at
hand*, one of them a block of the file and the other a block of the file or one delivered in the
run. `Preimages` looks at block hashes as the code makes them, as sums of the concatenated fields, where
two differently cut copies of one record collide without any collision of the sum, and says what a
single verification is worth then.

## What the code does that it does not mean to do

- `chooseBlock` indexes the requester's coverage without a bounds check. `Sender.Frontier` models
  it as written and panics exactly when `FrontierFaults`; `Sender.FrontierGuarded` skips the
  successors past the end and computes the same set whenever the loop as written does not panic.
  `Sender.Progress` and `Sender.CanFinish` are about that set. With the loop as written a downloader
  that lacks something can be sent all of it exactly if the file has at most 31 blocks, or 32 of which
  block 31 is still lacking (`Sender.WrittenDeliversExactly`); from 33 blocks on the sender panics at
  the latest when one block is left. No draw of `mrand` can make it stop short exactly if the file has
  at most 31 blocks, or 32 of which only block 31 is lacking (`Sender.WrittenDeliversSurely`). The
  finished request that it puts back is survived exactly on files of at most 31 blocks
  (`Sender.WrittenRunEnds`).
- A request with no words for a file of which the sender has block 0 crashes `RequestSender` where it
  marks the block sent in the request. `Packs.PackFileInfo.ServeRequest` says exactly which requests
  crash it (`Sender.CrashesOn`).
- A chain whose size is a multiple of the block size ends in an empty block that coverage does not
  count. Delivering it, with nothing but true blocks, stops a download from ever counting as full
  exactly when the size is not a multiple of 64 blocks (`Download.StuckExactly`,
  `Download.NeverComplete`) and ends the writer exactly when it is, the empty file included
  (`Download.PanicExactly`). Peers that send only through `chooseBlock` never send it
  (`Swarm.SwarmBound`).
- `processMessage` tests `!seen` where "seen" is meant, so nothing is ever relayed
  (`Routing.NothingIsRelayed`). The routing results are about `route` itself.
- `route`'s filter passes every peer that the lookup returns except the node itself, which can stand
  in its own table after a bootstrap from its own id (`Routing.RouteFilter`, `PeerTable.SelfIsListed`,
  `Routing.SelfIsNotRouted`).
- `processDisconnect` does not keep the time of the disconnect, so a message sent before it but
  after the peer was added revives the peer (`PeerTable.RevivalExactly`, with a run in `PeerTable.RevivalExample`).
- `StartPack` has no state guard. Integrity and completion are proved with any number of starts;
  the linkage of covered blocks is proved for one start anywhere in a run, and a second start keeps it
  exactly if nothing was covered yet (`Download.RestartUnlinks`, with a run in `Download.RestartRun`).
- `writeZeroFile` does not truncate: completion means that the first Size bytes are right
  (`Download.Whole`), and a complete file equals the source exactly if its path held no more than Size
  bytes at the start (`Download.CompleteIsEqual`, with runs in `Download.CompleteRun`). A peer whose
  copy goes on after the source does not serve a short last block true (`Sender.ServesTruth`).
- `removePeer` takes out every peer with a signing key, while the cache marks the one that disconnects.
  Table and cache stay in agreement exactly if no other live peer has that signing key
  (`PeerTable.StepKeepsGood`, `PeerTable.RunKeepsGood`, with a run in `PeerTable.SharedKeyExample`).
- `sha256Block` puts nothing between the fields it hashes. Without a collision of the sum an accepted
  block has the true index, and it has the true data exactly if it has as much data as Size leaves to
  its index (`Preimages.AcceptedData`), which nothing checks. `Preimages.TakesExactly` says which data
  can pass for a block, and `Preimages.DigestThenData` gives files of which a part passes for the whole.

## Model

| member | source | states |
|---|---|---|
| `Words.SetBit` | white-box/party.go:1307 | `w \| 1<<i` on a 64-bit word has exactly the bits of w and bit i |
| `Coverage.Mark` | white-box/party.go:1302-1307 | setting a block's bit adds exactly that block to the set the bitmap stands for |
| `Coverage.SameCoverage` | white-box/files.go:454-458 | two bitmaps of one length with the same blocks are equal word by word |
| `Coverage.EmptyCoverage` | white-box/files.go:434-441 | has no block and ceil(size / (64*10240)) words, for every size |
| `Coverage.FullCoverage` | white-box/files.go:463-481 | has block j iff j < ceil(size/10240), in a slice as long as emptyCoverage's |
| `Coverage.IsFullCoverage` | white-box/files.go:443-461 | panics iff the slice is nil or its length is wrong, and is true iff the blocks are exactly the real ones |
| `Coverage.IsEmptyCoverage` | white-box/files.go:424-432 | true iff no block is covered |
| `Blocks.TreeIndices` | white-box/files.go:300-323 | parent and children are inverse to each other below the wrap-around; the left-parent formula serves both children |
| `Blocks.BlockInfo.ToBlock` | white-box/files.go:146-165 | giving an info its data and taking the info again is the identity |
| `Chain.TargetFile.SeekFrom` | white-box/files.go:340-377 | a negative target fails and leaves the cursor, as the last seek of the backward pass does |
| `Chain.TargetFile.Write` | white-box/party.go:1338-1349 | replaces exactly the written range, growing the file with zeros |
| `Chain.LinkBlock` | white-box/files.go:361-367 | the block made from the bytes read, the previous block and the skip table is the true block: linked to i+1, 2i+1 and 2i+2, empty past the end |
| `Chain.ReadBackward` | white-box/files.go:347-378 | the backward pass with its relative seeks reads every chunk and leaves the maps of the whole chain |
| `Chain.CheckForward` | white-box/files.go:387-419 | succeeds iff every block with data that the links lead to hashes to its key when its data is read again; fails only if two blocks of the file collide |
| `Chain.CalculateChain` | white-box/files.go:325-422 | for every file: the hash of block 0 and the map of the true chain, built iff the chain reads back; an error only on negative size or collision |
| `Chain.InfosFromAt` | white-box/files.go:370-371 | absent a collision every block of the chain is in the maps under its hash, not overwritten |
| `Chain.InfosFromKeys` | white-box/files.go:370-371 | and nothing else is in the map |
| `Chain.BuildBlockLookup` | white-box/files.go:167-178 | when following the links from the first hash ends after n steps, index i < n maps to the hash i links on and nothing else is mapped |
| `Chain.ChainLinks` | white-box/files.go:172-176 | following n links in a built map leads to the hash of block n, in order |
| `Chain.ChainEnds` | white-box/files.go:167-178 | and ends after exactly Size/10240 + 1 steps, so buildBlockLookup terminates with exactly the true lookup |
| `Chain.ChunksMakeTheFile` | white-box/files.go:337-378 | the data of the chain's blocks concatenates to the file |
| `Download.FindFile` | white-box/files.go:107-115 | GetFileInfo is the first file with the hash, or none |
| `Download.TrueCheck` | white-box/party.go:1048-1088 | knowing only true things, both parents demand the true hash of any index, or nothing |
| `Download.TrueDemand` | white-box/party.go:1048-1088 | one known parent is enough to demand the true hash |
| `Download.AcceptedIsTrue` | white-box/party.go:1033-1090 | an accepted block is the publisher's block at its index, or collides with it |
| `Download.AcceptsExactly` | white-box/party.go:1033-1090 | in any state, true or not: accepted iff the data has its hash and the block is the first by its hash, or a known parent links to it and no known parent to another |
| `Download.DiskAfterStores` | white-box/party.go:1337-1356 | however a write fails, no stored block is disturbed; a full write stores its block |
| `Download.WriteExactly` | white-box/party.go:1302-1368 | a round of the writer covers, looks up and describes the block iff it had a place, all bytes were written and the file was closed |
| `Download.WriteOnDisk` | white-box/party.go:1337-1356 | it leaves on disk as many bytes of the block as were written, where they belong, and changes no other |
| `Download.StartedBytes` | white-box/party.go:1371-1422 | after a start the disk holds Size zeros and then what was there |
| `Download.WriteKeepsGood` | white-box/party.go:1302-1368 | a round of the writer keeps disk, coverage, map and lookup true and in step |
| `Download.StepKeepsGood` | white-box/party.go:745-924 | every start, fulfillment, write and completion check keeps a pack good |
| `Download.DownloadIntegrity` | white-box/party.go:1033-1101 | over every run from an advertised pack: covered blocks are on disk, looked up and described as in the publisher's copy, and a complete pack is whole, or a collision is at hand |
| `Histories.QueueIsTheRest` | white-box/party.go:1092-1101 | over every run the queue is the blocks admitted so far, in order, less those the writer has had a round for |
| `Histories.TakenInTurn` | white-box/party.go:1320-1322 | the q-th admitted block is the one that the q-th such round finds |
| `Histories.AdmittedGetCovered` | white-box/party.go:1320-1368 | with a writer that succeeds, every admitted block with a place in the bitmap is covered once it has had its round |
| `Download.FullIsWhole` | white-box/party.go:908-924 | full coverage means the first Size bytes equal the source: the blocks' ranges are disjoint and cover it |
| `Download.CompleteIsEqual` | white-box/party.go:1371-1422 | a complete file equals the source iff its path held no more than Size bytes at the start |
| `Download.CompleteRun` | white-box/party.go:908-924 | every file can be completed on its own blocks, whatever its path held, and then equals the source iff that was no longer |
| `Download.RunKeepsSized` | white-box/party.go:797-803 | once started, coverage has the length isFullCoverage needs, in every state |
| `Download.VerifierIsConsistent` | white-box/party.go:1048-1090 | the disagreement exit is never taken, indices past the end are rejected, accepted offsets fit 63 bits |
| `Download.WriterPanics` | white-box/party.go:1293-1307 | the writer leaves the bitmap exactly on the empty last block of a file of a multiple of 64 blocks |
| `Download.FullExactly` | white-box/files.go:443-461 | exact equality of bitmaps means all real blocks are covered and the empty one is not |
| `Download.StepKeepsLinked` | white-box/party.go:1044-1090 | whatever is delivered, lookup and coverage name the same blocks and each has a covered parent |
| `Download.RunIsLinked` | white-box/party.go:1044-1090 | the same over every run from an advertised pack with at most one start anywhere, with no assumption on hashes |
| `Download.RestartUnlinks` | white-box/party.go:797-803 | another start keeps the linkage iff nothing was covered |
| `Download.RestartRun` | white-box/party.go:797-803 | a run that starts a file of one block or more again, after its first block, leaves it unlinked |
| `Download.NeverComplete` | white-box/party.go:908-924 | once the empty block is covered, no run without a start reaches COMPLETE |
| `Download.StuckExactly` | white-box/files.go:443-481 | a run on the file's own blocks gets there iff the size is a multiple of 10240 and not of 64*10240 |
| `Download.PanicExactly` | white-box/party.go:1293-1307 | a run on the file's own blocks leads to the writer's panic iff the size is a multiple of 64*10240 |
| `Download.PathToZero` | white-box/party.go:1302-1317 | every covered block is joined to block 0 by covered predecessors and tree parents |
| `Download.FallbackIsThere` | white-box/party.go:1162-1184 | a partial downloader has the hash and the info of block 0 |
| `Sender.Frontier` | white-box/party.go:1105-1136 | as written: panics iff a covered block has its right child past the slice, else exactly the lacking blocks with a covered parent |
| `Sender.FrontierGuarded` | white-box/party.go:1105-1136 | with bounds checks: the same set, never a panic |
| `Sender.FrontierExactly` | white-box/party.go:1043-1136 | the frontier is exactly the lacking blocks after block 0 that the requester would accept true: chooseBlock and ProcessFulfillment agree |
| `Sender.Candidates` | white-box/party.go:1138-1160 | exactly the frontier blocks the sender covers, in ascending order; panics iff the request is longer than its coverage |
| `Sender.ServesTruth` | white-box/party.go:1173-1214 | a covered block is served true iff it is a whole buffer or the copy is no longer than the source |
| `Sender.ServedHashMatches` | white-box/party.go:1209-1212 | in any state, a block that is served is the bytes on disk at its offset, up to a buffer, under the info looked up for its index, and they have its data hash |
| `Sender.ServesTruthOrNothing` | white-box/party.go:1173-1214 | a good sender serves a covered block true, or nothing where its copy goes on after a short block, unless what it reads there collides with the data |
| `Sender.PublisherIsFull` | white-box/files.go:557-574 | a published file is good, complete and fully covered |
| `Sender.LowestMissing` | white-box/party.go:1106-1136 | the lowest lacking block of a request that has block 0 is on its frontier |
| `Sender.OneTurn` | white-box/party.go:1241-1290 | a full sender's choice is lacking, served, accepted and written, and nothing else changes in the set of lacking blocks |
| `Sender.DeliverIsSteps` | white-box/party.go:1014-1101 | delivering a block and draining the writer is a Fulfill and a Write of the pack |
| `Sender.Progress` | white-box/party.go:1241-1290 | along every run, bounds-checked or as written, from any coverage a downloader can have, the sends are distinct lacking blocks; after as many as were lacking the file is complete |
| `Sender.CanFinish` | white-box/party.go:1241-1290 | with the bounds-checked frontier such a run exists from every state |
| `Sender.WrittenDeliversExactly` | white-box/party.go:1105-1136 | with the loop as written a run that sends all that is lacking exists iff the file has at most 31 blocks, or 32 and block 31 is lacking |
| `Sender.WrittenDeliversSurely` | white-box/party.go:1162-1168 | no draw can make the loop as written panic before all that is lacking is sent iff the file has at most 31 blocks, or 32 and only block 31 is lacking |
| `Sender.WrittenIsInTurn` | white-box/party.go:1105-1136 | a run of the loop as written is one of the bounds-checked loop, to which Progress applies |
| `Sender.WrittenMustEnd` | white-box/party.go:1241-1290 | every such run starts from such a request: from 33 blocks on one missing block is enough for the panic |
| `Sender.WrittenRunEnds` | white-box/party.go:1269-1284 | after such a run the file is whole, and the finished request put back is survived iff the file has at most 31 blocks |
| `Sender.WrittenFaultsFrom32` | white-box/party.go:1117-1131 | the loop as written serves up to 31 blocks without a panic; on a finished request of 32 or more it panics |
| `Sender.WrittenFaultExample` | white-box/party.go:1131 | one word with block 31 covered makes it panic |
| `Swarm.ServedIsReal` | white-box/party.go:1151-1171 | whatever is asked, chooseBlock serves a block with data |
| `Swarm.RunKeepsBounded` | white-box/party.go:1151-1171 | such senders keep every coverage, queue and message below ceil(Size/10240), or a collision is at hand |
| `Swarm.PeerStepIsStep` | white-box/party.go:908-1101 | what a peer of the swarm does is a step of a pack of one file |
| `Swarm.SwarmBound` | white-box/party.go:1151-1171 | from full senders and just-started downloaders, in every state: no block past the data is covered, isFullCoverage means all real blocks, the writer does not panic, or a collision is at hand |
| `Swarm.StartMakesFresh` | white-box/party.go:793-803 | StartPack on an advertised pack makes such downloaders |
| `Swarm.BoundedIsFull` | white-box/files.go:443-461 | there isFullCoverage means all real blocks, and the writer never panics |
| `Packs.WriteZeroFile` | white-box/party.go:1371-1422 | writes Size zeros from the start, in pieces, and keeps what follows |
| `Packs.PackFileInfo.Published` | white-box/files.go:557-574 | calculateChain, buildBlockLookup and fullCoverage together make a full sender |
| `Packs.PackFileInfo.Verify` | white-box/party.go:1033-1099 | accepts exactly the blocks Download.Accepts does, under their hash |
| `Packs.PackFileInfo.SetBlockWritten` | white-box/party.go:1302-1317 | coverage, map and lookup after it, and nothing else changed |
| `Packs.PackFileInfo.WriteBlock` | white-box/party.go:1322-1366 | takes the step WriteVerified for every behaviour of the operating system |
| `Packs.PackFileInfo.ChooseBlock` | white-box/party.go:1105-1215 | faults exactly as written, else serves an allowed choice or nothing |
| `Packs.PackFileInfo.ServeRequest` | white-box/party.go:1269-1284 | sends the chosen block and requeues the request with that block marked; crashes iff CrashesOn: the frontier faults, the request is longer than the coverage, or it is empty and block 0 is served |
| `Sender.TrueInfosAtTheirIndex` | white-box/party.go:1173-1184 | the premise of that: a sender that knows only true things looks up every info at its own index |
| `Packs.Pack.GetFileInfo` | white-box/files.go:107-115 | finds the file FindFile names |
| `Packs.Pack.StartPack` | white-box/party.go:793-803 | takes the step Start on every file |
| `Packs.Pack.ProcessFulfillment` | white-box/party.go:1014-1101 | takes the step Fulfill |
| `Packs.Pack.WriteNext` | white-box/party.go:1320-1368 | takes the step Write |
| `Packs.Pack.SendRequests` | white-box/party.go:908-924 | takes the step Tick and asks for exactly the files that are not full, each once, in order |
| `Ids.LessAtIsLess` | white-box/kad.go:267-270 | the order of the numbers is the order at the highest differing bit |
| `Ids.LessIsLessAt` | white-box/kad.go:267-270 | and conversely |
| `Ids.DistInjective` | white-box/kad.go:200-201 | at one distance from a point there is one id |
| `Ids.BucketIsNearestIdeal` | white-box/kad.go:254-274 | the ideal id of the bucket given by the highest differing bit is strictly nearest, with a unique minimum |
| `Ids.OwnBucketIsCloser` | white-box/kad.go:276-288 | every id of the target's bucket is strictly closer to the target than every id of another bucket |
| `Ids.OwnBucketImproves` | white-box/senders.go:41-53 | another id of the target's bucket is closer than self, and the highest bit of the distance falls |
| `PeerTable.SomewhereIffLive` | white-box/kad.go:180-227 | a peer, by both its keys, stands in the table iff its cache is added and not disconnected |
| `PeerTable.AtMostOnce` | white-box/kad.go:180-227 | and at one place only |
| `PeerTable.AddKeepsGood` | white-box/kad.go:180-227 | insertion from the back keeps buckets sorted, each peer once, placed by id, and in agreement with the cache |
| `PeerTable.AddedEntry` | white-box/kad.go:180-227 | an addition writes one entry, seen now, behind all that are not farther, and the time of the message in one record |
| `PeerTable.LiveIsNotAdded` | white-box/kad.go:181-184 | addPeer does nothing to a live peer |
| `PeerTable.BootstrapAdds` | white-box/processors.go:124-201 | after either bootstrap message the live and listed peers are those before and the sender, iff it speaks for itself, was dialed, and was never added or its message is later |
| `PeerTable.AnnounceAdds` | white-box/processors.go:226-249 | after an announcement: and the announced peer, iff it is another one, was dialed, and the same |
| `PeerTable.SuggestionRequestAdds` | white-box/processors.go:250-291 | after a request for suggestions: and its sender, iff it asks this node, was dialed, and the same |
| `PeerTable.SuggestionsAdd` | white-box/processors.go:294-330 | after suggestions: and their sender, iff it was dialed, and the same |
| `PeerTable.DisconnectKeepsGood` | white-box/processors.go:362-381 | a disconnect keeps table, cache and EmptyList in agreement iff no other live peer has the signing key |
| `PeerTable.DisconnectOnRecords` | white-box/processors.go:362-381 | it marks the record of its sender, with message type -1 only, and no other |
| `PeerTable.ChatOnRecords` | white-box/kad.go:175-178 | a chat leaves a record of its sender behind and changes none |
| `PeerTable.PingKeepsGood` | white-box/kad.go:121-153 | so does the removal of stale peers, over all buckets |
| `PeerTable.PingKeepsRecent` | white-box/kad.go:121-139 | an entry stays through a ping iff it was seen within the last sixty seconds |
| `PeerTable.PingMarksOld` | white-box/kad.go:139-146 | exactly the peers of the older entries are marked disconnected, and no record changes otherwise |
| `PeerTable.PulsedSurvives` | white-box/kad.go:325-347 | a pulse makes its sender's entries seen now, so that they stay through every ping of the next sixty seconds |
| `PeerTable.PulseOfOtherType` | white-box/processors.go:424-427 | a pulse of another type changes nothing |
| `PeerTable.StepKeepsGood` | white-box/processors.go:124-435 | every message keeps table, cache and EmptyList in agreement, a disconnect iff it spares the other live peers |
| `PeerTable.RunKeepsGood` | white-box/white-box.go:71-104 | from a new node they agree in all states of a run iff every disconnect in it does |
| `PeerTable.OneKeyKeepsGood` | white-box/white-box.go:71-104 | with one encryption key per signing key in the messages they agree in every reachable state |
| `PeerTable.SharedKeyExample` | white-box/processors.go:362-381 | two peers of one signing key, one disconnects: the other is out of the table and live in the cache |
| `PeerTable.SameDistance` | white-box/kad.go:200-227 | entries of a bucket ascend, strictly unless they share a signing key |
| `PeerTable.StepOnCache` | white-box/processors.go:158-329 | what a step does to one cache record: add with a later time, make leave, or leave alone |
| `PeerTable.ReAdditionsAdvance` | white-box/processors.go:158-329 | along any run a second addition has a strictly later time and a disconnect or stale removal before it |
| `PeerTable.FirstAnnounceFloods` | white-box/processors.go:244-248 | a peer never announced is passed on, if it is another one that is live or dialed; one to be added that cannot be dialed changes nothing |
| `PeerTable.AnnouncedIffFlooded` | white-box/processors.go:244-248 | exactly what is passed on is remembered as announced |
| `PeerTable.FloodsAgainOnly` | white-box/processors.go:244-248 | along any run an announcement of that peer is passed on again only if it is disconnected and the announcement later than its record |
| `PeerTable.DisconnectFloodsOnce` | white-box/processors.go:375-381 | a disconnect of a live peer is passed on, and not a second time |
| `PeerTable.RevivalExactly` | white-box/processors.go:375-381 | a disconnected peer is revived iff the message is later than its addition, whenever the disconnect was sent |
| `PeerTable.RevivalExample` | white-box/processors.go:375-381 | added at 1, disconnected by a message of 3, live again by one of 2 |
| `PeerTable.SelfIsListed` | white-box/processors.go:158-162 | a bootstrap from the node's own id puts the node into its own table |
| `PeerTable.StepKeepsPlaced` | white-box/kad.go:180-227 | every message keeps every entry in the bucket of its id with its distance, one encryption key per signing key or not |
| `PeerTable.RunKeepsPlaced` | white-box/white-box.go:71-104 | in every state reachable from a new node, whatever the messages |
| `Routing.SortNearSorts` | white-box/kad.go:294-305 | inserting one by one sorts: ascending distance, the same entries |
| `Routing.SortNearStable` | white-box/kad.go:294-305 | and keeps entries at one distance in their order |
| `Routing.TakeInsert` | white-box/kad.go:302-308 | cutting to n after each insertion loses nothing of the first n |
| `Routing.InsertClosest` | white-box/kad.go:289-308 | the body of the loop, with the uncut slice of distances, inserts into the first n |
| `Routing.FindClosestIn` | white-box/kad.go:282-312 | the loop returns the min(n, size) nearest entries of the bucket in order |
| `Routing.OneBucketIsEnough` | white-box/kad.go:276-313 | that is the beginning of the whole table sorted by distance to the target |
| `Routing.NearestOfAll` | white-box/kad.go:315-323 | findClosest is nil iff the bucket is empty, else nearest of the whole table |
| `Routing.RouteFilter` | white-box/senders.go:45-57 | the filter passes a returned peer iff it is not the node itself and the target is not either |
| `Routing.SelfIsNotRouted` | white-box/senders.go:41-53 | a node in its own table can be all it finds, and then it routes to nobody |
| `Routing.RouteDescends` | white-box/senders.go:45-57 | the highest bit of the distance to the target falls at every hop |
| `Routing.RoutingBound` | white-box/senders.go:15-58 | on a chain of hops for one target no node comes twice and there are at most as many hops as bits |
| `Routing.NothingIsRelayed` | white-box/processors.go:23-33 | a message to the node itself or without a time is handled, every other is dropped, and NoReroute stays empty |
| `WhiteBoxes.CalculateIdealTable` | white-box/kad.go:66-83 | entry i is the id with bit i flipped |
| `WhiteBoxes.WhiteBox.ClosestIndex` | white-box/kad.go:254-274 | the scan finds the Kademlia bucket: the highest differing bit, 0 for the own id |
| `WhiteBoxes.WhiteBox.AddPeer` | white-box/kad.go:180-227 | takes the step AddPeer on table, cache and EmptyList |
| `WhiteBoxes.WhiteBox.RemovePeer` | white-box/kad.go:89-119 | takes out exactly the entries with that id |
| `WhiteBoxes.WhiteBox.RemoveStalePeers` | white-box/kad.go:121-153 | takes the step RemoveStale |
| `WhiteBoxes.WhiteBox.HavePeers` | white-box/kad.go:155-173 | true iff some bucket has an entry |
| `WhiteBoxes.WhiteBox.CacheMin` | white-box/kad.go:175-178 | a record is there afterwards, with the contents it had or the zero value |
| `WhiteBoxes.WhiteBox.RefreshPeer` | white-box/kad.go:325-342 | takes the step RefreshPeer |
| `WhiteBoxes.WhiteBox.ProcessBootstrap` | white-box/processors.go:139-205 | takes the step Bootstrap, and equally the step Verify |
| `WhiteBoxes.WhiteBox.ProcessAnnounce` | white-box/processors.go:223-249 | takes the step Announce, and passes it on iff AnnounceFloods |
| `WhiteBoxes.WhiteBox.ProcessSuggestionRequest` | white-box/processors.go:267-289 | takes the step SuggestionRequest |
| `WhiteBoxes.WhiteBox.ProcessSuggestions` | white-box/processors.go:314-329 | takes the step Suggestions |
| `WhiteBoxes.WhiteBox.ProcessDisconnect` | white-box/processors.go:362-381 | takes the step Disconnect, and passes it on iff DisconnectFloods |
| `WhiteBoxes.WhiteBox.ProcessPulse` | white-box/processors.go:409-435 | takes the step Pulse |
| `WhiteBoxes.WhiteBox.FindClosestN` | white-box/kad.go:276-313 | returns what Nearest says |
| `WhiteBoxes.WhiteBox.FindClosest` | white-box/kad.go:315-323 | the nearest entry of the whole table whenever the target's bucket has one |
| `WhiteBoxes.WhiteBox.RouteTo` | white-box/senders.go:38-57 | writes to the peers Route names, in order |
| `Ring.ModFloorIsMod` | white-box/party.go:144-147 | with Go's truncating remainder it is the mathematical modulus, for negative numbers too |
| `Ring.NeighborsAreModFloors` | white-box/party.go:174-180 | the positions modFloor gives are one before, one after and two after, wrapped, in rings of every size down to one |
| `Ring.ClosedIsAll` | white-box/party.go:174-180 | with at most two members dead, a set closed under surviving neighbours that has one survivor has all |
| `Ring.SurvivorsConnected` | white-box/party.go:174-180 | between any two survivors there is a path of surviving neighbours, for every ring size and any one or two dead |
| `Ring.ThreeCanCut` | white-box/party.go:174-180 | three dead of five can cut the ring, so two is the most |
| `Gossip.RunKeepsSpreading` | white-box/party.go:452-497 | whoever has forwarded has every neighbour served or a copy under way; shown once iff seen |
| `Gossip.CopiesConserved` | white-box/party.go:274-310 | copies sent are in flight or were consumed, one a step |
| `Gossip.FloodEnds` | white-box/party.go:313-330 | at most 3n+3 copies are sent and no run has more steps |
| `Gossip.NeverStuck` | white-box/party.go:452-497 | while a copy is in flight the flood can go on |
| `Gossip.GossipDelivers` | white-box/party.go:313-330 | at quiescence every member that is up, the sender included, has displayed the chat exactly once, with up to two members down |
| `Gossip.AtRest` | white-box/party.go:313-330 | the same of any state in which the flood spreads and no copy is left |
| `Gossip.NobodyTwice` | white-box/party.go:482-496 | at no point has anyone displayed it twice |
| `Gossip.AloneMayNotHear` | white-box/party.go:313-330 | a sender alone in its party may never see its chat |
| `Parties.RingUnique` | white-box/party.go:151-157 | members who hold the same member list see the same ring |
| `Parties.NeighborsOfPosition` | white-box/party.go:159-182 | a member's neighbours are those of its ring position |
| `Parties.NoNeighborsOutside` | white-box/party.go:167-172 | exactly who is not a member has no neighbours |
| `Parties.PartyLine.SortedIds` | white-box/party.go:151-157 | the members in ascending order, each once |
| `Parties.PartyLine.GetNeighbors` | white-box/party.go:150-183 | the members one before, one after and two after, none for one not in the list |
| `Parties.PartyLine.SendChat` | white-box/party.go:313-330 | sends to the neighbours and marks and displays nothing |
| `Parties.PartyLine.ProcessChat` | white-box/party.go:464-496 | displays, marks and forwards a verified chat of this party the first time, and does nothing otherwise |
| `Parties.ShowsTheNews` | white-box/party.go:452-497 | over any calls with any chats and signatures the channel grows at its end by exactly the news, in order, and no id seen is forgotten |
| `Parties.ForwardsTheNews` | white-box/party.go:464-497 | a call sends on iff its chat is news; a chat not verified or of another party changes nothing |
| `Parties.NewsOnce` | white-box/party.go:482-485 | no chat id is news twice |
| `PartyFlood.SentAreCopies` | white-box/party.go:275-310 | whom a member sends to are the destinations of its copies in the flood |
| `PartyFlood.HandledIsProcess` | white-box/party.go:464-496 | ProcessChat at a member is the flood's step for that chat at its ring position |
| `PartyFlood.HandledForOthers` | white-box/party.go:464-496 | and nothing to the flood of any other chat |
| `PartyFlood.ForgedIsNothing` | white-box/party.go:464-481 | a chat that is not verified, or of another party, changes nothing anywhere |
| `PartyFlood.RunKeepsWorldGood` | white-box/party.go:452-497 | over every run of a party with many chats crossing each other each chat floods as module Gossip has it |
| `PartyFlood.ChannelsAreHonest` | white-box/party.go:482-496 | no channel ever shows a chat twice, or one that was not sent |
| `PartyFlood.ChatReachesAll` | white-box/party.go:313-330 | for every chat sent: at most 3n+3 deliveries, and at rest the channel of every member that is up has it exactly once, and of the others not at all |
| `Preimages.AcceptedTail` | white-box/files.go:259-273 | with hashes as sums of the concatenated fields, an accepted block has a true index and the same bytes after it, or the sum collides |
| `Preimages.AcceptedData` | white-box/files.go:259-273 | it has the true data iff it has as much as Size leaves to its index, and then only the cuts between its links may differ, or the sum collides |
| `Preimages.TakesExactly` | white-box/party.go:1035-1090 | without a collision data can pass for a block iff what is hashed of that block ends with it and its digest before it |
| `Preimages.TrueDataIsTaken` | white-box/files.go:264-271 | the true data does |
| `Preimages.EndingIsTaken` | white-box/party.go:1035-1090 | and so does an ending of the block's own bytes that follows its digest |
| `Preimages.DigestThenData` | white-box/party.go:1035-1047 | of a file made of the digest of some data and the data, a just-started downloader takes the data alone as block 0 |

## Left out

- UDP, JSON, NAT traversal, the terminal interface, flags and key storage: plumbing around the cores.
- Signatures and boxes: messages are taken as verified; fulfillments are arbitrary blocks, since integrity comes from the hash chain alone.
- SHA-256 and the byte string that sha256Block feeds it: block hashes are a function of the block record, so a collision of two records that concatenate to the same bytes counts as a collision. Preimages is about one verification by a downloader that knows only true links; what later verifications make of wrongly cut links is not modelled.
- Locks and data races: a handler or a loop body is one step; the queue between verification and writing is kept, its capacity of 100 is not.
- Real time: request rate limits, expiry of requests, the 30-second advertisement rule. A request that expires ends its run early; Progress is about a request that does not.
- Errors of the operating system other than those of VerifiedBlockWriter: reading files, creating directories and writing zeros succeed.
- Sizes that are negative or differ from the file's length: an advertised Size is a natural number.
- Invites, announcements and disconnects of party members: Gossip is about a fixed member list held by all.
- Clocks: a member's chats are taken to have different times, so that no id stands for two chats.
- Pack advertisement, scanning, sorting by name, pending packs and path checks; a queued block names its file by position in the pack instead of by pointer, so aliasing between packs is not modelled.
- Shared paths: each file has a disk of its own, while SetPaths gives two files of one Name in packs of one party the same path.
- Nil slices: the coverage of a pack that has not been started is the empty slice; only IsFullCoverage tells it from nil.
- Entries without a peer: addPeer is the only writer of entries and always stores one, so the nil checks in havePeers and route are not modelled.
- Linked lists: a bucket is a sequence that the methods reassign; elements are not shared.
- Ids as text: peer ids are bit strings and abstract keys, members of a party natural numbers in the order of their ids; the id of a chat is a pair of author and time.
- Suggested peers and the wouldAddPeer test: they only cause messages to be sent.
- scratch/: superseded prototypes.
- FindClosestN: requires a table whose entries stand where they belong, as every run keeps it (PeerTable.RunKeepsPlaced), so that every id has the length of the target.
- BuildBlockLookup: requires that the links end, which is when the loop ends; on a cyclic map, which needs a collision, the program does not terminate.
