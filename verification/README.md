# Galois: a verified model

Galois is a distributed file system that keeps 4 KB pages on several machines under an erasure code. This project
models its core in Dafny and proves what that core is for: no page is lost while enough nodes remain, files behave as
byte arrays, the directory server keeps a tree, and the lock-free and message-passing parts never confuse two users.

The code changes state step by step, so most operations are methods of classes with the source's fields. Each is
proved equal to a function on values, and the properties are proved about those functions and about whole runs.

| modules | what they model |
|---|---|
| `GaloisField`, `LinearAlgebra`, `CauchyCode` | the arithmetic behind the code: GF(2^8) with polynomial 0x11d, Gauss-Jordan inversion, the systematic Cauchy matrix, for every K and P with K + P <= 256 |
| `Arithmetic`, `PageLayout`, `ShardHistory`, `Ecal` | `ECAL`: layout, selection of live nodes, `readBlock`, `writeBlock`, RDMA regions, liveness as environment steps |
| `SlotBitmap`, `SlotMachine`, `Regions`, `RpcMachine` | `Bitmap` as bits and as interleaved threads, the buffer regions and the RPC response slots built on it |
| `FileBlocks`, `FileRuns`, `FileClient`, `StartUp` | `FMStore` and `LocofsClient::write` / `read` over the block store, whole sessions of requests with lost peers, and how they start |
| `PathText`, `Namespace`, `NamespaceRuns`, `DirServer` | `DMStore` and `EntryList`: first as a value and over whole runs, then as text-keyed stores that compute it |
| `LruCache`, `UuidClient`, `LocofsClient`, `TwoFiles` | `lru_cache`, the client's directory calls with its uuid cache, whole sessions of them, the file calls by path, and the whole system from nothing |
| `Barrier` | `syncAmongPeers` for any number of nodes and rounds |

The central results, in the order of difficulty:

- **Any K of N nodes are enough.** Every K distinct rows of the encode matrix are invertible
  (`CauchyCode.AnyRowsInvertible`), inversion fails exactly on singular matrices, and so "cannot do matrix invert!"
  in `readBlock` is dead code. A page returned by `readBlock` is *the* page whose shards the chosen nodes hold, and
  the last page written to the row if they were all alive then. With one row per index, the store refines a map from
  index to page under reads and writes, on memories with any contents; a page is steady from its first write on, and
  the loss of nodes changes no steady page.
- **The barrier is safe and live.** Nobody leaves a round before everybody has entered it, every message is the one
  its step expects, some step can always be taken, runs are bounded in length, and every run can be completed.
- **Files are byte arrays.** Over any session of creations, removals, harmless writes and lost peers, each file on the
  erasure-coded store has exactly the size and the bytes of a byte array, and a read delivers every byte that has been
  written. All that is asked of the hash is that the blocks in use differ modulo the capacity.
- **The name space is a tree.** On every run, whatever the paths and whether or not rename targets are taken, distinct
  paths have distinct uuids and every directory has its inode, unless a rename moves "/" itself, which no run of
  canonical requests without the new path "/" does. mkdir and rmdir change exactly one subtree and rename moves one
  whole. With free rename targets, entry lists agree with the keys as well.
- **Slots are exclusive** under every interleaving of loads, weak compare-and-swaps and frees; buffer regions held
  together are disjoint, RPC replies go to their own callers, no call keeps a slot, -1 means that all slots were held
  at some moment of the call, and an undisturbed call with a free slot completes.

Where the code departs from its intent, it is modelled as it is, and the exact condition under which it does what it
should is proved:

- The full-page branch of `LocofsClient::write` never sets `page.index` (src/fs/LocofsClient.cpp:101-105), so whole
  pages go to whatever index was left behind. A write is a byte-array write, and reading it back delivers it, exactly
  on the requests for which `FileBlocks.Harmless` holds, a test on offset, length and one block address. With the
  index set, every write is exact (`FileBlocks.RepairedWriteExact`).
- Page indices are kept apart exactly when the cluster has N nodes; in any larger one, indices 0 and 1 share a row
  (`Ecal.Store.IndicesApartIff`).
- `rename` checks neither the target nor the parent of the new path. The three stores stay in agreement exactly when
  the target is free and the new path is not "/" (`Namespace.RenameKeepsInvIff`), and the directory arrives where it
  was asked to go exactly when the parents are the same (`Namespace.RenameReachesTargetIff`). Over a taken target the
  name is listed twice and the old directory is lost (`NamespaceRuns.RenameOverTaken`).
- A directory renamed to "/" can no longer be reached. If it was directly in the root, and only then, a later rename of
  "/" succeeds and puts the root into itself; a rename breaks the tree exactly in this case
  (`Namespace.RenamedToRoot`, `Namespace.RenameKeepsTreeIff`).
- `remove_entry` erases a single element after std::remove. It removes the name and nothing remains exactly if the list
  held the name once (`DirServer.EntryList.RemoveEntry`), and so rmdir and rename leave the right entry lists exactly
  if the name was listed once (`Namespace.RmdirStepExactIff`, `Namespace.RenameStepExactIff`). Otherwise unspecified
  strings stay behind, as after rename("/a", "/b") over an existing "/b" and rmdir("/b")
  (`NamespaceRuns.RmdirLeavesLeftover`). No other name is ever lost.
- `rmdir` does not check emptiness, although the client's comment promises it. The client's uuid cache stays coherent
  exactly when nothing below the removed directory was cached. Over every session in which only directories without
  subdirectories are removed it is coherent throughout (`UuidClient.Client.Session`); `UuidClient.RmdirLeavesStale` is
  a session that removes another one.
- "/" resolves to uuid 0, but its inode is stored under uuid 1: the root alone has no inode, and a file directly in
  the root gets no key.
- The client reads an empty directory as one empty name, and splits names that contain tabs. It gets exactly the
  listing if the directory has entries and no name contains a tab, and only then (`UuidClient.Client.Readdir`).
- `FMStore::create` on an existing key gives the file a new identity and size 0.
- A cache of limit 0 exceeds its limit by one entry; the bound holds exactly for limits of at least 1.

Foreign parts appear as explicit semantics: ISA-L as field and matrix arithmetic, a one-sided RDMA operation as a
memory copy that is complete once polled, eRPC as one continuation per request, a key-value store as a map.
Parameters stand for the clock, the block hash, the node memories and the liveness of peers.

## Model

| member | source | states |
|---|---|---|
| GaloisField.MulComm | include/ec/rs.hpp:78-82 | the multiplication ISA-L uses (shift-and-add modulo 0x11d) is commutative |
| GaloisField.MulAssoc | include/ec/rs.hpp:78-82 | and associative |
| GaloisField.MulAddRight | include/ec/rs.hpp:78-82 | and distributes over exclusive or |
| GaloisField.EveryByteIsAPower | include/ec/rs.hpp:78-82 | each of the 255 nonzero bytes is a power of x, by the order of x and counting |
| GaloisField.InvCorrect | include/ec/rs.hpp:78-82 | the inverse that fills the Cauchy rows is a two-sided inverse of every nonzero byte |
| GaloisField.NoZeroDivisors | include/ec/rs.hpp:78-82 | a product is zero only if a factor is |
| LinearAlgebra.InvertUndoes | src/ecal.cpp:297-302 | a matrix returned by the inversion undoes multiplication by its argument |
| LinearAlgebra.InvertUndone | src/ecal.cpp:297-302 | and is undone by it: the inverse is two-sided |
| LinearAlgebra.InvertSucceedsIffNonsingular | src/ecal.cpp:299-302 | the inversion reports failure exactly on matrices with a nontrivial kernel |
| CauchyCode.CauchySystem | include/ec/rs.hpp:80 | a square system with coefficients inv(x + y) on distinct points has only the zero solution |
| CauchyCode.ParityRowsReplaceMissing | src/ecal.cpp:297-304 | among K chosen rows there are as many parity rows as data rows left out |
| CauchyCode.AnyRowsInvertible | src/ecal.cpp:48 | every K distinct rows of the encode matrix can be inverted, for all K + P <= 256 |
| CauchyCode.DataShard | src/ecal.cpp:330 | the code is systematic: shard s < K is data block s |
| CauchyCode.DecodeShards | src/ecal.cpp:297-308 | inverted rows applied to any K distinct shards of a page give back each of its data blocks |
| CauchyCode.DecodedShards | src/ecal.cpp:297-308 | conversely, the decoded page encodes to the very shards it was decoded from |
| PageLayout.SpliceBlock | src/ecal.cpp:330-333 | storing one block of a pool changes that block and no other |
| PageLayout.PageBlocksInjective | src/ecal.cpp:321-322 | a page is determined by its K data blocks |
| PageLayout.JoinPageBlocks | src/ecal.cpp:278-280 | cutting a page into blocks and putting them together again is the identity |
| PageLayout.SelectionCorrect | src/ecal.cpp:250-260 | for every liveness pattern with K live nodes: K increasing live indices, exactly the dead data indices, the two partition 0..K-1, at most P dead |
| ShardHistory.LiveAtLastWrite | src/ecal.cpp:328-349 | a node alive at a row's last write was last reached by that write |
| Ecal.Copy | src/ecal.cpp:280 | memcpy: the target range is replaced, all other bytes stay |
| Ecal.Store.constructor | src/ecal.cpp:38-52 | establishes the invariant all other methods require, whatever the memories hold; zeroed memories count as zero pages; all regions are free |
| Ecal.Store.LayoutFacts | src/ecal.cpp:43-45 | the capacity computed with integer divisions is rows times pages per row |
| Ecal.Store.InitiallyStored | src/ecal.cpp:35-52 | zeroed memory is the encoding of zero pages on every node |
| Ecal.Store.Live | src/network/rdma.cpp:413-421 | the live nodes are this one, those marked alive, and the connected ones without a mark |
| Ecal.Store.MarkPeer | include/network/rdma.hpp:74-76 | a positive mark makes the peer live, a negative one dead, none gives back the state of its connection; no other peer and nothing stored changes |
| Ecal.Store.SetConnected | src/network/rdma.cpp:264-338 | without a mark the peer is live exactly if its connection is up; under a mark nothing changes |
| Ecal.Store.GetReadRegion | include/network/rdma.hpp:101-109 | takes the lowest free slot and returns its page of the area |
| Ecal.Store.GetWriteRegion | include/network/rdma.hpp:92-100 | the same for write regions |
| Ecal.Store.FreedBitmap | include/network/rdma.hpp:110-119 | frees the slot recovered from the address |
| Ecal.Store.FreeStep | include/network/rdma.hpp:115-119 | freeing by address a region taken from a bitmap restores that bitmap |
| Ecal.Store.PutRemote | src/ecal.cpp:336-340 | a peer's row holds the shard, the rest of its memory and the bitmap are unchanged |
| Ecal.Store.PutShard | src/ecal.cpp:332-349 | a dead peer's memory is left as it is |
| Ecal.Store.EncodePage | src/ecal.cpp:319-323 | produces the N shards of the page without touching node memories |
| Ecal.Store.StoreShards | src/ecal.cpp:327-350 | afterwards exactly the live nodes hold their own new shard, and the write bitmaps are balanced |
| Ecal.Store.CellAfterWrite | src/ecal.cpp:328-349 | a write changes the cells of its row on the live nodes and no other cell |
| Ecal.Store.StoredAfterWrite | src/ecal.cpp:317-351 | the store invariant survives every write under every liveness |
| Ecal.Store.ShardAfterRun | src/ecal.cpp:317-351 | after any run of writes, a node holds its shard of the last write to the row that found it alive |
| Ecal.Store.WriteBlock | src/ecal.cpp:317-351 | keeps the invariant, extends the history by exactly this write, restores the write bitmaps |
| Ecal.Store.SelectNodes | src/ecal.cpp:250-260 | the loop computes the first K live indices and the dead data indices |
| Ecal.Store.FetchRemote | src/ecal.cpp:268-271 | the region returned holds the peer's shard of the row |
| Ecal.Store.FetchShards | src/ecal.cpp:262-275 | every source pointer refers to the chosen node's shard; one region is taken per remote node |
| Ecal.Store.CopyIntact | src/ecal.cpp:277-280 | live data shards appear at their own place in the page |
| Ecal.Store.DecodeDead | src/ecal.cpp:303-308 | dead blocks are written from the inverted rows, all other blocks stay |
| Ecal.Store.Decode | src/ecal.cpp:292-308 | the error branch of the inversion is unreachable; the whole page is recovered |
| Ecal.Store.ReleaseRegions | src/ecal.cpp:282-289 | all read bitmaps are as they were before the fetch, on both exit paths |
| Ecal.Store.FillPage | src/ecal.cpp:262-315 | fetch, copy, decode and release change no node memory and no bitmap in the end |
| Ecal.Store.RecoveredIsPage | src/ecal.cpp:277-308 | if the shards read are those of one page, that page is delivered |
| Ecal.Store.RecoveredHasShards | src/ecal.cpp:277-308 | the delivered page always encodes to the shards read |
| Ecal.Store.LastWriteHeld | src/ecal.cpp:244-351 | nodes all alive at a row's last write hold one and the same page, the last one |
| Ecal.Store.ReadCorrect | src/ecal.cpp:244-315 | the nodes hold page d if and only if the read delivers d |
| Ecal.Store.ReadBlock | src/ecal.cpp:244-315 | delivers the one page the first K live nodes hold, and the row's last write if they were all alive then; memory and bitmaps unchanged |
| Ecal.Store.OnePageHeld | src/ecal.cpp:297-308 | whatever k nodes hold for a row is the encoding of a page |
| Ecal.Store.HeldPageUnique | src/ecal.cpp:297-308 | and of no other |
| Ecal.Store.DeliveredAfterWrite | src/ecal.cpp:317-351 | a write changes what is delivered for its row and for no other row |
| Ecal.Store.PagesAfterWrite | src/ecal.cpp:317-351 | on the abstract map, a write replaces one page, which is steady from then on |
| Ecal.Store.FailureKeepsPages | src/network/rdma.cpp:413-421 | a page that all live nodes hold is delivered by any k of those that remain |
| Ecal.Store.WrittenIsSteady | src/ecal.cpp:317-351 | a row whose last write no live node has missed is steady and stands for that write's page |
| Ecal.Store.ReadPage | include/ecal.hpp:39 | refinement: reading returns the map's page at the index |
| Ecal.Store.WritePage | include/ecal.hpp:40 | refinement: writing updates the map at the index and nowhere else, and makes the index steady |
| Ecal.Store.LosePeer | include/network/rdma.hpp:75 | refinement: exactly this peer stops being live; with K nodes left, no steady page changes and the store stays usable |
| Ecal.Store.RegainPeer | include/network/rdma.hpp:74 | exactly this peer becomes live; no page that is still steady changes, and rows whose last write reached all live nodes are steady |
| Ecal.Store.RowInPool | src/ecal.cpp:43-45 | for every cluster size, an index below the capacity has its shard inside every node's pool |
| Ecal.Store.IndicesApart | include/datablock.hpp:53-62 | with N nodes, different indices occupy disjoint bytes of every pool |
| Ecal.Store.IndicesAlias | include/ecal.hpp:68-72 | with more nodes, indices 0 and 1 share a row |
| Ecal.Store.IndicesApartIff | include/ecal.hpp:68-72 | indices never share a row exactly when the cluster has N nodes |
| Ecal.Store.WriteLeavesOthers | include/ecal.hpp:68-76 | with N nodes, writing one page changes what no set of nodes holds for another, under any failures |
| SlotBitmap.LowBitIsLowest | include/bitmap.hpp:38 | origin & -origin is the mask of the lowest set bit |
| SlotBitmap.FfsOfLowBit | include/bitmap.hpp:15-19 | ffs of the isolated bit is the position of the lowest set bit of the word |
| SlotBitmap.ClearBit | include/bitmap.hpp:39 | clearing the bit removes exactly that slot from the free ones |
| SlotBitmap.SetBit | include/bitmap.hpp:47-50 | setting the bit adds exactly that slot |
| SlotBitmap.ZeroIffFull | include/bitmap.hpp:37 | the loop guard fails exactly when no slot is free |
| SlotBitmap.AllocTakesLowest | include/bitmap.hpp:34-43 | an allocation returns the lowest free slot and takes exactly it |
| SlotBitmap.FreeUndoesAlloc | include/bitmap.hpp:34-53 | freeing the slot just allocated restores the word |
| SlotBitmap.AllocBit | include/bitmap.hpp:34-43 | the loop with any number of spurious failures computes that allocation |
| SlotBitmap.FreeBit | include/bitmap.hpp:45-53 | the same for freeing |
| SlotMachine.SwapTakesLowest | include/bitmap.hpp:39-40 | a successful swap takes a slot nobody held, while all lower ones were held |
| SlotMachine.StepKeepsInv | include/bitmap.hpp:34-53 | every atomic step of every thread keeps "a bit is set if and only if nobody holds its slot" and exclusiveness |
| SlotMachine.RunKeepsInv | include/bitmap.hpp:34-53 | so it holds at every point of every interleaving of any number of threads |
| SlotMachine.RunExclusive | include/bitmap.hpp:34-53 | no two threads ever hold the same slot |
| SlotMachine.EventEffect | include/bitmap.hpp:34-53 | which thread state, slots and word each atomic step changes, and that it changes no other thread's |
| SlotMachine.FailureMeansFull | include/bitmap.hpp:36-41 | a call leaves its loop with the word 0 only if at some moment during it every slot was held |
| SlotMachine.RefusalMeansFull | include/bitmap.hpp:42 | so -1 is returned only if at some moment during that very call every slot was held |
| SlotMachine.ThreadMoves | include/bitmap.hpp:34-53 | no thread is ever stuck; a weak swap may fail at any time and succeeds only on the word that was loaded |
| SlotMachine.AllocFinishes | include/bitmap.hpp:34-43 | undisturbed, allocBit returns the lowest free slot, or -1 if there is none |
| SlotMachine.FreeFinishes | include/bitmap.hpp:45-53 | undisturbed, freeBit frees exactly its slot |
| Regions.HeldRegionsDisjoint | include/network/rdma.hpp:92-119 | regions held together are disjoint pages inside the area, and each address gives back its own slot, on every run |
| RpcMachine.ActionKeepsInv | include/network/netif.hpp:115-136 | every step of callers, network and continuations keeps slots, flags, buffers and requests consistent |
| RpcMachine.ExecutionKeepsInv | include/network/netif.hpp:115-136 | so they are consistent on every execution |
| RpcMachine.RepliesMatchRequests | include/network/netif.hpp:129-135 | a call that returns true has copied the response to its own request |
| RpcMachine.OutstandingSlotsDistinct | include/network/netif.hpp:121-131 | calls in progress, and requests on the network, have distinct slots |
| RpcMachine.WaitersAreServed | src/network/netif.cpp:25-33 | a spinning call either sees its flag or its request is still on the way |
| RpcMachine.CallsLeakNothing | include/network/netif.hpp:121-135 | a thread outside a call holds no slot |
| RpcMachine.RefusedMeansFull | include/network/netif.hpp:121-123 | false is returned only if at some moment of that call all 32 slots were held by other calls |
| RpcMachine.NewCallNewRequest | include/network/netif.hpp:118-131 | the request of a new call is on no wire and answered in no buffer |
| RpcMachine.UndisturbedCall | include/network/netif.hpp:115-136 | with a free slot and an answered request, a call returns true with its answer |
| RpcMachine.CallsCanComplete | include/network/netif.hpp:115-136 | so after every execution |
| FileBlocks.ChunkLen | src/fs/LocofsClient.cpp:89-92 | a chunk lies in one block, is not empty, and ends at a block boundary unless it is the last |
| FileBlocks.ReadExact | src/fs/LocofsClient.cpp:187-200 | the reading loop delivers byte off + j of the file at position j |
| FileBlocks.OnTargetWrites | src/fs/LocofsClient.cpp:88-110 | if every chunk goes to its own block, exactly the requested bytes of the file change, in no other block in use |
| FileBlocks.TargetsCover | src/fs/LocofsClient.cpp:88-110 | then every block the request touches has been written to its place |
| FileBlocks.ReadAfterWrite | src/fs/LocofsClient.cpp:82-204 | the byte-array law between an exact write and any read of any file in use |
| FileBlocks.RepairedWriteExact | src/fs/LocofsClient.cpp:101-105 | with page.index set in the full-page branch, every write is exact |
| FileBlocks.WriteExactIffHarmless | src/fs/LocofsClient.cpp:82-110 | as written, a request is a byte-array write for all contents if and only if it is harmless |
| FileBlocks.RoundTripIffHarmless | src/fs/LocofsClient.cpp:82-204 | reading back what was written delivers it, for all contents, if and only if the request is harmless |
| FileBlocks.MissedBlock | src/fs/LocofsClient.cpp:101-105 | any other request covers a whole block that is never written |
| FileBlocks.LostWrite | src/fs/LocofsClient.cpp:101-105 | for each of them, contents and data that are lost |
| FileBlocks.AlignedWriteLosesData | src/fs/LocofsClient.cpp:101-105 | for instance, every write of two aligned pages or more has contents and data that do not come back |
| FileRuns.WriteIsExact | src/fs/LocofsClient.cpp:82-110 | a harmless write to a file replaces exactly its bytes in [off, off + len) among all blocks in use |
| FileRuns.StepRefines | src/fs/LocofsClient.cpp:49-150 | create, remove, write and lost peers do to the files, of all keys, what they do to a map of byte arrays |
| FileRuns.RunRefines | src/fs/LocofsClient.cpp:49-205 | so does every run whose writes are harmless and, with the index set in the full-page branch, every run, wherever lost peers may lead it |
| FileRuns.ReadDelivers | src/fs/LocofsClient.cpp:187-200 | a read then delivers every byte of the array that has been written |
| FileClient.FileServer.Create | src/fs/FMStore.cpp:88-143 | the file gets size 0 and an identity no file has had among those present, also when the key existed |
| FileClient.FileServer.Remove | src/fs/FMStore.cpp:167-186 | exactly this file goes; -1 if there is none |
| FileClient.FileServer.Csize | src/fs/FMStore.cpp:187-197 | only the size of this file changes; identities stay distinct |
| FileClient.FileServer.GetAttr | src/fs/FMStore.cpp:198-209 | finds the file exactly if it exists |
| FileClient.Client.WriteChunk | src/fs/LocofsClient.cpp:94-105 | both branches over the erasure-coded store: one page is patched, the one congruent to the hash of sid, suuid and block number, or in the full-page branch the one whose index was left behind |
| FileClient.Client.WriteData | src/fs/LocofsClient.cpp:82-110 | the loop over the erasure-coded store computes the chunk-wise write of the page map |
| FileClient.Client.Create | src/fs/LocofsClient.cpp:403-411 | given the key: an empty file under it, all others as they were |
| FileClient.Client.Unlink | src/fs/LocofsClient.cpp:290-298 | given the key: exactly this file goes; true if and only if it was there |
| FileClient.Client.WriteStat | src/fs/LocofsClient.cpp:79-112 | given the key: the data of a file that exists, and nothing for one that does not |
| FileClient.Client.WriteSize | src/fs/LocofsClient.cpp:128-149 | given the key: size max(old, off + len), which completes the write |
| FileClient.Client.Write | src/fs/LocofsClient.cpp:79-149 | given the key: pages, sizes and result, for missing files and empty requests too; harmless requests keep the files equal to the byte arrays |
| FileClient.Client.ReadChunk | src/fs/LocofsClient.cpp:188-195 | the part of the page congruent to the hash of sid, suuid and block number appears at its place in the buffer, the store's pages and the rest of the buffer stay |
| FileClient.Client.ReadData | src/fs/LocofsClient.cpp:185-204 | the loop over the erasure-coded store fills the buffer with the file's bytes and nothing beyond |
| FileClient.Client.Read | src/fs/LocofsClient.cpp:172-204 | given the key: number of bytes and buffer, 0 for a missing file, -1 for a range that ends after the file; every known byte of the array is delivered |
| FileClient.Client.Perform | src/fs/LocofsClient.cpp:49-412 | one request on the erasure-coded store, or one lost peer, does what the byte arrays do |
| FileClient.Client.Session | src/fs/LocofsClient.cpp:49-412 | any sequence of them, as long as K nodes remain; exactly the lost peers are no longer live |
| FileClient.Client.ServesSnapshot | src/fs/LocofsClient.cpp:49-205 | a session can start on any device and any file server, with the bytes of their steady pages |
| StartUp.NewStore | src/ecal.cpp:10-52 | memories, regions and buffer that meet what the store asks for |
| StartUp.Start | src/fs/LocofsClient.cpp:41-47 | for every K and P, a cluster whose peers are connected serves the empty file system |
| StartUp.FirstByte | src/fs/LocofsClient.cpp:49-205 | a session that creates a file, writes a byte and loses a peer; the byte is read back |
| PathText.DecInjective | src/fs/DMStore.cpp:73 | different uuids have different texts |
| PathText.KeyTextInjective | src/fs/DMStore.cpp:52-60 | the text of a key determines the parent uuid and the name, also for names with colons |
| PathText.ComponentsRender | src/fs/DMStore.cpp:292-308 | splitting canonical text gives back the names of the path |
| PathText.SeparatorsMerge | src/fs/DMStore.cpp:298 | on any text, separators next to each other count as one |
| PathText.TrailingSlash | src/fs/DMStore.cpp:298 | a slash at the end leaves an empty name to look up |
| PathText.SplitJoinIff | src/fs/EntryList.cpp:28 | a listing of nonempty names is read back at the tabs if and only if it has entries and no name contains a tab; an empty one as one empty name |
| PathText.RenderParent | src/fs/DMStore.cpp:45-47 | parent_path and filename take canonical text apart |
| Namespace.ResolveInjective | src/fs/DMStore.cpp:289-322 | distinct paths never resolve to the same uuid |
| Namespace.MkdirAddsOne | src/fs/DMStore.cpp:33-106 | in every tree, a successful mkdir makes exactly its path resolve, to a fresh uuid with nothing below it; a failed one changes no resolution |
| Namespace.MkdirOutcome | src/fs/DMStore.cpp:33-106 | which value mkdir returns, and that it always consumes a uuid |
| Namespace.MkdirInodes | src/fs/DMStore.cpp:78-94 | the new inode has the caller's mode, uid and gid, is in use and keeps its path as old name; all other inodes stay |
| Namespace.RmdirInodes | src/fs/DMStore.cpp:163-169 | exactly the inode of the path goes |
| Namespace.RenameInodes | src/fs/DMStore.cpp:235-242 | the status of the renamed directory becomes 2, nothing else changes in any inode |
| Namespace.InitialRoot | src/fs/DMServer.cpp:21-31 | the server starts with "/" of mode 0755 and owner 0777 |
| Namespace.RmdirOutcome | src/fs/DMStore.cpp:145-157 | which value rmdir returns, and that a failure changes nothing |
| Namespace.RmdirRemovesSubtree | src/fs/DMStore.cpp:145-193 | exactly the paths at or below it stop resolving |
| Namespace.RenameOutcome | src/fs/DMStore.cpp:194-232 | which renames succeed, "/" included, and that a failure changes nothing |
| Namespace.RenameMovesSubtree | src/fs/DMStore.cpp:194-258 | new/s resolves as old/s did, no old/s resolves, all other paths as before, whether or not the target was taken |
| Namespace.RenameReachesTargetIff | src/fs/DMStore.cpp:205-216 | the new path leads to the directory if and only if it has the old path's parent |
| Namespace.RenamedToRoot | src/fs/DMStore.cpp:205-229 | a directory renamed to "/" is unreachable; a rename of "/" succeeds afterwards if and only if it was in the root, and closes a cycle |
| Namespace.MkdirKeepsTree | src/fs/DMStore.cpp:33-106 | keys stay a tree, and every keyed directory has its inode |
| Namespace.RmdirKeepsTree | src/fs/DMStore.cpp:145-193 | the same, for directories that are not empty too |
| Namespace.RenameKeepsTreeIff | src/fs/DMStore.cpp:194-258 | the same if and only if it is not a rename of "/" that succeeds |
| Namespace.WithoutCount | src/fs/EntryList.cpp:45 | std::remove keeps all elements but the occurrences of the name |
| Namespace.RemovedKeeps | src/fs/EntryList.cpp:32-47 | on any list, no other name is lost |
| Namespace.RmdirStepKeepsSound | src/fs/DMStore.cpp:145-193 | with whatever remove_entry leaves behind, every keyed name stays listed |
| Namespace.RenameStepKeepsSoundIff | src/fs/DMStore.cpp:194-258 | the same if and only if it is not a rename of "/" that succeeds |
| Namespace.RmdirStepExactIff | src/fs/DMStore.cpp:187 | rmdir leaves exactly the specified lists behind if and only if the name was listed once |
| Namespace.RenameStepExactIff | src/fs/DMStore.cpp:247-252 | so does rename |
| Namespace.StepsExact | src/fs/DMStore.cpp:145-258 | where the three stores agree, nothing unspecified is left behind |
| Namespace.MkdirKeepsInv | src/fs/DMStore.cpp:33-106 | the three stores stay in agreement |
| Namespace.RmdirKeepsInv | src/fs/DMStore.cpp:145-193 | the three stores stay in agreement |
| Namespace.RenameKeepsInvIff | src/fs/DMStore.cpp:194-258 | the three stores stay in agreement if and only if the target was free and the new path is not "/" |
| Namespace.ChildlessIfUnlisted | src/fs/DMStore.cpp:275-279 | an empty listing means that nothing is keyed under the directory, and conversely where the stores agree |
| Namespace.NothingBelow | src/fs/DMStore.cpp:289-322 | nothing resolves below such a directory |
| Namespace.SameTreeStep | src/fs/DMStore.cpp:145-193 | what remove_entry leaves behind influences nothing but listings |
| NamespaceRuns.StepKeepsSoundIff | src/fs/DMStore.cpp:33-258 | every request keeps tree, inodes and listed names if and only if it does not move the root |
| NamespaceRuns.RunKeepsSound | src/fs/DMStore.cpp:33-258 | so every run does, with any paths and any rename targets, until the root is moved |
| NamespaceRuns.CanonicalRun | src/fs/DMStore.cpp:33-258 | which canonical requests without the new path "/" never do |
| NamespaceRuns.UuidsIdentify | src/fs/DMStore.cpp:81-89 | in every such state, paths and uuids are one-to-one, and each inode but the root's carries its key |
| NamespaceRuns.InodeStep | src/fs/DMStore.cpp:33-258 | what one request does to an inode |
| NamespaceRuns.InodeAfterRun | src/fs/DMStore.cpp:33-274 | over any run an inode keeps its attributes but for the mark of a rename, and a removed one never comes back |
| NamespaceRuns.MkdirAttributesStay | src/fs/DMStore.cpp:81-274 | as long as a directory exists, under whatever name, its inode reports what its mkdir was called with |
| NamespaceRuns.RunExists | src/fs/DMStore.cpp:33-258 | every sequence of canonical requests can be carried out |
| NamespaceRuns.StepKeepsInvIff | src/fs/DMStore.cpp:33-258 | of the canonical requests exactly those without a taken rename target keep the three stores in agreement |
| NamespaceRuns.RunKeepsInv | src/fs/DMStore.cpp:33-258 | on every run with free rename targets the three stores agree |
| NamespaceRuns.ListingExact | src/fs/DMStore.cpp:275-279 | in every state reached with free rename targets, a listing is exactly the names that resolve in the directory, each once |
| NamespaceRuns.ClientListing | src/fs/LocofsClient.cpp:365-366 | in such a state, the names a client reads from a listing without tabs are exactly those that resolve, each once |
| NamespaceRuns.RenameOverTaken | src/fs/DMStore.cpp:229-255 | a concrete run onto a taken name: it succeeds, lists the name twice and loses a directory |
| NamespaceRuns.RmdirLeavesLeftover | src/fs/EntryList.cpp:45 | after that run, rmdir succeeds and leaves any one string behind in the listing |
| NamespaceRuns.RenameToOtherParent | src/fs/DMStore.cpp:213-229 | a concrete rename to another parent: it succeeds and arrives elsewhere |
| NamespaceRuns.RenameRootCycle | src/fs/DMStore.cpp:194-232 | a concrete run in which renaming to and from "/" breaks the tree |
| DirServer.EntryList.InsertEntry | src/fs/EntryList.cpp:5-23 | the name is appended to its list, other lists stay |
| DirServer.EntryList.RemoveEntry | src/fs/EntryList.cpp:32-47 | the in-place shift and erase leave the other names in front and in order; nothing else is left if and only if the name was listed once |
| DirServer.DMStore.GetUuid | src/fs/DMStore.cpp:289-322 | the loop over text keys agrees with resolution on every text |
| DirServer.DMStore.Get2Uuid | src/fs/DMStore.cpp:324-356 | the same for the uuids of a path and of its parent |
| DirServer.DMStore.Mkdir | src/fs/DMStore.cpp:33-106 | new state and result are those of the value-level mkdir, the inode found under the new uuid has the caller's mode, uid and gid; the stores stay valid |
| DirServer.DMStore.MakeDirectory | src/fs/DMStore.cpp:33-106 | the steps of mkdir compute the value-level one |
| DirServer.DMStore.AddDirectory | src/fs/DMStore.cpp:63-105 | key, inode and entry of the new directory are stored, or nothing if the key exists |
| DirServer.DMStore.Rmdir | src/fs/DMStore.cpp:145-193 | state and result are those of a value-level rmdir step, exactly the specified one if and only if the name was listed once; the later error exits cannot be taken |
| DirServer.DMStore.RemoveDirectory | src/fs/DMStore.cpp:163-192 | inode, key and entry go together: neither removal can fail |
| DirServer.DMStore.MoveKey | src/fs/DMStore.cpp:213-232 | re-keys the directory, or fails without effect if there is no old key |
| DirServer.DMStore.MarkRenamed | src/fs/DMStore.cpp:238-242 | only the status of the inode changes; without an inode one is stored |
| DirServer.DMStore.MoveEntry | src/fs/DMStore.cpp:247-255 | the old name leaves the parent's list and the new one is appended |
| DirServer.DMStore.Rename | src/fs/DMStore.cpp:194-259 | the same for rename; the result is valid if and only if "/" was not moved, and the stores agree if and only if the target was free and not "/" |
| DirServer.DMStore.GetAttr | src/fs/DMStore.cpp:260-274 | succeeds exactly on resolvable paths other than "/", with the inode of that very uuid |
| DirServer.DMStore.Readdir | src/fs/DMStore.cpp:275-279 | the joined listing of the directory, nothing for a path that does not resolve |
| LruCache.Cache.Get | include/fs/lru_cache.h:65-80 | a hit returns the data and touches only that entry's count and time |
| LruCache.Cache.Set | include/fs/lru_cache.h:82-100 | at most one victim, the first of minimal weight, only on a full cache; the rest keeps its data; the limit holds if and only if it is at least 1 |
| LruCache.Cache.Remove | include/fs/lru_cache.h:102-114 | exactly this entry goes |
| LruCache.Cache.LruRemove | include/fs/lru_cache.h:116-139 | the scan in key order evicts, of the entries whose count + update time is minimal, the first |
| LruCache.LessMeans | include/fs/lru_cache.h:118-129 | the order of the keys is decided by the first difference, and a prefix comes first |
| LruCache.VictimIsLightest | include/fs/lru_cache.h:126-137 | no entry has a smaller count + update time than the victim, and none before it in key order an equal one |
| LruCache.LessUsedGoesFirst | include/fs/lru_cache.h:126-137 | of two entries used last at the same time the one with more hits stays |
| LruCache.OneVictim | include/fs/lru_cache.h:126-137 | there is never a choice of victims |
| LruCache.Cache.LruExpire | include/fs/lru_cache.h:141-169 | exactly the expired entries go, and the count returned is theirs |
| UuidClient.CheckDenoted | src/fs/LocofsClient.cpp:549-555 | a canonical path with or without a trailing slash becomes canonical |
| UuidClient.Client.GetUuid | src/fs/LocofsClient.cpp:444-465 | from cache or server, the answer is the server's current resolution; the cache stays coherent |
| UuidClient.Client.GetFileKey | src/fs/LocofsClient.cpp:467-493 | the key is that of the name under the current uuid of the parent |
| UuidClient.FileKeyInjective | src/fs/LocofsClient.cpp:486-488 | in every tree, different file paths have different keys |
| UuidClient.FilesHaveOwnKeys | src/fs/LocofsClient.cpp:467-493 | so in every reachable state of the directory server |
| UuidClient.Client.Mkdir | src/fs/LocofsClient.cpp:207-222 | no cached uuid becomes stale |
| UuidClient.Client.Rmdir | src/fs/LocofsClient.cpp:264-282 | the cache stays coherent if and only if nothing below the directory is left in it, so always for a directory without subdirectories |
| UuidClient.Client.ChildlessUncached | src/fs/LocofsClient.cpp:261-282 | nothing is cached below a directory without subdirectories |
| UuidClient.Client.Perform | src/fs/LocofsClient.cpp:207-282 | each call keeps the cache coherent and changes the name space as specified |
| UuidClient.Client.Session | src/fs/LocofsClient.cpp:207-493 | any session of mkdir, rmdir without subdirectories, lookups, evictions and expiries: coherent throughout, every lookup gets the server's answer of its moment |
| UuidClient.MakeAndRemove | src/fs/LocofsClient.cpp:207-465 | such a session from start-up, with its answers |
| UuidClient.Client.Readdir | src/fs/LocofsClient.cpp:350-366 | exactly the listing if and only if it has entries and no name contains a tab; one empty name for an empty directory |
| UuidClient.RmdirLeavesStale | src/fs/LocofsClient.cpp:264-282 | a session from start-up after which the cache is stale |
| UuidClient.Client.Evict | include/fs/lru_cache.h:116-139 | evictions keep the cache coherent |
| UuidClient.Client.Expire | include/fs/lru_cache.h:141-169 | expiries keep the cache coherent |
| LocofsClient.RequestKeysApart | src/fs/LocofsClient.cpp:401-406 | requests for different files differ as long as their keys fit |
| LocofsClient.Locofs.Create | src/fs/LocofsClient.cpp:394-412 | by path: an empty file under the path's key, or false if the parent has none |
| LocofsClient.Locofs.Unlink | src/fs/LocofsClient.cpp:284-299 | by path: exactly this file goes |
| LocofsClient.Locofs.Write | src/fs/LocofsClient.cpp:49-150 | by path, with both lookups of the key: the data and the size of this file, and harmless requests keep the files equal to the byte arrays |
| LocofsClient.Locofs.Read | src/fs/LocofsClient.cpp:152-205 | by path: count and known bytes of the file's array, 0 without a key or a file |
| LocofsClient.Cut | src/fs/LocofsClient.cpp:139-140 | a request carries the first 255 characters of a key |
| LocofsClient.Locofs.Mkdir | src/fs/LocofsClient.cpp:207-222 | the directory call changes no file |
| LocofsClient.Locofs.WriteBothReadFirst | src/fs/LocofsClient.cpp:94-193 | after a write to each of two files a read of the first delivers what was written to it, if only the hash values of the blocks in use differ modulo the capacity |
| TwoFiles.WriteTwoReadOne | src/fs/LocofsClient.cpp:41-222 | the same for the whole system from nothing |
| Barrier.StepKeepsInv | src/network/rpc.cpp:73-100 | on every step of node or network, requests and responses of each pair are neither lost nor invented |
| Barrier.RunKeepsInv | src/network/rpc.cpp:73-100 | so on every run of any number of nodes and rounds |
| Barrier.NobodyLeavesEarly | src/network/rpc.cpp:66-72 | a node that has left round r knows every node entered it |
| Barrier.MessagesAreExpected | src/network/rpc.cpp:83-94 | a polled completion is the only one, from the right peer and of the right type |
| Barrier.LeastPairMoves | src/network/rpc.cpp:77-99 | in the lexicographically least unfinished pair, one of the two nodes or a delivery between them can proceed |
| Barrier.SomebodyCanMove | src/network/rpc.cpp:77-99 | no deadlock once all nodes have entered |
| Barrier.StepAdvances | src/network/rpc.cpp:77-99 | every step advances one node's progress and no other's |
| Barrier.RunIsShort | src/network/rpc.cpp:77-99 | a run of r rounds has a bounded number of steps |
| Barrier.UnfinishedCanStep | src/network/rdma.cpp:361 | and is stuck only when all rounds are done, since senders are retried for ever |
| Barrier.RunCompletes | src/network/rpc.cpp:73-100 | every run can go on until every node has left the last round |

## Left out

- Foreign libraries (ISA-L, RDMA verbs, eRPC, Kyoto Cabinet, Boost, pthreads): their effect is written out, their code is not part of this model.
- Precomputed multiplication tables (`ec_init_tables`) and the flat layout of matrices: a matrix is a sequence of rows.
- Page sizes that K does not divide: the source would leave bytes of the page uncoded.
- Wrap-around of 64-bit offsets, sizes and counters, and the truncation of block numbers to `int` in `hashObj`: numbers are unbounded.
- `hashObj` itself: the hash is a parameter, and freedom from collisions among blocks in use is a hypothesis.
- Bitmaps of other widths than 32, the only one in use.
- Ecal.Store.ReadBlock: does not cover fewer than K live nodes, where the source goes on with uninitialised indices.
- Ecal.Store.GetReadRegion: does not yield and retry on an exhausted bitmap but requires a free slot.
- Ecal.Store.GetWriteRegion: does not yield and retry on an exhausted bitmap but requires a free slot.
- Ecal.Store.constructor: configuration, memory mapping and connection setup, and the exits on bad configuration, are preconditions.
- Threads inside one `ECAL` object, whose static pointers and encode buffer are not thread safe.
- FileClient.FileServer.Create: owner, the entry list of the directory and access times are left out, as are `utimens`, `chown`, `chmod` and the empty `rename` of FMStore.
- FileClient.FileServer.Remove: the entry list of the directory is left out.
- DirServer.DMStore.Mkdir: canonical paths only, because `parent_path` and `filename` on other texts are Boost's; lookups take any text.
- DirServer.DMStore.Rmdir: canonical paths only, for the same reason.
- DirServer.DMStore.Rename: canonical paths only, for the same reason. The inode stored when "/" itself is renamed has unspecified fields; they are zero here.
- DirServer.DMStore.GetAttr: does not rewrite the inode's ctime; `access` and `opendir` answer the same question without the inode.
- DirServer.EntryList.RemoveEntry: requires the name to be listed, which every run provides; otherwise the source erases the end iterator.
- `DMStore::chown` and `chmod` (which stores the caller's inode), ctimes and locking in the directory server.
- UuidClient.Client.GetUuid: canonical paths of at most 255 characters, the size of a request; longer ones would be cut. One client only.
- UuidClient.Client.Readdir: the uuid lookup and the entry lists of the file servers that follow are left out, as is the missing length of the response.
- UuidClient.Client.GetFileKey: canonical paths of at most 255 characters, likewise.
- UuidClient.Client.Mkdir: canonical paths of at most 255 characters, likewise.
- UuidClient.Client.Rmdir: canonical paths of at most 255 characters, likewise.
- LocofsClient.Locofs.Create: canonical paths of at most 255 characters, likewise. Keys are cut as the source cuts them.
- LocofsClient.Locofs.Unlink: canonical paths of at most 255 characters, likewise.
- LocofsClient.Locofs.Write: canonical paths of at most 255 characters, likewise.
- LocofsClient.Locofs.Read: canonical paths of at most 255 characters, likewise.
- RpcMachine: the request buffer that a refused call does not free.
- LruCache.Cache.LruExpire: the average expire time, the expiring thread and the unlocked window inside `set` are left out.
- Barrier: per-peer channels and work-request ids are as the checks in `syncAmongPeers` intend, while the posts currently pass null ids; only the barrier receives on the queue.
- `ReedSolomonCode::decode`, whose index slips defeat it, `clay.hpp`, the programs under src/test, code under `#if 0`, the `USE_RPC` branch.
- Connection setup and teardown, event polling, the degraded write log, signals, timing and `main` functions.
