/**
 From nothing to a file system in service: node memories with any contents, a store over them, all peers connected,
 an empty file server and a client.
 */
module StartUp {
  import opened GaloisField
  import opened Options
  import opened PageLayout
  import opened SlotBitmap
  import opened CauchyCode
  import opened Arithmetic
  import opened FileBlocks
  import opened FileRuns
  import opened Ecal
  import opened FileClient

  /** Areas of memory, with any contents. */
  method NewAreas(count: nat, length: nat) returns (areas: seq<array<byte>>)
    ensures |areas| == count && Distinct(areas)
    ensures forall i :: 0 <= i < count ==> fresh(areas[i]) && areas[i].Length == length
  {
    areas := [];
    for i := 0 to count
      invariant |areas| == i && Distinct(areas)
      invariant forall j :: 0 <= j < i ==> fresh(areas[j]) && areas[j].Length == length
    {
      var area := new byte[length];
      areas := areas + [area];
    }
  }

  /** The memories and regions of count nodes, and the encode buffer. */
  method NewMemories(count: nat, size: nat, bufferSize: nat)
    returns (memory: seq<array<byte>>, readRegion: seq<array<byte>>, writeRegion: seq<array<byte>>,
             encodeBuffer: array<byte>)
    ensures Separate(memory, readRegion, writeRegion, encodeBuffer)
    ensures |memory| == |readRegion| == |writeRegion| == count && encodeBuffer.Length == bufferSize
    ensures fresh(encodeBuffer) && forall i :: 0 <= i < count ==>
              fresh(memory[i]) && fresh(readRegion[i]) && fresh(writeRegion[i])
    ensures forall i :: 0 <= i < count ==> memory[i].Length == size
    ensures forall i :: 0 <= i < count ==> readRegion[i].Length == writeRegion[i].Length == SLOTS * PAGE
  {
    hide Distinct;
    memory := NewAreas(count, size);
    readRegion := NewAreas(count, SLOTS * PAGE);
    writeRegion := NewAreas(count, SLOTS * PAGE);
    encodeBuffer := new byte[bufferSize];
  }

  /** A store whose peers have not been connected yet. */
  method NewStore(k: nat, p: nat, poolLength: nat) returns (store: Store)
    requires 0 < k && k + p <= 256 && PAGE % k == 0 && 0 < poolLength
    ensures fresh(store) && store.Valid() && store.clusterSize == store.n == k + p && store.k == k
    ensures store.poolLength == poolLength
    ensures fresh(store.encodeBuffer) && |store.memory| == |store.readRegion| == |store.writeRegion| == k + p
    ensures forall i :: 0 <= i < k + p ==>
              fresh(store.memory[i]) && fresh(store.readRegion[i]) && fresh(store.writeRegion[i])
    ensures forall s :: 0 <= s < store.n ==> store.readBitmap[s] == store.writeBitmap[s] == ALL_FREE
    ensures forall s :: 0 <= s < store.n ==> store.forcedConnStat[s] == 0
  {
    hide Store.Valid, Separate;
    var len := PAGE / k;
    var memory, readRegion, writeRegion, encodeBuffer := NewMemories(k + p, poolLength * len, p * len);
    assert (k + p) % (k + p) == 0;
    store := new Store(k, p, 0, poolLength, memory, readRegion, writeRegion, encodeBuffer);
  }

  /** All peers are connected. */
  method ConnectAll(store: Store)
    requires store.Valid() && store.clusterSize == store.n && 0 < store.poolLength
    requires forall s :: 0 <= s < store.n ==> store.readBitmap[s] == store.writeBitmap[s] == ALL_FREE
    requires forall s :: 0 <= s < store.n ==> store.forcedConnStat[s] == 0
    modifies store`connected
    ensures store.Ready() && store.capacity == store.poolLength && store.LiveCount() == store.n
  {
    hide Store.Stored, Store.Contents;
    for i := 0 to store.n
      invariant store.Valid() && forall s :: 0 <= s < i ==> store.connected[s]
    {
      store.SetConnected(i, true);
    }
    store.RowIsIndex(0);
    AllLive(store.Live(), store.n);
    store.EnoughNodes();
  }

  lemma {:induction false} AllLive(live: set<nat>, n: nat)
    requires forall s: nat :: s < n ==> s in live
    ensures CountLive(live, n) == n
  {
    if n > 0 { AllLive(live, n - 1); }
  }

  /** The invariant that all sessions of requests start from is reached: no files, no blocks in use. */
  method Start(k: nat, p: nat, poolLength: nat, sid: int, hash: Hash) returns (client: Client)
    requires 0 < k && k + p <= 256 && PAGE % k == 0 && 0 < poolLength
    ensures client.Serves({}, map[]) && client.hash == hash && client.store.k == k
            && client.store.capacity == poolLength
    ensures client.store.LiveCount() == client.store.clusterSize == k + p
    ensures client.State().meta == Meta(map[], 0, sid)
    ensures fresh(client.store) && fresh(client.fm) && fresh(client.store.encodeBuffer)
    ensures |client.store.memory| == |client.store.readRegion| == |client.store.writeRegion| == k + p
    ensures forall i :: 0 <= i < k + p ==>
              fresh(client.store.memory[i]) && fresh(client.store.readRegion[i]) && fresh(client.store.writeRegion[i])
  {
    hide Store.Ready, Store.Valid, Store.LiveCount, Store.Pages, Store.Steady;
    var store := NewStore(k, p, poolLength);
    ConnectAll(store);
    var fm := new FileServer(sid);
    client := new Client(store, fm, hash);
  }

  /**
   A session from start-up: a file is created and one byte written to it, a peer is lost, and the byte is read back.
   */
  method FirstByte(client: Client, value: byte) returns (r: byte)
    requires client.Serves({}, map[]) && client.State().meta == Meta(map[], 0, 0)
    requires client.store.LiveCount() > client.store.k && 1 < client.store.clusterSize
    modifies client.store`readBitmap, client.store`writeBitmap, client.store`history, client.store`forcedConnStat
    modifies client.store.encodeBuffer, client.store.memory, client.store.readRegion, client.store.writeRegion
    modifies client.fm
    ensures r == value
  {
    hide Store.Ready, Store.LiveCount, Store.Pages, Store.Steady, Client.Serves, Client.State, SafeRun, SpecRun;
    var ops := [CreateOp("2:a"), WriteOp("2:a", [value], 1, 0), LoseOp(1)];
    ghost var used := {BlockId(FileId(0, 0), 0)};
    client.ServesReady({}, map[]);
    SafeExample(client.store.capacity, client.hash, used, ops, value);
    client.ServesMore({}, used, map[]);
    client.Session(ops, used, map[]);
    ghost var spec := SpecRun(map[], ops);
    client.ServesReady(used, spec);
    var buf := new byte[1];
    var n := client.Read("2:a", buf, 1, 0, spec);
    r := buf[0];
  }

  lemma SafeExample(capacity: nat, hash: Hash, used: set<BlockId>, ops: seq<Op>, value: byte)
    requires capacity > 0 && used == {BlockId(FileId(0, 0), 0)}
    requires ops == [CreateOp("2:a"), WriteOp("2:a", [value], 1, 0), LoseOp(1)]
    ensures CollisionFree(hash, used, capacity) && Client.Losses(ops) == 1
    ensures SafeRun(Meta(map[], 0, 0), capacity, hash, used, ops, false)
    ensures SpecRun(map[], ops) == map["2:a" := [Some(value)]]
  {
    var m0 := Meta(map[], 0, 0);
    var m1 := MetaStep(m0, ops[0]);
    var m2 := MetaStep(m1, ops[1]);
    assert Front(ops) == ops[..2] && Front(ops[..2]) == ops[..1] && Front(ops[..1]) == ops[..0] == [];
    assert MetaRun(m0, ops[..0]) == m0 && MetaRun(m0, ops[..1]) == m1 && MetaRun(m0, ops[..2]) == m2;
    assert SpecRun(map[], ops[..1]) == map["2:a" := []];
    assert Written([value], 1) == [value] && Patched([], [value], 1, 0) == [Some(value)];
    assert SpecRun(map[], ops[..2]) == map["2:a" := [Some(value)]];
    assert m1.content == map["2:a" := ContentInode(0, PAGE, 0, 0)];
    assert m2.content == map["2:a" := ContentInode(1, PAGE, 0, 0)];
    assert ops[1..] == [ops[1], ops[2]] && ops[1..][1..] == [ops[2]] && [ops[2]][1..] == [];
    assert Client.Losses([ops[2]]) == 1 && Client.Losses(ops[1..]) == 1;
    assert SafeStep(m0, capacity, hash, used, ops[0], false);
    assert SafeStep(m1, capacity, hash, used, ops[1], false);
    assert SafeStep(m2, capacity, hash, used, ops[2], false);
  }

  /** From nothing: three nodes, two of which are needed, a file, the loss of a peer, and the byte that was written. */
  method Demonstration(hash: Hash, value: byte) returns (r: byte)
    ensures r == value
  {
    hide Store.Ready, Store.LiveCount, Client.Serves, Client.State;
    var client := Start(2, 1, 1, 0, hash);
    r := FirstByte(client, value);
  }
}
