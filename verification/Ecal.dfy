/**
 The erasure-coded block store (include/ecal.hpp, src/ecal.cpp) over node memories, RDMA read and write regions
 and slot bitmaps (include/network/rdma.hpp), for any K data and P parity shards.

 One-sided RDMA reads and writes are memory copies that are complete once they have been polled.
 */
module Ecal {
  import opened GaloisField
  import opened LinearAlgebra
  import opened Options
  import opened CauchyCode
  import opened SlotBitmap
  import opened Arithmetic
  import opened PageLayout
  import opened ShardHistory

  /** An address: an area of memory and an offset into it. */
  datatype Pointer = Pointer(area: array<byte>, offset: nat)

  class Page {
    const data: array<byte>
    var index: nat

    constructor (index: nat)
      ensures this.index == index && fresh(data) && data.Length == PAGE
    {
      this.index := index;
      data := new byte[PAGE];
    }
  }

  /** memcpy. */
  method Copy(dst: array<byte>, offset: nat, bytes: seq<byte>)
    requires offset + |bytes| <= dst.Length
    modifies dst
    ensures dst[..] == Splice(old(dst[..]), offset, bytes)
  {
    var i := 0;
    while i < |bytes|
      invariant 0 <= i <= |bytes|
      invariant forall j :: 0 <= j < dst.Length ==>
        dst[j] == if offset <= j < offset + i then bytes[j - offset] else old(dst[j])
    {
      dst[offset + i] := bytes[i];
      i := i + 1;
    }
  }

  /** No two areas of memory overlap. */
  ghost predicate Separate(memory: seq<array<byte>>, readRegion: seq<array<byte>>, writeRegion: seq<array<byte>>,
                           encodeBuffer: array<byte>) {
    && Distinct(memory) && Distinct(readRegion) && Distinct(writeRegion)
    && (forall i, j :: 0 <= i < |memory| && 0 <= j < |readRegion| ==> memory[i] != readRegion[j])
    && (forall i, j :: 0 <= i < |memory| && 0 <= j < |writeRegion| ==> memory[i] != writeRegion[j])
    && (forall i, j :: 0 <= i < |readRegion| && 0 <= j < |writeRegion| ==> readRegion[i] != writeRegion[j])
    && encodeBuffer !in memory && encodeBuffer !in readRegion && encodeBuffer !in writeRegion
  }

  class Store {
    const k: nat
    const p: nat
    const n: nat
    const len: nat                         // BlockTy::size
    const clusterSize: nat
    const self: nat                        // myNodeConf->id
    const poolLength: nat                  // allocTable->getCapacity(), the same on every node
    const capacity: nat
    const encodeMatrix: Matrix
    const encodeBuffer: array<byte>
    const memory: seq<array<byte>>         // the memory of every node
    const readRegion: seq<array<byte>>     // per peer: SLOTS slots of PAGE bytes
    const writeRegion: seq<array<byte>>
    var readBitmap: seq<Word>
    var writeBitmap: seq<Word>
    var forcedConnStat: seq<int>
    var connected: seq<bool>
    ghost var history: seq<Write>

    // ---------- layout ----------

    ghost predicate Layout() {
      && 0 < k && n == k + p && n <= 256
      && k * len == PAGE && 0 < len
      && 0 < clusterSize && clusterSize % n == 0 && self < clusterSize
      && capacity == (clusterSize / n * k * poolLength) / (PAGE / len)
      && encodeMatrix == EncodeMatrix(k, p)
      && encodeBuffer.Length == p * len
      && |memory| == |readRegion| == |writeRegion| == clusterSize
      && (forall i :: 0 <= i < clusterSize ==> memory[i].Length == poolLength * len)
      && (forall i :: 0 <= i < clusterSize ==>
            readRegion[i].Length == SLOTS * PAGE && writeRegion[i].Length == SLOTS * PAGE)
      && Separate(memory, readRegion, writeRegion, encodeBuffer)
    }

    lemma LayoutFacts()
      requires Layout()
      ensures len <= PAGE && n <= clusterSize && PAGE / len == k && 0 < clusterSize / n
      ensures capacity == clusterSize / n * poolLength
    {
      var q := clusterSize / n;
      hide Separate, EncodeMatrix;
      assert clusterSize == q * n;
      Monotone(1, k, len);
      DivisionUnique(k, 0, len, PAGE);
      CapacityForm(q, k, poolLength);
      if q == 0 { assert false; }
      Monotone(1, q, n);
    }

    static lemma CapacityForm(q: nat, k: nat, m: nat)
      requires k > 0
      ensures (q * k * m) / k == q * m
    {
      assert q * k * m == q * m * k;
      DivisionUnique(q * m, 0, k, q * k * m);
    }

    static lemma RegionOfSlot(idx: nat)
      requires idx < SLOTS
      ensures idx * PAGE / PAGE == idx && idx * PAGE + PAGE <= SLOTS * PAGE
    {
    }

    /** getDataPos(index).row; the start node is always 0. */
    function Row(index: nat): (row: nat)
      requires Layout()
      ensures clusterSize / n > 0 && row == index / (clusterSize / n)
    {
      LayoutFacts();
      index / (clusterSize / n)
    }

    // ---------- construction ----------

    /**
     ECAL::ECAL, given the node memories, regions and encode buffer that the RDMA layer has set up. The source
     exits if n does not divide the cluster size. Whatever the memories hold counts as never written, except that
     zeroed memories are the encoding of zero pages.
     */
    constructor (k: nat, p: nat, self: nat, poolLength: nat,
                 memory: seq<array<byte>>, readRegion: seq<array<byte>>, writeRegion: seq<array<byte>>,
                     encodeBuffer: array<byte>)
      requires 0 < k && k + p <= 256 && PAGE % k == 0
      requires 0 < |memory| == |readRegion| == |writeRegion| && |memory| % (k + p) == 0 && self < |memory|
      requires forall i :: 0 <= i < |memory| ==> memory[i].Length == poolLength * (PAGE / k)
      requires forall i :: 0 <= i < |memory| ==>
               readRegion[i].Length == SLOTS * PAGE && writeRegion[i].Length == SLOTS * PAGE
      requires encodeBuffer.Length == p * (PAGE / k)
      requires Separate(memory, readRegion, writeRegion, encodeBuffer)
      ensures Valid()
      ensures this.k == k && this.p == p && this.self == self && this.poolLength == poolLength
      ensures n == k + p && clusterSize == |memory|
      ensures this.memory == memory && this.readRegion == readRegion && this.writeRegion == writeRegion
      ensures this.encodeBuffer == encodeBuffer
      ensures Zeroed(memory) ==> history == Initial(poolLength, ZeroPage(), AllNodes(n))
      ensures !Zeroed(memory) ==> history == []
      ensures forall s :: 0 <= s < clusterSize ==> readBitmap[s] == writeBitmap[s] == ALL_FREE
      ensures forall s :: 0 <= s < clusterSize ==> forcedConnStat[s] == 0 && !connected[s]
    {
      var len, n := PAGE / k, k + p;
      PageSplit(k);
      this.k, this.p, this.n, this.len := k, p, n, len;
      this.clusterSize, this.self, this.poolLength := |memory|, self, poolLength;
      this.capacity := (|memory| / n * k * poolLength) / (PAGE / len);
      this.encodeMatrix := EncodeMatrix(k, p);
      this.memory, this.readRegion, this.writeRegion := memory, readRegion, writeRegion;
      this.encodeBuffer := encodeBuffer;
      readBitmap := seq(|memory|, _ => ALL_FREE);
      writeBitmap := seq(|memory|, _ => ALL_FREE);
      forcedConnStat := seq(|memory|, _ => 0);
      connected := seq(|memory|, _ => false);
      new;
      history := if Zeroed(memory) then Initial(poolLength, ZeroPage(), AllNodes(n)) else [];
      hide Stored, EncodeMatrix, Initial, Separate, Shaped, Zeroed;
      assert Layout();
      hide Layout;
      InitiallyValid();
    }

    static ghost predicate Zeroed(memory: seq<array<byte>>)
      reads memory
    {
      forall i, b :: 0 <= i < |memory| && 0 <= b < memory[i].Length ==> memory[i][b] == 0
    }

    /** A store whose memories have just been set up is valid. */
    lemma InitiallyValid()
      requires Layout()
      requires history == if Zeroed(memory) then Initial(poolLength, ZeroPage(), AllNodes(n)) else []
      requires |readBitmap| == |writeBitmap| == |forcedConnStat| == |connected| == clusterSize
      ensures Valid()
    {
      LayoutFacts();
      if Zeroed(memory) {
        hide Stored, Initial;
        InitiallyStored(Contents());
      } else {
        NothingStored(Contents());
      }
    }

    lemma NothingStored(c: seq<seq<byte>>)
      requires Shaped(c) && n <= clusterSize
      ensures Stored(c, [])
    {
    }

    static lemma PageSplit(k: nat)
      requires 0 < k && PAGE % k == 0
      ensures k * (PAGE / k) == PAGE && 0 < PAGE / k && PAGE / (PAGE / k) == k
    {
      var q := PAGE / k;
      assert PAGE == q * k;
      assert q != 0;
      DivisionUnique(k, 0, q, PAGE);
    }

    ghost function ZeroPage(): (d: seq<Vec>)
      ensures BlocksOf(d, k, len) && forall i, b :: 0 <= i < k && 0 <= b < len ==> d[i][b] == 0
    {
      seq(k, _ => seq(len, _ => 0))
    }

    /** The shards of a zero page are zero. */
    lemma ZeroShard(s: nat, b: nat)
      requires b < len
      ensures Shard(ZeroPage(), s, len)[b] == 0
    {
      hide Add, Mul, Inverse, Dot, ToByte;
      DotZero(EncodeRow(k, s), Slice(ZeroPage(), b), k);
    }

    /** Zeroed memory holds the shards of zero pages. */
    lemma InitiallyStored(c: seq<seq<byte>>)
      requires Layout() && n <= clusterSize && Shaped(c)
      requires forall s, b :: 0 <= s < |c| && 0 <= b < |c[s]| ==> c[s][b] == 0
      ensures Stored(c, Initial(poolLength, ZeroPage(), AllNodes(n)))
    {
      hide Shard, LastOn, LastTo;
      var h := Initial(poolLength, ZeroPage(), AllNodes(n));
      forall r, s | 0 <= r < poolLength && 0 <= s < n && LastOn(h, r, s).Some?
        ensures Cell(c, s, r) == Shard(LastOn(h, r, s).value.data, s, len)
      {
        LastToInitial(poolLength, ZeroPage(), AllNodes(n), r, s);
        ItemsApart(r, poolLength, len);
        forall b | 0 <= b < len ensures Cell(c, s, r)[b] == Shard(ZeroPage(), s, len)[b] { ZeroShard(s, b); }
      }
    }

    // ---------- state ----------

    /** isPeerAlive: this node always, other nodes by their mark or, without one, by their connection. */
    predicate IsAlive(peer: nat): (alive: bool)
      requires |forcedConnStat| == |connected| == clusterSize && peer < clusterSize
      reads this`forcedConnStat, this`connected
      ensures alive <==> peer == self || forcedConnStat[peer] > 0 || (forcedConnStat[peer] == 0 && connected[peer])
    {
      peer == self || if forcedConnStat[peer] != 0 then forcedConnStat[peer] > 0 else connected[peer]
    }

    ghost function Live(): (live: set<nat>)
      requires |forcedConnStat| == |connected| == clusterSize && n <= clusterSize
      reads this`forcedConnStat, this`connected
      ensures forall s :: s in live <==> 0 <= s < n && IsAlive(s)
      ensures forall s :: s in live <==>
              0 <= s < n && (s == self || forcedConnStat[s] > 0 || (forcedConnStat[s] == 0 && connected[s]))
    {
      set s | 0 <= s < n && IsAlive(s)
    }

    /** The live nodes with one of them set to be alive or not. This node cannot be marked dead. */
    ghost function WithPeer(live: set<nat>, peer: nat, alive: bool): set<nat> {
      if peer >= n then live else if alive || peer == self then live + {peer} else live - {peer}
    }

    /** The contents of all node memories. */
    ghost function Contents(): (c: seq<seq<byte>>)
      reads memory
      ensures |c| == |memory| && forall s :: 0 <= s < |memory| ==> c[s] == memory[s][..]
    {
      ContentsTo(|memory|)
    }

    ghost function ContentsTo(i: nat): (c: seq<seq<byte>>)
      requires i <= |memory|
      reads memory
      ensures |c| == i && forall s :: 0 <= s < i ==> c[s] == memory[s][..]
    {
      if i == 0 then [] else ContentsTo(i - 1) + [memory[i - 1][..]]
    }

    ghost predicate Shaped(c: seq<seq<byte>>) {
      |c| == clusterSize && forall s :: 0 <= s < |c| ==> |c[s]| == poolLength * len
    }

    /** The shard a node keeps for a row. */
    ghost function Cell(c: seq<seq<byte>>, node: nat, row: nat): (r: seq<byte>)
      requires Shaped(c) && node < clusterSize && row < poolLength
      ensures |r| == len
    {
      PageBlock(c[node], row, poolLength, len)
    }

    /** Every node holds, for every row, its shard of the last write that reached it. */
    ghost predicate Stored(c: seq<seq<byte>>, h: seq<Write>) {
      && Shaped(c) && n <= clusterSize
      && (forall w :: w in h ==> BlocksOf(w.data, k, len))
      && (forall row, s {:trigger LastOn(h, row, s)} ::
            0 <= row < poolLength && 0 <= s < n && LastOn(h, row, s).Some? ==>
            Cell(c, s, row) == Shard(LastOn(h, row, s).value.data, s, len))
    }

    ghost predicate Wired()
      reads this
    {
      && Layout()
      && n <= clusterSize
      && |readBitmap| == |writeBitmap| == |forcedConnStat| == |connected| == clusterSize
    }

    ghost predicate Valid()
      reads this, memory
    {
      Wired() && Stored(Contents(), history)
    }

    // ---------- liveness: the environment ----------

    /** __markAsAlive (1), __markAsDead (-1) and __cancelMarking (0). */
    method MarkPeer(peer: nat, stat: int)
      requires Valid() && peer < clusterSize
      modifies this`forcedConnStat
      ensures Valid() && forcedConnStat == old(forcedConnStat)[peer := stat]
      ensures stat > 0 ==> Live() == WithPeer(old(Live()), peer, true)
      ensures stat < 0 ==> Live() == WithPeer(old(Live()), peer, false)
      ensures stat == 0 ==> Live() == WithPeer(old(Live()), peer, connected[peer])
    {
      forcedConnStat := forcedConnStat[peer := stat];
    }

    /** A connection is established or lost; under a mark that changes nothing. */
    method SetConnected(peer: nat, up: bool)
      requires Valid() && peer < clusterSize
      modifies this`connected
      ensures Valid() && connected == old(connected)[peer := up]
      ensures Live() == if forcedConnStat[peer] == 0 then WithPeer(old(Live()), peer, up) else old(Live())
    {
      connected := connected[peer := up];
    }

    // ---------- regions ----------

    method GetReadRegion(peer: nat) returns (base: Pointer)
      requires Wired() && peer < clusterSize && readBitmap[peer] != 0
      modifies this`readBitmap
      ensures 0 <= AllocIndex(old(readBitmap[peer])) < SLOTS
      ensures readBitmap == old(readBitmap)[peer := AllocWord(old(readBitmap[peer]))]
      ensures base == Pointer(readRegion[peer], AllocIndex(old(readBitmap[peer])) * PAGE)
    {
      AllocTakesLowest(readBitmap[peer]);
      var word, idx := AllocBit(readBitmap[peer]);
      readBitmap := readBitmap[peer := word];
      base := Pointer(readRegion[peer], idx * PAGE);
    }

    /** freeReadRegion and freeWriteRegion: the slot is recovered from the address. */
    static method FreedBitmap(bitmaps: seq<Word>, peer: nat, base: Pointer) returns (r: seq<Word>)
      requires peer < |bitmaps|
      ensures r == bitmaps[peer := FreeWord(bitmaps[peer], base.offset / PAGE)]
    {
      var idx := base.offset / PAGE;
      var word := FreeBit(bitmaps[peer], idx);
      r := bitmaps[peer := word];
    }

    method GetWriteRegion(peer: nat) returns (base: Pointer)
      requires Wired() && peer < clusterSize && writeBitmap[peer] != 0
      modifies this`writeBitmap
      ensures 0 <= AllocIndex(old(writeBitmap[peer])) < SLOTS
      ensures writeBitmap == old(writeBitmap)[peer := AllocWord(old(writeBitmap[peer]))]
      ensures base == Pointer(writeRegion[peer], AllocIndex(old(writeBitmap[peer])) * PAGE)
    {
      AllocTakesLowest(writeBitmap[peer]);
      var word, idx := AllocBit(writeBitmap[peer]);
      writeBitmap := writeBitmap[peer := word];
      base := Pointer(writeRegion[peer], idx * PAGE);
    }

    // ---------- writing ----------

    /** Stores one shard on a live peer, through one of the peer's write regions. */
    method PutRemote(peer: nat, row: nat, blk: seq<byte>)
      requires Wired() && peer < clusterSize && row < poolLength && |blk| == len
      requires writeBitmap[peer] != 0
      modifies this`writeBitmap, memory[peer], writeRegion[peer]
      ensures row * len + len <= poolLength * len
      ensures memory[peer][..] == Splice(old(memory[peer][..]), row * len, blk)
      ensures writeBitmap == old(writeBitmap)
    {
      hide AllocIndex, AllocWord, FreeWord;
      LayoutFacts();
      ItemsApart(row, poolLength, len);
      FreeUndoesAlloc(writeBitmap[peer]);
      var base := GetWriteRegion(peer);
      RegionOfSlot(AllocIndex(old(writeBitmap[peer])));
      Copy(base.area, base.offset, blk);
      assert base.area[..][base.offset..base.offset + len] == blk;
      Copy(memory[peer], row * len, base.area[base.offset..base.offset + len]);
      writeBitmap := FreedBitmap(writeBitmap, peer, base);
    }

    /** Stores one shard on one node, if it is alive. */
    method PutShard(peer: nat, row: nat, blk: seq<byte>)
      requires Wired() && peer < clusterSize && row < poolLength && |blk| == len
      requires writeBitmap[peer] != 0
      modifies this`writeBitmap, memory[peer], writeRegion[peer]
      ensures row * len + len <= poolLength * len
      ensures memory[peer][..] ==
              if IsAlive(peer) then Splice(old(memory[peer][..]), row * len, blk) else old(memory[peer][..])
      ensures writeBitmap == old(writeBitmap)
    {
      ItemsApart(row, poolLength, len);
      if peer == self {
        Copy(memory[self], row * len, blk);
      } else if IsAlive(peer) {
        PutRemote(peer, row, blk);
      }
    }

    /** The shards of a page: its data blocks, then the parity blocks in the encode buffer. */
    method EncodePage(page: Page) returns (blks: seq<seq<byte>>)
      requires Wired() && page.data.Length == PAGE && page.data != encodeBuffer
      modifies encodeBuffer
      ensures |blks| == n && forall s :: 0 <= s < n ==> blks[s] == Shard(PageBlocks(page.data[..], k, len), s, len)
      ensures Contents() == old(Contents())
    {
      hide Mul, Inverse, Add, Dot, ToByte, Shard, Combine;
      var data := PageBlocks(page.data[..], k, len);
      blks := data;
      forall s | 0 <= s < k ensures blks[s] == Shard(data, s, len) { DataShard(data, s, len); }
      var i := 0;
      while i < p
        invariant 0 <= i <= p && |blks| == k + i
        invariant page.data[..] == old(page.data[..]) && Contents() == old(Contents())
        invariant forall s :: 0 <= s < k + i ==> blks[s] == Shard(data, s, len)
      {
        ItemsApart(i, p, len);
        ParityShard(data, i);
        Copy(encodeBuffer, i * len, Combine(encodeMatrix[k + i], data, len));
        blks := blks + [encodeBuffer[i * len..i * len + len]];
        i := i + 1;
      }
    }

    lemma ParityShard(data: seq<Vec>, i: nat)
      requires Layout() && BlocksOf(data, k, len) && i < p
      ensures Combine(encodeMatrix[k + i], data, len) == Shard(data, k + i, len)
    {
    }

    /** Node memories after a page's shards have been stored on the live nodes. */
    ghost function AfterWrite(c: seq<seq<byte>>, w: Write): (r: seq<seq<byte>>)
      requires Shaped(c) && w.row < poolLength && BlocksOf(w.data, k, len)
      ensures Shaped(r)
    {
      ItemsApart(w.row, poolLength, len);
      seq(clusterSize, s requires 0 <= s < clusterSize =>
        if s in w.live then Splice(c[s], w.row * len, Shard(w.data, s, len)) else c[s])
    }

    lemma AfterWriteAt(c: seq<seq<byte>>, w: Write, s: nat)
      requires Shaped(c) && w.row < poolLength && BlocksOf(w.data, k, len) && s < clusterSize
      ensures w.row * len + len <= poolLength * len
      ensures AfterWrite(c, w)[s] == if s in w.live then Splice(c[s], w.row * len, Shard(w.data, s, len)) else c[s]
    {
      ItemsApart(w.row, poolLength, len);
    }

    /** A write changes exactly the cells of its row on the live nodes. */
    lemma CellAfterWrite(c: seq<seq<byte>>, w: Write, s: nat, r: nat)
      requires Shaped(c) && w.row < poolLength && BlocksOf(w.data, k, len) && s < clusterSize && r < poolLength
      ensures Cell(AfterWrite(c, w), s, r) == if r == w.row && s in w.live then Shard(w.data, s, len) else Cell(c, s, r)
    {
      hide Add, Mul, Inverse, Dot, ToByte, Shard;
      ItemsApart(w.row, poolLength, len);
      ItemsApart(r, poolLength, len);
      if s in w.live { SpliceBlock(c[s], w.row, r, len, Shard(w.data, s, len)); }
    }

    lemma StoredAfterWrite(c: seq<seq<byte>>, h: seq<Write>, w: Write)
      requires Stored(c, h) && w.row < poolLength && BlocksOf(w.data, k, len)
      ensures Stored(AfterWrite(c, w), h + [w])
    {
      hide Add, Mul, Inverse, Dot, ToByte, Shard, Cell, AfterWrite;
      forall r, s | 0 <= r < poolLength && 0 <= s < n && LastOn(h + [w], r, s).Some?
        ensures Cell(AfterWrite(c, w), s, r) == Shard(LastOn(h + [w], r, s).value.data, s, len)
      {
        LastOnAppend(h, w, r, s);
        CellAfterWrite(c, w, s, r);
      }
    }

    /** Node memories after a run of writes; the liveness at each write is arbitrary. */
    ghost function AfterWrites(c: seq<seq<byte>>, ws: seq<Write>): (r: seq<seq<byte>>)
      requires Shaped(c) && forall w :: w in ws ==> w.row < poolLength && BlocksOf(w.data, k, len)
      ensures Shaped(r)
    {
      if ws == [] then c else AfterWrite(AfterWrites(c, ws[..|ws| - 1]), ws[|ws| - 1])
    }

    /** After any run, a node holds its shard of the last write to the row that found it alive. */
    lemma {:induction false} ShardAfterRun(c: seq<seq<byte>>, ws: seq<Write>, s: nat, row: nat)
      requires Shaped(c) && s < clusterSize && row < poolLength
      requires forall w :: w in ws ==> w.row < poolLength && BlocksOf(w.data, k, len)
      ensures Cell(AfterWrites(c, ws), s, row) ==
              match LastOn(ws, row, s) case Some(w) => Shard(w.data, s, len) case None => Cell(c, s, row)
    {
      hide Shard, Cell, AfterWrite;
      if ws != [] {
        var front, last := ws[..|ws| - 1], ws[|ws| - 1];
        ShardAfterRun(c, front, s, row);
        CellAfterWrite(AfterWrites(c, front), last, s, row);
      }
    }

    lemma MemoryApart(i: nat)
      requires Layout() && i < clusterSize
      ensures forall s :: 0 <= s < clusterSize && s != i ==> memory[s] != memory[i]
      ensures forall s :: 0 <= s < clusterSize ==> memory[s] != writeRegion[i]
    {
    }

    /** The storing loop of writeBlock. */
    method StoreShards(row: nat, blks: seq<seq<byte>>, ghost w: Write)
      requires Wired() && row == w.row < poolLength && BlocksOf(w.data, k, len) && w.live == Live()
      requires |blks| == n && forall s :: 0 <= s < n ==> blks[s] == Shard(w.data, s, len)
      requires forall s :: 0 <= s < clusterSize ==> writeBitmap[s] != 0
      modifies this`writeBitmap, memory, writeRegion
      ensures Shaped(old(Contents())) && Contents() == AfterWrite(old(Contents()), w)
      ensures writeBitmap == old(writeBitmap)
    {
      hide Add, Mul, Inverse, Dot, ToByte, Shard, AfterWrite, EncodeMatrix, Cell, Separate, Splice;
      ghost var before := Contents();
      ghost var after := AfterWrite(before, w);
      var i := 0;
      while i < n
        invariant 0 <= i <= n
        invariant writeBitmap == old(writeBitmap)
        invariant forall s :: 0 <= s < clusterSize ==> memory[s][..] == if s < i then after[s] else before[s]
      {
        AfterWriteAt(before, w, i);
        MemoryApart(i);
        PutShard(i, row, blks[i]);
        i := i + 1;
      }
      forall s | n <= s < clusterSize ensures after[s] == before[s] { AfterWriteAt(before, w, s); }
      assert Contents() == after;
    }

    /** writeBlock: encodes the page and stores a shard on every live node of its row. */
    method WriteBlock(page: Page)
      requires Valid()
      requires page.index < capacity && page.data.Length == PAGE
      requires page.data != encodeBuffer && page.data !in memory && page.data !in writeRegion
      requires forall s :: 0 <= s < clusterSize ==> writeBitmap[s] != 0
      modifies this`writeBitmap, this`history, encodeBuffer, memory, writeRegion
      ensures Valid()
      ensures Row(page.index) < poolLength
      ensures history == old(history) + [Write(Row(page.index), PageBlocks(page.data[..], k, len), Live())]
      ensures Contents() == AfterWrite(old(Contents()), history[|history| - 1])
      ensures writeBitmap == old(writeBitmap)
    {
      hide Add, Mul, Inverse, Dot, ToByte, Shard, Stored, AfterWrite, Cell, Separate, Contents, EncodeMatrix;
      LayoutFacts();
      RowBound(page.index, clusterSize / n, poolLength);
      var row := page.index / (clusterSize / n);
      ghost var w := Write(row, PageBlocks(page.data[..], k, len), Live());
      var blks := EncodePage(page);
      StoreShards(row, blks, w);
      StoredAfterWrite(old(Contents()), history, w);
      history := history + [w];
    }

    // ---------- reading ----------

    /** The selection loop of readBlock: the first k live nodes, and the dead data indices on the way. */
    method SelectNodes() returns (decodeIndex: seq<nat>, errIndex: seq<nat>)
      requires Wired() && CountLive(Live(), n) >= k
      ensures decodeIndex == Chosen(Live(), k, n)
      ensures errIndex == Dead(Live(), k, n)
    {
      hide Layout, IsAlive;
      ghost var live := Live();
      decodeIndex, errIndex := [], [];
      var i, j := 0, 0;
      while i < k && j < n
        invariant 0 <= i <= j <= n && i <= k
        invariant decodeIndex == Chosen(live, k, j) && |decodeIndex| == i
        invariant errIndex == Dead(live, k, j)
      {
        if IsAlive(j) {
          decodeIndex := decodeIndex + [j];
          i := i + 1;
        } else if j < k {
          errIndex := errIndex + [j];
        }
        j := j + 1;
      }
      ChosenStops(live, k, j, n);
    }

    ghost predicate GoodPointer(base: Pointer) {
      base.offset + len <= base.area.Length
    }

    /** The bytes a pointer refers to. */
    function Bytes(base: Pointer): (r: seq<byte>)
      requires GoodPointer(base)
      reads base.area
      ensures |r| == len
    {
      base.area[base.offset..base.offset + len]
    }

    /** Reads a shard from a peer, through one of the peer's read regions. */
    method FetchRemote(peer: nat, row: nat) returns (base: Pointer)
      requires Wired() && peer < clusterSize && row < poolLength && readBitmap[peer] != 0
      modifies this`readBitmap, readRegion[peer]
      ensures 0 <= AllocIndex(old(readBitmap[peer])) < SLOTS
      ensures readBitmap == old(readBitmap)[peer := AllocWord(old(readBitmap[peer]))]
      ensures base == Pointer(readRegion[peer], AllocIndex(old(readBitmap[peer])) * PAGE)
      ensures GoodPointer(base) && Shaped(Contents()) && Bytes(base) == Cell(Contents(), peer, row)
    {
      hide AllocIndex, AllocWord, FreeWord;
      LayoutFacts();
      ItemsApart(row, poolLength, len);
      base := GetReadRegion(peer);
      RegionOfSlot(AllocIndex(old(readBitmap[peer])));
      Copy(base.area, base.offset, memory[peer][row * len..row * len + len]);
      assert base.area[..][base.offset..base.offset + len] == memory[peer][..][row * len..row * len + len];
    }

    /** Reads a node's shard of a row: from a peer through a read region, or in place on this node. */
    method FetchShard(peer: nat, row: nat) returns (base: Pointer)
      requires Wired() && peer < clusterSize && row < poolLength && readBitmap[peer] != 0
      modifies this`readBitmap, readRegion[peer]
      ensures readBitmap == Take(old(readBitmap), peer)
      ensures base == Source(old(readBitmap), peer, row)
      ensures GoodPointer(base) && Shaped(Contents()) && Bytes(base) == Cell(Contents(), peer, row)
      ensures Contents() == old(Contents())
    {
      hide AllocIndex, AllocWord, FreeWord;
      ItemsApart(row, poolLength, len);
      if peer != self {
        base := FetchRemote(peer, row);
      } else {
        base := Pointer(memory[self], row * len);
      }
      assert Contents() == old(Contents());
    }

    /** Where readBlock finds the shard of a node. */
    ghost function Source(before: seq<Word>, peer: nat, row: nat): Pointer
      requires Layout() && |before| == clusterSize && peer < clusterSize
    {
      if peer == self then Pointer(memory[self], row * len)
      else if AllocIndex(before[peer]) < 0 then Pointer(readRegion[peer], 0)
      else Pointer(readRegion[peer], AllocIndex(before[peer]) * PAGE)
    }

    /** The read bitmaps while one region of each peer in nodes is taken. */
    ghost function Taken(before: seq<Word>, nodes: set<nat>): (r: seq<Word>)
      ensures |r| == |before|
      ensures forall s :: 0 <= s < |before| ==>
              r[s] == if s in nodes && s != self then AllocWord(before[s]) else before[s]
    {
      seq(|before|, s requires 0 <= s < |before| => if s in nodes && s != self then AllocWord(before[s]) else before[s])
    }

    /** One region of a peer taken. */
    ghost function Take(bitmaps: seq<Word>, peer: nat): seq<Word>
      requires peer < |bitmaps|
    {
      if peer == self then bitmaps else bitmaps[peer := AllocWord(bitmaps[peer])]
    }

    lemma TakeStep(before: seq<Word>, nodes: set<nat>, peer: nat)
      requires peer < |before| && peer !in nodes
      ensures Take(Taken(before, nodes), peer) == Taken(before, nodes + {peer})
      ensures Taken(before, {}) == before && Taken(before, nodes)[peer] == before[peer]
    {
      hide AllocWord;
    }

    lemma SourceApart(before: seq<Word>, peer: nat, row: nat, other: nat)
      requires Layout() && |before| == clusterSize && peer < clusterSize && other < clusterSize && peer != other
      ensures Source(before, peer, row).area != readRegion[other]
    {
    }

    lemma SourceOutside(before: seq<Word>, peer: nat, row: nat, data: array<byte>)
      requires Layout() && |before| == clusterSize && peer < clusterSize && data !in memory && data !in readRegion
      ensures Source(before, peer, row).area != data
    {
    }

    lemma SourceStep(before: seq<Word>, nodes: set<nat>, peer: nat, row: nat)
      requires Layout() && |before| == clusterSize && peer < clusterSize && peer !in nodes
      ensures Source(Taken(before, nodes), peer, row) == Source(before, peer, row)
    {
    }

    /** Freeing by address gives back the slot that was taken. */
    lemma FreeStep(before: seq<Word>, nodes: set<nat>, peer: nat, row: nat)
      requires Layout() && |before| == clusterSize && peer < clusterSize && peer !in nodes && peer != self
               && before[peer] != 0
      ensures var t := Taken(before, nodes + {peer});
              t[peer := FreeWord(t[peer], Source(before, peer, row).offset / PAGE)] == Taken(before, nodes)
    {
      FreeUndoesAlloc(before[peer]);
      AllocTakesLowest(before[peer]);
      RegionOfSlot(AllocIndex(before[peer]));
      hide AllocIndex, AllocWord, FreeWord;
      TakeStep(before, nodes, peer);
    }

    static lemma RangeStep(rows: seq<nat>, lo: nat, hi: nat)
      requires lo < hi <= |rows| && Distinct(rows)
      ensures Range(rows, lo, hi) == Range(rows, lo, hi - 1) + {rows[hi - 1]}
              && rows[hi - 1] !in Range(rows, lo, hi - 1)
      ensures Range(rows, lo, hi) == Range(rows, lo + 1, hi) + {rows[lo]} && rows[lo] !in Range(rows, lo + 1, hi)
      ensures Range(rows, lo, lo) == Range(rows, hi, hi) == {}
    {
    }

    static ghost function Range(rows: seq<nat>, lo: nat, hi: nat): (r: set<nat>)
      requires lo <= hi <= |rows|
    {
      set x | lo <= x < hi :: rows[x]
    }

    method FetchShards(rows: seq<nat>, row: nat) returns (src: seq<Pointer>)
      requires Wired() && row < poolLength && Distinct(rows)
      requires forall i :: 0 <= i < |rows| ==> rows[i] < clusterSize
      requires forall s :: 0 <= s < clusterSize ==> readBitmap[s] != 0
      modifies this`readBitmap, readRegion
      ensures readBitmap == Taken(old(readBitmap), Range(rows, 0, |rows|))
      ensures Contents() == old(Contents()) && Shaped(Contents())
      ensures |src| == |rows| && forall i :: 0 <= i < |rows| ==> src[i] == Source(old(readBitmap), rows[i], row)
      ensures forall i :: 0 <= i < |rows| ==> GoodPointer(src[i]) && Bytes(src[i]) == Cell(Contents(), rows[i], row)
    {
      hide AllocIndex, AllocWord, FreeWord, Cell, Taken, Range, Source, Take;
      NothingTaken(readBitmap, rows);
      ghost var c := Contents();
      ghost var before := readBitmap;
      src := [];
      var i := 0;
      assert Shaped(c);
      while i < |rows|
        invariant 0 <= i <= |rows| && Wired() && |src| == i
        invariant readBitmap == Taken(before, Range(rows, 0, i))
        invariant Contents() == c
        invariant forall x :: 0 <= x < i ==> src[x] == Source(before, rows[x], row)
        invariant forall x :: 0 <= x < i ==> GoodPointer(src[x]) && Bytes(src[x]) == Cell(c, rows[x], row)
      {
        var peer := rows[i];
        RangeStep(rows, 0, i + 1);
        TakeStep(before, Range(rows, 0, i), peer);
        forall x | 0 <= x < i ensures src[x].area != readRegion[peer] { SourceApart(before, rows[x], row, peer); }
        SourceStep(before, Range(rows, 0, i), peer, row);
        var base := FetchShard(peer, row);
        src := src + [base];
        i := i + 1;
      }
    }

    /** The releasing loop of readBlock. */
    method ReleaseRegions(rows: seq<nat>, row: nat, src: seq<Pointer>, ghost before: seq<Word>)
      requires Wired() && Distinct(rows) && |before| == clusterSize && |src| == |rows|
      requires forall i :: 0 <= i < |rows| ==> rows[i] < clusterSize && src[i] == Source(before, rows[i], row)
      requires forall s :: 0 <= s < clusterSize ==> before[s] != 0
      requires readBitmap == Taken(before, Range(rows, 0, |rows|))
      modifies this`readBitmap
      ensures readBitmap == before
    {
      hide AllocIndex, AllocWord, FreeWord, Taken, Range, Source;
      var i := 0;
      while i < |rows|
        invariant 0 <= i <= |rows|
        invariant readBitmap == Taken(before, Range(rows, i, |rows|))
      {
        var peer := rows[i];
        RangeStep(rows, i, |rows|);
        TakeStep(before, Range(rows, i + 1, |rows|), peer);
        if peer != self {
          FreeStep(before, Range(rows, i + 1, |rows|), peer, row);
          readBitmap := FreedBitmap(readBitmap, peer, src[i]);
        }
        i := i + 1;
      }
      NothingTaken(before, rows);
    }

    lemma NothingTaken(before: seq<Word>, rows: seq<nat>)
      ensures Taken(before, Range(rows, |rows|, |rows|)) == before
      ensures Taken(before, Range(rows, 0, 0)) == before
    {
      assert Range(rows, |rows|, |rows|) == Range(rows, 0, 0) == {};
    }

    /** Stores one data block of a page. */
    method PutBlock(data: array<byte>, j: nat, blk: seq<byte>)
      requires data.Length == k * len && j < k && |blk| == len
      modifies data
      ensures forall i :: 0 <= i < k ==>
              PageBlock(data[..], i, k, len) == if i == j then blk else PageBlock(old(data[..]), i, k, len)
    {
      ghost var before := data[..];
      ItemsApart(j, k, len);
      Copy(data, j * len, blk);
      forall i | 0 <= i < k
        ensures PageBlock(data[..], i, k, len) == if i == j then blk else PageBlock(before, i, k, len)
      {
        ItemsApart(i, k, len);
        SpliceBlock(before, j, i, len, blk);
      }
    }

    /** Copies the shards that are data blocks into the page. */
    method CopyIntact(rows: seq<nat>, src: seq<Pointer>, data: array<byte>, ghost shards: seq<Vec>)
      requires Wired() && Distinct(rows) && data.Length == k * len
      requires |src| == |rows| == |shards|
      requires forall i :: 0 <= i < |rows| ==> GoodPointer(src[i]) && src[i].area != data && Bytes(src[i]) == shards[i]
      modifies data
      ensures forall i :: 0 <= i < |rows| && rows[i] < k ==> PageBlock(data[..], rows[i], k, len) == shards[i]
    {
      hide PageBlock, Layout;
      var i := 0;
      while i < |rows|
        invariant 0 <= i <= |rows|
        invariant forall x :: 0 <= x < i && rows[x] < k ==> PageBlock(data[..], rows[x], k, len) == shards[x]
      {
        if rows[i] < k {
          PutBlock(data, rows[i], Bytes(src[i]));
        }
        i := i + 1;
      }
    }

    /** ec_encode_data with the rows of the inverted matrix that belong to the dead data indices. */
    method DecodeDead(dead: seq<nat>, inverse: Matrix, shards: seq<Vec>, data: array<byte>)
      requires Wired() && Distinct(dead) && data.Length == k * len
      requires forall e :: 0 <= e < |dead| ==> dead[e] < k
      requires IsSquare(inverse, k) && BlocksOf(shards, k, len)
      modifies data
      ensures forall e :: 0 <= e < |dead| ==>
              PageBlock(data[..], dead[e], k, len) == Combine(inverse[dead[e]], shards, len)
      ensures forall j :: 0 <= j < k && j !in dead ==>
              PageBlock(data[..], j, k, len) == PageBlock(old(data[..]), j, k, len)
    {
      hide Combine, PageBlock, Layout, BlocksOf, Distinct;
      ghost var decoded := Decoded(dead, inverse, shards);
      ghost var before := data[..];
      var e := 0;
      while e < |dead|
        invariant 0 <= e <= |dead|
        invariant forall x :: 0 <= x < e ==> PageBlock(data[..], dead[x], k, len) == decoded[x]
        invariant forall j :: 0 <= j < k && j !in dead ==>
                  PageBlock(data[..], j, k, len) == PageBlock(before, j, k, len)
      {
        assert forall x :: 0 <= x < e ==> dead[x] != dead[e] by { DistinctFrom(dead, e); }
        PutBlock(data, dead[e], Combine(inverse[dead[e]], shards, len));
        e := e + 1;
      }
    }

    static lemma DistinctFrom(s: seq<nat>, e: nat)
      requires Distinct(s) && e < |s|
      ensures forall x :: 0 <= x < e ==> s[x] != s[e]
    {
    }

    /** The dead data blocks, decoded. */
    ghost function Decoded(dead: seq<nat>, inverse: Matrix, shards: seq<Vec>): (r: seq<Vec>)
      requires IsSquare(inverse, k) && BlocksOf(shards, k, len) && forall e :: 0 <= e < |dead| ==> dead[e] < k
      ensures |r| == |dead| && forall e :: 0 <= e < |dead| ==> r[e] == Combine(inverse[dead[e]], shards, len)
    {
      seq(|dead|, e requires 0 <= e < |dead| => Combine(inverse[dead[e]], shards, len))
    }

    /** The shards the pointers refer to. */
    method LoadShards(src: seq<Pointer>) returns (shards: seq<Vec>)
      requires forall i :: 0 <= i < |src| ==> GoodPointer(src[i])
      ensures |shards| == |src| && forall i :: 0 <= i < |src| ==> shards[i] == Bytes(src[i])
    {
      shards := [];
      var i := 0;
      while i < |src|
        invariant 0 <= i <= |src| && |shards| == i
        invariant forall x :: 0 <= x < i ==> shards[x] == Bytes(src[x])
      {
        shards := shards + [Bytes(src[i])];
        i := i + 1;
      }
    }

    /** Blocks of a page: chosen data shards as they are, dead ones decoded from the inverted rows. */
    ghost predicate Recovered(pg: seq<byte>, rows: seq<nat>, dead: seq<nat>, shards: seq<Vec>)
      requires Layout() && |pg| == k * len && |rows| == k && BlocksOf(shards, k, len)
      requires forall i :: 0 <= i < k ==> rows[i] < n
      requires forall e :: 0 <= e < |dead| ==> dead[e] < k
    {
      && (forall i :: 0 <= i < k && rows[i] < k ==> PageBlock(pg, rows[i], k, len) == shards[i])
      && (dead != [] ==>
            var m := Select(encodeMatrix, rows);
            && IsSquare(m, k) && Invert(m).Some?
            && forall e :: 0 <= e < |dead| ==>
                PageBlock(pg, dead[e], k, len) == Combine(Invert(m).value[dead[e]], shards, len))
    }

    /** The decoding half of readBlock; the inversion never fails. */
    method Decode(rows: seq<nat>, dead: seq<nat>, src: seq<Pointer>, data: array<byte>, ghost shards: seq<Vec>)
      requires Wired() && data.Length == k * len && |rows| == |src| == k && BlocksOf(shards, k, len)
      requires Distinct(rows) && Distinct(dead) && forall i :: 0 <= i < k ==> rows[i] < n
      requires forall e :: 0 <= e < |dead| ==> dead[e] < k && dead[e] !in rows
      requires forall i :: 0 <= i < k ==> GoodPointer(src[i]) && src[i].area != data && Bytes(src[i]) == shards[i]
      requires forall i :: 0 <= i < k && rows[i] < k ==> PageBlock(data[..], rows[i], k, len) == shards[i]
      modifies data
      ensures Recovered(data[..], rows, dead, shards)
    {
      hide Add, Mul, Inverse, Dot, ToByte, Combine, Invert;
      var b := Select(encodeMatrix, rows);
      AnyRowsInvertible(k, p, rows);
      var inverse := Invert(b);
      if inverse.None? {
        // "cannot do matrix invert!" is unreachable
        assert false;
      } else {
        var loaded := LoadShards(src);
        assert loaded == shards;
        DecodeDead(dead, inverse.value, loaded, data);
        assert forall i :: 0 <= i < k ==> rows[i] in rows && rows[i] !in dead;
      }
    }

    /** A recovered page is the page whose shards were read. */
    lemma RecoveredIsPage(pg: seq<byte>, rows: seq<nat>, dead: seq<nat>, shards: seq<Vec>, d: seq<Vec>)
      requires Layout() && |pg| == k * len && BlocksOf(d, k, len)
      requires |rows| == k && Distinct(rows) && forall i :: 0 <= i < k ==> rows[i] < n
      requires shards == Shards(d, rows, len) && dead == Missing(rows, k)
      requires Recovered(pg, rows, dead, shards)
      ensures PageBlocks(pg, k, len) == d
    {
      hide Add, Mul, Inverse, Dot, ToByte, Combine, Shard, Invert;
      forall j | 0 <= j < k
        ensures PageBlock(pg, j, k, len) == d[j]
      {
        if j in rows {
          var i :| 0 <= i < k && rows[i] == j;
          DataShard(d, j, len);
        } else {
          var e := MissingComplete(rows, k, j);
          DecodeShards(d, p, rows, len, j);
        }
      }
    }

    /** The shards on the nodes of rows are those of one page d. */
    ghost predicate Hold(c: seq<seq<byte>>, rows: seq<nat>, row: nat, d: seq<Vec>)
      requires Layout() && Shaped(c) && row < poolLength
      requires forall i :: 0 <= i < |rows| ==> rows[i] < clusterSize
    {
      BlocksOf(d, k, len) && forall i :: 0 <= i < |rows| ==> Cell(c, rows[i], row) == Shard(d, rows[i], len)
    }

    /** Nodes that were all alive at the row's last write hold the shards of that write. */
    lemma LastWriteHeld(c: seq<seq<byte>>, h: seq<Write>, rows: seq<nat>, row: nat)
      requires Layout() && Stored(c, h) && row < poolLength && LastTo(h, row).Some?
      requires forall i :: 0 <= i < |rows| ==> rows[i] < n && rows[i] in LastTo(h, row).value.live
      ensures Hold(c, rows, row, LastTo(h, row).value.data)
    {
      hide Shard, Cell;
      forall i | 0 <= i < |rows|
        ensures Cell(c, rows[i], row) == Shard(LastTo(h, row).value.data, rows[i], len)
      {
        LiveAtLastWrite(h, row, rows[i]);
      }
    }

    /** The shards a recovered page was read from are its own. */
    lemma RecoveredHasShards(pg: seq<byte>, rows: seq<nat>, dead: seq<nat>, shards: seq<Vec>)
      requires Layout() && |pg| == k * len && BlocksOf(shards, k, len)
      requires |rows| == k && Distinct(rows) && forall i :: 0 <= i < k ==> rows[i] < n
      requires dead == Missing(rows, k)
      requires Recovered(pg, rows, dead, shards)
      ensures shards == Shards(PageBlocks(pg, k, len), rows, len)
    {
      hide Add, Mul, Inverse, Dot, ToByte, Combine, Shard, Invert;
      AnyRowsInvertible(k, p, rows);
      forall j | 0 <= j < k && j !in rows
        ensures PageBlock(pg, j, k, len) == Combine(Invert(Select(encodeMatrix, rows)).value[j], shards, len)
      {
        var e := MissingComplete(rows, k, j);
      }
      DecodedShards(PageBlocks(pg, k, len), p, rows, shards, len);
    }

    /** What readBlock delivers, from what the chosen nodes hold. */
    lemma ReadCorrect(c: seq<seq<byte>>, h: seq<Write>, row: nat, pg: seq<byte>, rows: seq<nat>, shards: seq<Vec>)
      requires Layout() && Stored(c, h) && row < poolLength && |pg| == k * len
      requires |rows| == k && Distinct(rows) && forall i :: 0 <= i < k ==> rows[i] < n
      requires BlocksOf(shards, k, len) && forall i :: 0 <= i < k ==> shards[i] == Cell(c, rows[i], row)
      requires Recovered(pg, rows, Missing(rows, k), shards)
      ensures forall d :: Hold(c, rows, row, d) <==> PageBlocks(pg, k, len) == d
      ensures LastTo(h, row).Some? && (forall s :: s in rows ==> s in LastTo(h, row).value.live)
              ==> PageBlocks(pg, k, len) == LastTo(h, row).value.data
    {
      hide Shard, Cell, Recovered, Missing;
      forall d | Hold(c, rows, row, d)
        ensures PageBlocks(pg, k, len) == d
      {
        assert shards == Shards(d, rows, len);
        RecoveredIsPage(pg, rows, Missing(rows, k), shards, d);
      }
      RecoveredHasShards(pg, rows, Missing(rows, k), shards);
      assert Hold(c, rows, row, PageBlocks(pg, k, len));
      if LastTo(h, row).Some? && (forall s :: s in rows ==> s in LastTo(h, row).value.live) {
        LastWriteHeld(c, h, rows, row);
      }
    }

    /** readBlock. */
    method ReadBlock(index: nat, page: Page)
      requires Valid()
      requires index < capacity && CountLive(Live(), n) >= k
      requires page.data.Length == PAGE && page.data !in memory && page.data !in readRegion
      requires forall s :: 0 <= s < clusterSize ==> readBitmap[s] != 0
      modifies this`readBitmap, readRegion, page`index, page.data
      ensures Valid() && Contents() == old(Contents())
      ensures page.index == index && Row(index) < poolLength
      ensures readBitmap == old(readBitmap)
      ensures forall d :: Hold(Contents(), Chosen(Live(), k, n), Row(index), d) <==>
              PageBlocks(page.data[..], k, len) == d
      ensures var last := LastTo(history, Row(index));
              last.Some? && (forall s :: s in Chosen(Live(), k, n) ==> s in last.value.live)
              ==> PageBlocks(page.data[..], k, len) == last.value.data
    {
      hide Shard, Cell, Recovered, Missing, Chosen, Dead, Stored, ShardsRead;
      page.index := index;
      LayoutFacts();
      RowBound(index, clusterSize / n, poolLength);
      var row := index / (clusterSize / n);
      SelectionCorrect(Live(), k, n);
      var decodeIndex, errIndex := SelectNodes();
      FillPage(decodeIndex, errIndex, row, page.data);
      assert Contents() == old(Contents());
      ReadCorrect(Contents(), history, row, page.data[..], decodeIndex, ShardsRead(Contents(), decodeIndex, row));
    }

    /** readBlock after the selection: fetch, copy, decode, release. */
    method FillPage(rows: seq<nat>, dead: seq<nat>, row: nat, data: array<byte>)
      requires Wired() && row < poolLength && data.Length == k * len && data !in memory && data !in readRegion
      requires |rows| == k && Distinct(rows) && forall i :: 0 <= i < k ==> rows[i] < n
      requires Distinct(dead) && forall e :: 0 <= e < |dead| ==> dead[e] < k && dead[e] !in rows
      requires forall s :: 0 <= s < clusterSize ==> readBitmap[s] != 0
      modifies this`readBitmap, readRegion, data
      ensures Contents() == old(Contents()) && Shaped(Contents())
      ensures readBitmap == old(readBitmap)
      ensures Recovered(data[..], rows, dead, ShardsRead(Contents(), rows, row))
    {
      hide Shard, Cell, AllocIndex, AllocWord, FreeWord, Taken, Range, Combine, Recovered, Separate, Source,
          EncodeMatrix, Layout;
      Copy(data, 0, seq(data.Length, _ => 0));
      ghost var before := readBitmap;
      ghost var c := Contents();
      var recoverSrc := FetchShards(rows, row);
      ghost var shards := ShardsRead(c, rows, row);
      forall i | 0 <= i < k ensures recoverSrc[i].area != data { SourceOutside(before, rows[i], row, data); }
      CopyIntact(rows, recoverSrc, data, shards);
      if |dead| == 0 {
        NothingDead(data[..], rows, dead, shards);
        ReleaseRegions(rows, row, recoverSrc, before);
        assert Contents() == c;
        return;
      }
      Decode(rows, dead, recoverSrc, data, shards);
      ReleaseRegions(rows, row, recoverSrc, before);
      assert Contents() == c;
    }

    ghost function ShardsRead(c: seq<seq<byte>>, rows: seq<nat>, row: nat): (r: seq<Vec>)
      requires Shaped(c) && row < poolLength && forall i :: 0 <= i < |rows| ==> rows[i] < clusterSize
      ensures BlocksOf(r, |rows|, len) && forall i :: 0 <= i < |rows| ==> r[i] == Cell(c, rows[i], row)
    {
      seq(|rows|, i requires 0 <= i < |rows| => Cell(c, rows[i], row))
    }

    lemma NothingDead(pg: seq<byte>, rows: seq<nat>, dead: seq<nat>, shards: seq<Vec>)
      requires Layout() && |pg| == k * len && |rows| == k && BlocksOf(shards, k, len) && dead == []
      requires forall i :: 0 <= i < k ==> rows[i] < n
      requires forall i :: 0 <= i < k && rows[i] < k ==> PageBlock(pg, rows[i], k, len) == shards[i]
      ensures Recovered(pg, rows, dead, shards)
    {
    }

    // ---------- the store as a map from rows to pages ----------

    /** Any k distinct nodes hold a page, and only one. */
    lemma OnePageHeld(c: seq<seq<byte>>, rows: seq<nat>, row: nat)
      requires Layout() && Shaped(c) && row < poolLength && n <= clusterSize
      requires |rows| == k && Distinct(rows) && forall i :: 0 <= i < k ==> rows[i] < n
      ensures exists d :: Hold(c, rows, row, d)
    {
      hide Add, Mul, Inverse, Dot, ToByte, Shard, Cell, Invert, Combine;
      AnyRowsInvertible(k, p, rows);
      var inverse, shards := Invert(Select(encodeMatrix, rows)).value, ShardsRead(c, rows, row);
      var d := seq(k, j requires 0 <= j < k => if j in rows then Cell(c, j, row) else Combine(inverse[j], shards, len));
      DecodedShards(d, p, rows, shards, len);
      assert Hold(c, rows, row, d);
    }

    lemma HeldPageUnique(c: seq<seq<byte>>, rows: seq<nat>, row: nat, d: seq<Vec>, e: seq<Vec>)
      requires Layout() && Shaped(c) && row < poolLength && n <= clusterSize
      requires |rows| == k && Distinct(rows) && forall i :: 0 <= i < k ==> rows[i] < n
      requires Hold(c, rows, row, d) && Hold(c, rows, row, e)
      ensures d == e
    {
      hide Add, Mul, Inverse, Dot, ToByte, Shard, Cell, Invert, Combine;
      assert Shards(d, rows, len) == Shards(e, rows, len);
      forall j | 0 <= j < k ensures d[j] == e[j] {
        DecodeShards(d, p, rows, len, j);
        DecodeShards(e, p, rows, len, j);
      }
    }

    /** The page that the first k live nodes hold for a row: what a read delivers. */
    ghost function Delivered(c: seq<seq<byte>>, live: set<nat>, row: nat): (d: seq<Vec>)
      requires Layout() && Shaped(c) && row < poolLength && n <= clusterSize && CountLive(live, n) >= k
      ensures Hold(c, Chosen(live, k, n), row, d)
    {
      SelectionCorrect(live, k, n);
      OnePageHeld(c, Chosen(live, k, n), row);
      var d :| Hold(c, Chosen(live, k, n), row, d);
      d
    }

    /** All live nodes hold the same page. */
    ghost predicate Consistent(c: seq<seq<byte>>, live: set<nat>, row: nat)
      requires Layout() && Shaped(c) && row < poolLength && n <= clusterSize
    {
      exists d :: HeldByAll(c, live, row, d)
    }

    ghost predicate HeldByAll(c: seq<seq<byte>>, live: set<nat>, row: nat, d: seq<Vec>)
      requires Layout() && Shaped(c) && row < poolLength && n <= clusterSize
    {
      BlocksOf(d, k, len) && forall s :: s in live && 0 <= s < n ==> Cell(c, s, row) == Shard(d, s, len)
    }

    /** What all live nodes hold is what is delivered, whichever of them are asked. */
    lemma HeldIsDelivered(c: seq<seq<byte>>, live: set<nat>, live': set<nat>, row: nat, d: seq<Vec>)
      requires Layout() && Shaped(c) && row < poolLength && n <= clusterSize
      requires live' <= live && CountLive(live', n) >= k && HeldByAll(c, live, row, d)
      ensures Delivered(c, live', row) == d && HeldByAll(c, live', row, d)
    {
      hide Cell, Shard;
      SelectionCorrect(live', k, n);
      var rows := Chosen(live', k, n);
      assert Hold(c, rows, row, d);
      HeldPageUnique(c, rows, row, Delivered(c, live', row), d);
    }

    ghost function PagesOf(c: seq<seq<byte>>, live: set<nat>): (m: seq<seq<byte>>)
      requires Layout() && Shaped(c) && n <= clusterSize && CountLive(live, n) >= k
      ensures |m| == poolLength
      ensures forall r :: 0 <= r < |m| ==> |m[r]| == PAGE && m[r] == Join(Delivered(c, live, r), len)
    {
      seq(poolLength, r requires 0 <= r < poolLength => Join(Delivered(c, live, r), len))
    }

    ghost function SteadyRows(c: seq<seq<byte>>, live: set<nat>): (rows: set<nat>)
      requires Layout() && Shaped(c) && n <= clusterSize
      ensures forall r :: r in rows <==> 0 <= r < poolLength && Consistent(c, live, r)
    {
      set r | 0 <= r < poolLength && Consistent(c, live, r)
    }

    /** Usable as a plain block device: one row per index, enough live nodes, free regions. */
    ghost predicate Ready()
      reads this, memory
    {
      && Valid()
      && clusterSize == n
      && CountLive(Live(), n) >= k
      && (forall s :: 0 <= s < clusterSize ==> readBitmap[s] != 0 && writeBitmap[s] != 0)
    }

    /** The abstract state: the page at every index, */
    ghost function Pages(): (m: seq<seq<byte>>)
      requires Ready()
      reads this, memory
      ensures |m| == capacity && forall r :: 0 <= r < |m| ==> |m[r]| == PAGE
    {
      LayoutFacts();
      PagesOf(Contents(), Live())
    }

    /** and the indices whose page does not depend on which of the live nodes are asked. */
    ghost function Steady(): set<nat>
      requires Ready()
      reads this, memory
    {
      SteadyRows(Contents(), Live())
    }

    ghost function LiveCount(): nat
      requires Ready()
      reads this, memory
    {
      CountLive(Live(), n)
    }

    lemma EnoughNodes()
      requires Layout()
      ensures k <= n
    {
    }

    lemma RowIsIndex(index: nat)
      requires Layout() && clusterSize == n
      ensures Row(index) == index && capacity == poolLength
    {
      LayoutFacts();
    }

    lemma DeliveredAfterWrite(c: seq<seq<byte>>, w: Write, live: set<nat>, r: nat)
      requires Layout() && Shaped(c) && n <= clusterSize && CountLive(live, n) >= k && r < poolLength
      requires w.live == live && w.row < poolLength && BlocksOf(w.data, k, len)
      ensures Delivered(AfterWrite(c, w), live, r) == if r == w.row then w.data else Delivered(c, live, r)
      ensures Consistent(AfterWrite(c, w), live, r) <==> r == w.row || Consistent(c, live, r)
    {
      hide Cell, Shard, AfterWrite, Delivered;
      var c' := AfterWrite(c, w);
      SelectionCorrect(live, k, n);
      var rows := Chosen(live, k, n);
      forall s | 0 <= s < n
        ensures Cell(c', s, r) == if r == w.row && s in live then Shard(w.data, s, len) else Cell(c, s, r)
      {
        CellAfterWrite(c, w, s, r);
      }
      if r == w.row {
        assert HeldByAll(c', live, r, w.data);
        HeldIsDelivered(c', live, live, r, w.data);
      } else {
        assert Hold(c', rows, r, Delivered(c, live, r));
        HeldPageUnique(c', rows, r, Delivered(c, live, r), Delivered(c', live, r));
        forall d ensures HeldByAll(c', live, r, d) <==> HeldByAll(c, live, r, d) { }
      }
    }

    /** A write replaces the page of its row, which is steady from then on. */
    lemma PagesAfterWrite(c: seq<seq<byte>>, w: Write, live: set<nat>, pg: seq<byte>)
      requires Layout() && Shaped(c) && n <= clusterSize && CountLive(live, n) >= k
      requires |pg| == PAGE && w.row < poolLength && w.live == live && w.data == PageBlocks(pg, k, len)
      ensures PagesOf(AfterWrite(c, w), live) == PagesOf(c, live)[w.row := pg]
      ensures SteadyRows(AfterWrite(c, w), live) == SteadyRows(c, live) + {w.row}
    {
      hide AfterWrite, Delivered, Consistent, Join;
      JoinPageBlocks(pg, k, len);
      forall r | 0 <= r < poolLength
        ensures Delivered(AfterWrite(c, w), live, r) == if r == w.row then w.data else Delivered(c, live, r)
        ensures Consistent(AfterWrite(c, w), live, r) <==> r == w.row || Consistent(c, live, r)
      {
        DeliveredAfterWrite(c, w, live, r);
      }
    }

    /** Nodes that stop answering take nothing away from the steady rows. */
    lemma FailureKeepsPages(c: seq<seq<byte>>, live: set<nat>, live': set<nat>, r: nat)
      requires Layout() && Shaped(c) && n <= clusterSize && r < poolLength && Consistent(c, live, r)
      requires live' <= live && k <= CountLive(live', n) && k <= CountLive(live, n)
      ensures Consistent(c, live', r) && Delivered(c, live', r) == Delivered(c, live, r)
    {
      hide Delivered, Cell, Shard;
      var d :| HeldByAll(c, live, r, d);
      HeldIsDelivered(c, live, live', r, d);
      HeldIsDelivered(c, live, live, r, d);
    }

    /** A row that no live node has missed the last write of is steady, and its page is that write's. */
    lemma WrittenIsSteady(row: nat)
      requires Ready() && row < capacity
      requires LastTo(history, row).Some? && Live() <= LastTo(history, row).value.live
      ensures row in Steady() && Pages()[row] == Join(LastTo(history, row).value.data, len)
    {
      hide Cell, Shard, LastTo, Delivered, Join;
      RowIsIndex(row);
      var c, w := Contents(), LastTo(history, row).value;
      forall s | s in Live() && 0 <= s < n
        ensures Cell(c, s, row) == Shard(w.data, s, len)
      {
        LiveAtLastWrite(history, row, s);
      }
      assert HeldByAll(c, Live(), row, w.data);
      HeldIsDelivered(c, Live(), Live(), row, w.data);
    }

    /** Reading returns the page the index stands for, whatever else failed. */
    method ReadPage(index: nat, page: Page)
      requires Ready() && index < capacity
      requires page.data.Length == PAGE && page.data !in memory && page.data !in readRegion
      modifies this`readBitmap, readRegion, page`index, page.data
      ensures Ready() && Pages() == old(Pages()) && Steady() == old(Steady())
      ensures page.index == index && page.data[..] == Pages()[index]
    {
      hide Delivered, Consistent, Hold, Join, Cell, Stored;
      RowIsIndex(index);
      SelectionCorrect(Live(), k, n);
      ReadBlock(index, page);
      assert Hold(Contents(), Chosen(Live(), k, n), index, Delivered(Contents(), Live(), index));
      JoinPageBlocks(page.data[..], k, len);
    }

    /** Writing replaces exactly the page at the index. */
    method WritePage(page: Page)
      requires Ready() && page.index < capacity
      requires page.data.Length == PAGE && page.data != encodeBuffer && page.data !in memory
               && page.data !in writeRegion
      modifies this`writeBitmap, this`history, encodeBuffer, memory, writeRegion
      ensures Ready() && Pages() == old(Pages())[page.index := page.data[..]]
      ensures Steady() == old(Steady()) + {page.index}
    {
      hide Delivered, Consistent, Stored, AfterWrite;
      RowIsIndex(page.index);
      ghost var w := Write(Row(page.index), PageBlocks(page.data[..], k, len), Live());
      PagesAfterWrite(Contents(), w, Live(), page.data[..]);
      WriteBlock(page);
    }

    /** A peer is lost. As long as k nodes remain, the store stays usable and no steady page changes. */
    method LosePeer(peer: nat)
      requires Ready() && peer < clusterSize && CountLive(Live() - {peer}, n) >= k
      modifies this`forcedConnStat
      ensures Ready() && old(Steady()) <= Steady()
      ensures forall r :: r in old(Steady()) ==> Pages()[r] == old(Pages())[r]
      ensures Live() == WithPeer(old(Live()), peer, false) && LiveCount() + 1 >= old(LiveCount())
    {
      hide Delivered, Consistent, Stored, Join, IsAlive;
      ghost var before, c := Live(), Contents();
      ghost var pages, steady := Pages(), Steady();
      CountLiveLess(before, peer, n);
      MarkPeer(peer, -1);
      assert Live() == before || Live() == before - {peer};
      forall r | r in steady
        ensures r in Steady() && Pages()[r] == pages[r]
      {
        FailureKeepsPages(c, before, Live(), r);
      }
    }

    /** A peer answers again. Rows whose last write it has missed may stop being steady; all others stay as they are. */
    method RegainPeer(peer: nat)
      requires Ready() && peer < clusterSize
      modifies this`forcedConnStat
      ensures Ready() && Steady() <= old(Steady()) && Live() == WithPeer(old(Live()), peer, true)
      ensures forall r :: r in Steady() ==> Pages()[r] == old(Pages())[r]
      ensures forall r ::
                r in old(Steady()) && LastTo(history, r).Some? && Live() <= LastTo(history, r).value.live ==>
                r in Steady()
    {
      hide Delivered, Consistent, Stored, Join, LastTo;
      ghost var before, c := Live(), Contents();
      ghost var pages, steady := Pages(), Steady();
      MarkPeer(peer, 1);
      CountLiveMonotone(before, Live(), n);
      forall r | r in Steady()
        ensures r in steady && Pages()[r] == pages[r]
      {
        FailureKeepsPages(c, Live(), before, r);
      }
      RowIsIndex(0);
      forall r | r in steady && LastTo(history, r).Some? && Live() <= LastTo(history, r).value.live
        ensures r in Steady()
      {
        WrittenIsSteady(r);
      }
    }

    /** More than k live nodes can afford to lose any one. */
    lemma LossAffordable(peer: nat)
      requires Ready() && LiveCount() > k
      ensures CountLive(Live() - {peer}, n) >= k
    {
      CountLiveLess(Live(), peer, n);
    }

    // ---------- consequences of the layout ----------

    /** In a cluster of n nodes, pages of different indices are kept in different, disjoint rows of every pool. */
    lemma IndicesApart(i: nat, j: nat)
      requires Layout() && clusterSize == n && i < capacity && j < capacity && i != j
      ensures Row(i) != Row(j) && Row(i) < poolLength && Row(i) * len + len <= poolLength * len
      ensures Row(i) * len + len <= Row(j) * len || Row(j) * len + len <= Row(i) * len
    {
      RowIsIndex(i);
      RowIsIndex(j);
      ItemsApart(i, poolLength, len);
      if i < j { ItemsApart(i, j, len); } else { ItemsApart(j, i, len); }
    }

    /** In a larger cluster, indices 0 and 1 share a row: a write to one overwrites the other. */
    lemma IndicesAlias()
      requires Layout() && clusterSize > n && poolLength > 0
      ensures 1 < capacity && Row(0) == Row(1)
    {
      LayoutFacts();
      var q := clusterSize / n;
      assert clusterSize == q * n;
      assert q >= 2 by { if q < 2 { Monotone(q, 1, n); } }
      Monotone(1, poolLength, q);
    }

    /** So indices are kept apart exactly in clusters of n nodes. */
    lemma IndicesApartIff()
      requires Layout() && poolLength > 0
      ensures clusterSize == n <==> forall i, j {:trigger Row(i), Row(j)} :: 0 <= i < j < capacity ==> Row(i) != Row(j)
    {
      LayoutFacts();
      if clusterSize == n {
        forall i, j | 0 <= i < j < capacity ensures Row(i) != Row(j) { IndicesApart(i, j); }
      } else {
        IndicesAlias();
      }
    }

    /** In such a cluster, a write to one index changes what no set of nodes holds for another one. */
    lemma WriteLeavesOthers(c: seq<seq<byte>>, w: Write, i: nat, j: nat, rows: seq<nat>, d: seq<Vec>)
      requires Layout() && clusterSize == n && Shaped(c) && BlocksOf(w.data, k, len)
      requires i < capacity && j < capacity && i != j && w.row == Row(i)
      requires forall x :: 0 <= x < |rows| ==> rows[x] < n
      ensures Row(i) < poolLength && Row(j) < poolLength
      ensures Hold(AfterWrite(c, w), rows, Row(j), d) <==> Hold(c, rows, Row(j), d)
    {
      hide Shard, Cell, AfterWrite;
      IndicesApart(i, j);
      IndicesApart(j, i);
      forall x | 0 <= x < |rows|
        ensures Cell(AfterWrite(c, w), rows[x], Row(j)) == Cell(c, rows[x], Row(j))
      {
        CellAfterWrite(c, w, rows[x], Row(j));
      }
    }

    /** For every cluster size, an index below the capacity has its shards inside every node's pool. */
    lemma RowInPool(index: nat)
      requires Layout() && index < capacity
      ensures Row(index) < poolLength && Row(index) * len + len <= poolLength * len
    {
      LayoutFacts();
      RowBound(index, clusterSize / n, poolLength);
      ItemsApart(Row(index), poolLength, len);
    }
  }
}
