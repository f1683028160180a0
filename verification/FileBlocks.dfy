/**
 How LocofsClient::write and LocofsClient::read cut a byte range into pages (src/fs/LocofsClient.cpp, lines
 82-110 and 175-204), over a block device given as the sequence of its pages.

 The block of a file is found through a hash; that blocks in use do not collide is a hypothesis.
 */
module FileBlocks {
  import opened GaloisField
  import opened PageLayout

  type Disk = seq<seq<byte>>

  ghost predicate IsDisk(m: Disk) {
    |m| > 0 && forall i :: 0 <= i < |m| ==> |m[i]| == PAGE
  }

  datatype FileId = FileId(sid: int, suuid: int)

  datatype BlockId = BlockId(file: FileId, number: nat)

  type Hash = BlockId -> nat

  /** hashObj(st, block number) % cluster capacity. */
  function Place(hash: Hash, x: BlockId, capacity: nat): (p: nat)
    requires capacity > 0
    ensures p < capacity && p == hash(x) % capacity
  {
    hash(x) % capacity
  }

  /** No two blocks in use share a place. */
  ghost predicate CollisionFree(hash: Hash, used: set<BlockId>, capacity: nat)
    requires capacity > 0
  {
    forall x, y :: x in used && y in used && x != y ==> hash(x) % capacity != hash(y) % capacity
  }

  /** Byte i of file f. */
  ghost function FileByte(m: Disk, hash: Hash, f: FileId, i: nat): byte
    requires IsDisk(m)
  {
    m[Place(hash, BlockId(f, i / PAGE), |m|)][i % PAGE]
  }

  /** block_len: the part of an n-byte request at off that lies in one block. */
  function ChunkLen(off: nat, n: nat): (c: nat)
    ensures c <= n && off % PAGE + c <= PAGE
    ensures n > 0 ==> c > 0
    ensures c < n ==> (off + c) % PAGE == 0
  {
    if n > PAGE - off % PAGE then
      ChunkEnd(off);
      PAGE - off % PAGE
    else n
  }

  lemma ChunkEnd(off: nat)
    ensures (off + (PAGE - off % PAGE)) % PAGE == 0
  {
    assert off == off / PAGE * PAGE + off % PAGE;
    assert off + (PAGE - off % PAGE) == (off / PAGE + 1) * PAGE;
  }

  /** The test that selects the read-modify-write branch. */
  predicate Partial(off: nat, n: nat) {
    off % PAGE != 0 || off % PAGE + ChunkLen(off, n) < PAGE
  }

  /**
   The index the next chunk is written to. The read-modify-write branch sets page.index through readBlock; the
   full-page branch uses whatever page.index was left behind. With repaired, the full-page branch sets it too.
   */
  function Target(hash: Hash, f: FileId, capacity: nat, index: nat, n: nat, off: nat, repaired: bool): (t: nat)
    requires capacity > 0 && index < capacity
    ensures t < capacity
  {
    if repaired || Partial(off, n) then Place(hash, BlockId(f, off / PAGE), capacity) else index
  }

  /** The pages after the writing loop has run on the remaining data, with page.index == index. */
  function WriteChunks(m: Disk, hash: Hash, f: FileId, index: nat, data: seq<byte>, off: nat, repaired: bool): (r: Disk)
    requires IsDisk(m) && index < |m|
    ensures IsDisk(r) && |r| == |m|
    decreases |data|
  {
    if data == [] then m else
      var c := ChunkLen(off, |data|);
      var t := Target(hash, f, |m|, index, |data|, off, repaired);
      WriteChunks(m[t := Splice(m[t], off % PAGE, data[..c])], hash, f, t, data[c..], off + c, repaired)
  }

  /** The bytes the reading loop delivers. */
  function ReadChunks(m: Disk, hash: Hash, f: FileId, n: nat, off: nat): (r: seq<byte>)
    requires IsDisk(m)
    ensures |r| == n
    decreases n
  {
    if n == 0 then [] else
      var c := ChunkLen(off, n);
      var page := m[Place(hash, BlockId(f, off / PAGE), |m|)];
      page[off % PAGE..off % PAGE + c] + ReadChunks(m, hash, f, n - c, off + c)
  }

  lemma WriteStep(m: Disk, hash: Hash, f: FileId, index: nat, data: seq<byte>, off: nat, c: nat, t: nat, repaired: bool)
    requires IsDisk(m) && index < |m| && data != [] && c == ChunkLen(off, |data|)
    requires t == Target(hash, f, |m|, index, |data|, off, repaired)
    ensures WriteChunks(m, hash, f, index, data, off, repaired)
         == WriteChunks(m[t := Splice(m[t], off % PAGE, data[..c])], hash, f, t, data[c..], off + c, repaired)
  {
  }

  lemma ReadStep(m: Disk, hash: Hash, f: FileId, n: nat, off: nat, c: nat, page: seq<byte>)
    requires IsDisk(m) && 0 < n && c == ChunkLen(off, n)
    requires page == m[Place(hash, BlockId(f, off / PAGE), |m|)]
    ensures ReadChunks(m, hash, f, n, off) == page[off % PAGE..off % PAGE + c] + ReadChunks(m, hash, f, n - c, off + c)
  {
  }

  // ---------- reading ----------

  lemma SameBlock(off: nat, j: nat)
    requires off % PAGE + j < PAGE
    ensures (off + j) / PAGE == off / PAGE && (off + j) % PAGE == off % PAGE + j
  {
  }

  /** A read delivers exactly the bytes of the file in the requested range. */
  lemma {:induction false} ReadExact(m: Disk, hash: Hash, f: FileId, n: nat, off: nat, j: nat)
    requires IsDisk(m) && j < n
    ensures ReadChunks(m, hash, f, n, off)[j] == FileByte(m, hash, f, off + j)
    decreases n
  {
    var c := ChunkLen(off, n);
    if j < c {
      SameBlock(off, j);
    } else {
      ReadExact(m, hash, f, n - c, off + c, j - c);
    }
  }

  // ---------- writing ----------

  /** Every block the request [off, off + n) touches is in use. */
  ghost predicate Touches(used: set<BlockId>, f: FileId, off: nat, n: nat) {
    forall b: nat {:trigger BlockId(f, b)} :: off / PAGE <= b && b * PAGE < off + n ==> BlockId(f, b) in used
  }

  /** Byte i of block x after data has been written to file f at off. */
  ghost function Expected(m: Disk, hash: Hash, x: BlockId, i: nat, f: FileId, off: nat, data: seq<byte>): byte
    requires IsDisk(m) && i < PAGE
  {
    var pos := x.number * PAGE + i;
    if x.file == f && off <= pos < off + |data| then data[pos - off] else m[Place(hash, x, |m|)][i]
  }

  /** m' is m with exactly the bytes [off, off + |data|) of f replaced by data, as far as blocks in use can tell. */
  ghost predicate Wrote(m: Disk, m': Disk, hash: Hash, used: set<BlockId>, f: FileId, off: nat, data: seq<byte>) {
    && IsDisk(m) && IsDisk(m') && |m'| == |m|
    && forall x, i {:trigger Expected(m, hash, x, i, f, off, data)} :: x in used && 0 <= i < PAGE ==>
         m'[Place(hash, x, |m|)][i] == Expected(m, hash, x, i, f, off, data)
  }

  lemma WroteCompose(m: Disk, m1: Disk, m2: Disk, hash: Hash, used: set<BlockId>, f: FileId, off: nat, d1: seq<byte>,
                     d2: seq<byte>)
    requires Wrote(m, m1, hash, used, f, off, d1) && Wrote(m1, m2, hash, used, f, off + |d1|, d2)
    ensures Wrote(m, m2, hash, used, f, off, d1 + d2)
  {
    forall x, i | x in used && 0 <= i < PAGE
      ensures m2[Place(hash, x, |m|)][i] == Expected(m, hash, x, i, f, off, d1 + d2)
    {
      assert m1[Place(hash, x, |m|)][i] == Expected(m, hash, x, i, f, off, d1);
      assert m2[Place(hash, x, |m|)][i] == Expected(m1, hash, x, i, f, off + |d1|, d2);
    }
  }

  /** A byte of another block is outside a chunk that stays in its block. */
  lemma OutsideChunk(off: nat, c: nat, number: nat, i: nat)
    requires off % PAGE + c <= PAGE && number != off / PAGE && i < PAGE
    ensures var pos := number * PAGE + i; !(off <= pos < off + c)
  {
    assert off == off / PAGE * PAGE + off % PAGE;
  }

  /** One chunk written to its own place. */
  lemma ChunkWrote(m: Disk, hash: Hash, used: set<BlockId>, f: FileId, off: nat, d: seq<byte>)
    requires IsDisk(m) && CollisionFree(hash, used, |m|) && BlockId(f, off / PAGE) in used
    requires off % PAGE + |d| <= PAGE
    ensures var t := Place(hash, BlockId(f, off / PAGE), |m|);
            Wrote(m, m[t := Splice(m[t], off % PAGE, d)], hash, used, f, off, d)
  {
    var o := off % PAGE;
    var b := BlockId(f, off / PAGE);
    var t := Place(hash, b, |m|);
    var m' := m[t := Splice(m[t], o, d)];
    assert off == b.number * PAGE + o;
    forall x, i | x in used && 0 <= i < PAGE
      ensures m'[Place(hash, x, |m|)][i] == Expected(m, hash, x, i, f, off, d)
    {
      var pos := x.number * PAGE + i;
      if x == b {
        assert pos - off == i - o;
      } else if x.file == f {
        OutsideChunk(off, |d|, x.number, i);
      }
    }
  }

  /** Every chunk of the request goes to the place of its own block. */
  ghost predicate AllOnTarget(hash: Hash, f: FileId, capacity: nat, index: nat, n: nat, off: nat, repaired: bool)
    requires capacity > 0 && index < capacity
    decreases n
  {
    n == 0 ||
    (var t := Target(hash, f, capacity, index, n, off, repaired);
     && t == Place(hash, BlockId(f, off / PAGE), capacity)
     && AllOnTarget(hash, f, capacity, t, n - ChunkLen(off, n), off + ChunkLen(off, n), repaired))
  }

  lemma TouchesRest(used: set<BlockId>, f: FileId, off: nat, n: nat, c: nat)
    requires Touches(used, f, off, n) && c <= n && 0 < n
    ensures Touches(used, f, off + c, n - c) && BlockId(f, off / PAGE) in used
  {
    assert off / PAGE * PAGE < off + n;
    assert (off + c) / PAGE >= off / PAGE;
  }

  lemma TargetStep(hash: Hash, f: FileId, capacity: nat, index: nat, n: nat, off: nat, repaired: bool)
    requires capacity > 0 && index < capacity && n > 0 && AllOnTarget(hash, f, capacity, index, n, off, repaired)
    ensures var c, t := ChunkLen(off, n), Target(hash, f, capacity, index, n, off, repaired);
            && t == Place(hash, BlockId(f, off / PAGE), capacity)
            && AllOnTarget(hash, f, capacity, t, n - c, off + c, repaired)
  {
  }

  /** The indices the chunks of a request are written to. */
  function Targets(hash: Hash, f: FileId, capacity: nat, index: nat, n: nat, off: nat, repaired: bool): (r: set<nat>)
    requires capacity > 0 && index < capacity
    decreases n
  {
    if n == 0 then {} else
      var t := Target(hash, f, capacity, index, n, off, repaired);
      {t} + Targets(hash, f, capacity, t, n - ChunkLen(off, n), off + ChunkLen(off, n), repaired)
  }

  /** If every chunk goes to its own block, the targets are the places of all blocks the request touches. */
  lemma {:induction false} TargetsCover(hash: Hash, f: FileId, capacity: nat, index: nat, n: nat, off: nat,
                                        repaired: bool, b: nat)
    requires capacity > 0 && index < capacity && n > 0 && AllOnTarget(hash, f, capacity, index, n, off, repaired)
    requires off / PAGE <= b && b * PAGE < off + n
    ensures Place(hash, BlockId(f, b), capacity) in Targets(hash, f, capacity, index, n, off, repaired)
    decreases n
  {
    hide Place, Target;
    var c := ChunkLen(off, n);
    if b != off / PAGE {
      NextBlock(off, n, b);
      var t := Target(hash, f, capacity, index, n, off, repaired);
      TargetsCover(hash, f, capacity, t, n - c, off + c, repaired, b);
    }
  }

  lemma NextBlock(off: nat, n: nat, b: nat)
    requires n > 0 && off / PAGE < b && b * PAGE < off + n
    ensures ChunkLen(off, n) < n && (off + ChunkLen(off, n)) / PAGE <= b
  {
    assert off == off / PAGE * PAGE + off % PAGE;
  }

  lemma WroteNothing(m: Disk, hash: Hash, used: set<BlockId>, f: FileId, index: nat, off: nat, repaired: bool)
    requires IsDisk(m) && index < |m|
    ensures Wrote(m, WriteChunks(m, hash, f, index, [], off, repaired), hash, used, f, off, [])
  {
  }

  lemma {:induction false} OnTargetWrites(m: Disk, hash: Hash, used: set<BlockId>, f: FileId, index: nat,
                                          data: seq<byte>, off: nat, repaired: bool)
    requires IsDisk(m) && index < |m| && CollisionFree(hash, used, |m|) && Touches(used, f, off, |data|)
    requires AllOnTarget(hash, f, |m|, index, |data|, off, repaired)
    ensures Wrote(m, WriteChunks(m, hash, f, index, data, off, repaired), hash, used, f, off, data)
    decreases |data|
  {
    hide Wrote, WriteChunks, AllOnTarget, Target, ChunkLen, CollisionFree, Touches, Splice, Place;
    if data == [] {
      WroteNothing(m, hash, used, f, index, off, repaired);
    } else {
      var c := ChunkLen(off, |data|);
      var t := Target(hash, f, |m|, index, |data|, off, repaired);
      var m1 := m[t := Splice(m[t], off % PAGE, data[..c])];
      TargetStep(hash, f, |m|, index, |data|, off, repaired);
      TouchesRest(used, f, off, |data|, c);
      ChunkWrote(m, hash, used, f, off, data[..c]);
      OnTargetWrites(m1, hash, used, f, t, data[c..], off + c, repaired);
      WriteStep(m, hash, f, index, data, off, c, t, repaired);
      WroteCompose(m, m1, WriteChunks(m1, hash, f, t, data[c..], off + c, repaired), hash, used, f, off, data[..c],
          data[c..]);
      assert data[..c] + data[c..] == data;
    }
  }

  /** With page.index set in the full-page branch, every write replaces exactly the requested bytes. */
  lemma RepairedWriteExact(m: Disk, hash: Hash, used: set<BlockId>, f: FileId, data: seq<byte>, off: nat)
    requires IsDisk(m) && CollisionFree(hash, used, |m|) && Touches(used, f, off, |data|)
    ensures Wrote(m, WriteChunks(m, hash, f, 0, data, off, true), hash, used, f, off, data)
  {
    RepairedOnTarget(hash, f, |m|, 0, |data|, off);
    OnTargetWrites(m, hash, used, f, 0, data, off, true);
  }

  lemma {:induction false} RepairedOnTarget(hash: Hash, f: FileId, capacity: nat, index: nat, n: nat, off: nat)
    requires capacity > 0 && index < capacity
    ensures AllOnTarget(hash, f, capacity, index, n, off, true)
    decreases n
  {
    if n > 0 {
      var t := Target(hash, f, capacity, index, n, off, true);
      RepairedOnTarget(hash, f, capacity, t, n - ChunkLen(off, n), off + ChunkLen(off, n));
    }
  }

  /** A byte of a block in use after an exact write. */
  lemma WroteByte(m: Disk, m': Disk, hash: Hash, used: set<BlockId>, f: FileId, off: nat, data: seq<byte>, g: FileId,
                  i: nat)
    requires Wrote(m, m', hash, used, f, off, data) && BlockId(g, i / PAGE) in used
    ensures FileByte(m', hash, g, i) ==
            if g == f && off <= i < off + |data| then data[i - off] else FileByte(m, hash, g, i)
  {
    hide Place;
    var x := BlockId(g, i / PAGE);
    assert i == x.number * PAGE + i % PAGE;
    assert m'[Place(hash, x, |m|)][i % PAGE] == Expected(m, hash, x, i % PAGE, f, off, data);
  }

  /**
   The byte-array law: after an exact write of data to f at off, a read of any file in use delivers data where
   the range of f was overwritten, and what it delivered before everywhere else.
   */
  lemma ReadAfterWrite(m: Disk, m': Disk, hash: Hash, used: set<BlockId>, f: FileId, off: nat, data: seq<byte>,
                       g: FileId, n: nat, at: nat, j: nat)
    requires Wrote(m, m', hash, used, f, off, data) && Touches(used, g, at, n) && j < n
    ensures ReadChunks(m', hash, g, n, at)[j] ==
            if g == f && off <= at + j < off + |data| then data[at + j - off] else ReadChunks(m, hash, g, n, at)[j]
  {
    hide ReadChunks, Place, Expected;
    ReadExact(m, hash, g, n, at, j);
    ReadExact(m', hash, g, n, at, j);
    assert (at + j) / PAGE >= at / PAGE && (at + j) / PAGE * PAGE <= at + j;
    WroteByte(m, m', hash, used, f, off, data, g, at + j);
  }

  // ---------- exactly when the code as written is right ----------

  /** The first block that starts inside the request, and the first block that does not end inside it. */
  function FirstFull(off: nat): nat {
    (off + PAGE - 1) / PAGE
  }

  function EndFull(off: nat, n: nat): nat {
    (off + n) / PAGE
  }

  /**
   What a caller can check before the call: the request covers no whole block, or it begins with the only one
   it covers and that block happens to live at index 0, the initial page.index.
   */
  predicate Harmless(hash: Hash, f: FileId, capacity: nat, off: nat, n: nat)
    requires capacity > 0
  {
    || EndFull(off, n) <= FirstFull(off)
    || (EndFull(off, n) == FirstFull(off) + 1 && off % PAGE == 0
        && Place(hash, BlockId(f, FirstFull(off)), capacity) == 0)
  }

  lemma TailOnTarget(hash: Hash, f: FileId, capacity: nat, index: nat, n: nat, off: nat)
    requires capacity > 0 && index < capacity && off % PAGE == 0 && n < PAGE
    ensures AllOnTarget(hash, f, capacity, index, n, off, false)
  {
  }

  lemma HarmlessOnTarget(hash: Hash, f: FileId, capacity: nat, n: nat, off: nat)
    requires capacity > 0 && Harmless(hash, f, capacity, off, n)
    ensures AllOnTarget(hash, f, capacity, 0, n, off, false)
  {
    if n > 0 {
      var c := ChunkLen(off, n);
      var t := Target(hash, f, capacity, 0, n, off, false);
      if off % PAGE == 0 {
        assert FirstFull(off) == off / PAGE;
      } else {
        assert FirstFull(off) == off / PAGE + 1;
      }
      if c < n {
        assert n - c < PAGE;
        TailOnTarget(hash, f, capacity, t, n - c, off + c);
      }
    }
  }

  /** No chunk of the request is written to index x. */
  ghost predicate Avoids(hash: Hash, f: FileId, capacity: nat, index: nat, n: nat, off: nat, x: nat)
    requires capacity > 0 && index < capacity
    decreases n
  {
    n == 0 ||
    (var t := Target(hash, f, capacity, index, n, off, false);
     t != x && Avoids(hash, f, capacity, t, n - ChunkLen(off, n), off + ChunkLen(off, n), x))
  }

  lemma {:induction false} AvoidedUnchanged(m: Disk, hash: Hash, f: FileId, index: nat, data: seq<byte>, off: nat,
                                            x: nat)
    requires IsDisk(m) && index < |m| && x < |m| && Avoids(hash, f, |m|, index, |data|, off, x)
    ensures WriteChunks(m, hash, f, index, data, off, false)[x] == m[x]
    decreases |data|
  {
    if data != [] {
      var c := ChunkLen(off, |data|);
      var t := Target(hash, f, |m|, index, |data|, off, false);
      AvoidedUnchanged(m[t := Splice(m[t], off % PAGE, data[..c])], hash, f, t, data[c..], off + c, x);
    }
  }

  /** From a block boundary on, whole blocks all go to the stale index and only the tail goes elsewhere. */
  lemma {:induction false} AlignedAvoids(hash: Hash, f: FileId, capacity: nat, index: nat, n: nat, off: nat, x: nat)
    requires capacity > 0 && index < capacity && off % PAGE == 0 && index != x
    requires n % PAGE != 0 ==> Place(hash, BlockId(f, (off + n) / PAGE), capacity) != x
    ensures Avoids(hash, f, capacity, index, n, off, x)
    decreases n
  {
    hide Place;
    if n > 0 {
      var c := ChunkLen(off, n);
      if n < PAGE {
        assert (off + n) / PAGE == off / PAGE;
      } else {
        assert c == PAGE && (off + c) + (n - c) == off + n && (n - c) % PAGE == n % PAGE;
        AlignedAvoids(hash, f, capacity, index, n - c, off + c, x);
      }
    }
  }

  /** A request that is not harmless covers a whole block that is never written. */
  lemma MissedBlock(hash: Hash, used: set<BlockId>, f: FileId, capacity: nat, n: nat, off: nat) returns (b: nat)
    requires capacity > 0 && CollisionFree(hash, used, capacity) && Touches(used, f, off, n)
    requires !Harmless(hash, f, capacity, off, n)
    ensures off <= b * PAGE && b * PAGE + PAGE <= off + n
    ensures BlockId(f, b) in used && Avoids(hash, f, capacity, 0, n, off, Place(hash, BlockId(f, b), capacity))
  {
    var first, end := FirstFull(off), EndFull(off, n);
    assert end * PAGE <= off + n < end * PAGE + PAGE;
    b := if off % PAGE == 0 && Place(hash, BlockId(f, first), capacity) == 0 then first + 1 else first;
    FirstFullStart(off);
    assert BlockId(f, first) in used && BlockId(f, b) in used;
    var x := Place(hash, BlockId(f, b), capacity);
    if off % PAGE == 0 {
      TailPlace(hash, used, f, capacity, n, off, b);
      AlignedAvoids(hash, f, capacity, 0, n, off, x);
    } else {
      var c := ChunkLen(off, n);
      assert BlockId(f, off / PAGE) in used;
      var t := Target(hash, f, capacity, 0, n, off, false);
      TailPlace(hash, used, f, capacity, n - c, off + c, b);
      AlignedAvoids(hash, f, capacity, t, n - c, off + c, x);
    }
  }

  lemma FirstFullStart(off: nat)
    ensures off <= FirstFull(off) * PAGE < off + PAGE
    ensures off % PAGE == 0 ==> FirstFull(off) == off / PAGE
    ensures off % PAGE != 0 ==> FirstFull(off) == off / PAGE + 1
  {
  }

  /** The block of the partial tail is not b, so it has another place. */
  lemma TailPlace(hash: Hash, used: set<BlockId>, f: FileId, capacity: nat, n: nat, off: nat, b: nat)
    requires capacity > 0 && CollisionFree(hash, used, capacity) && Touches(used, f, off, n)
    requires off % PAGE == 0 && BlockId(f, b) in used && b * PAGE + PAGE <= off + n
    ensures n % PAGE != 0 ==>
            Place(hash, BlockId(f, (off + n) / PAGE), capacity) != Place(hash, BlockId(f, b), capacity)
  {
    if n % PAGE != 0 {
      var e := (off + n) / PAGE;
      assert (off + n) % PAGE == n % PAGE;
      assert e * PAGE + n % PAGE == off + n;
      assert BlockId(f, e) in used;
    }
  }

  /**
   The write loop as the source has it is a byte-array write, whatever the pages and the data, exactly on the
   harmless requests.
   */
  lemma WriteExactIffHarmless(hash: Hash, used: set<BlockId>, f: FileId, capacity: nat, n: nat, off: nat)
    requires capacity > 0 && CollisionFree(hash, used, capacity) && Touches(used, f, off, n)
    ensures Harmless(hash, f, capacity, off, n) <==>
            forall m: Disk, data: seq<byte> {:trigger WriteChunks(m, hash, f, 0, data, off, false)} ::
              IsDisk(m) && |m| == capacity && |data| == n ==>
              Wrote(m, WriteChunks(m, hash, f, 0, data, off, false), hash, used, f, off, data)
  {
    hide Wrote, IsDisk;
    if Harmless(hash, f, capacity, off, n) {
      forall m: Disk, data: seq<byte> | IsDisk(m) && |m| == capacity && |data| == n
        ensures Wrote(m, WriteChunks(m, hash, f, 0, data, off, false), hash, used, f, off, data)
      {
        HarmlessOnTarget(hash, f, capacity, n, off);
        OnTargetWrites(m, hash, used, f, 0, data, off, false);
      }
    } else {
      var m, data := LostWrite(hash, used, f, capacity, n, off);
    }
  }

  /** Ones written over zeros: the missed block keeps its zeros. */
  lemma LostWrite(hash: Hash, used: set<BlockId>, f: FileId, capacity: nat, n: nat, off: nat)
    returns (m: Disk, data: seq<byte>)
    requires capacity > 0 && CollisionFree(hash, used, capacity) && Touches(used, f, off, n)
    requires !Harmless(hash, f, capacity, off, n)
    ensures IsDisk(m) && |m| == capacity && |data| == n
    ensures !Wrote(m, WriteChunks(m, hash, f, 0, data, off, false), hash, used, f, off, data)
    ensures ReadChunks(WriteChunks(m, hash, f, 0, data, off, false), hash, f, n, off) != data
  {
    hide WriteChunks, ReadChunks, Avoids, Harmless, CollisionFree, Touches;
    m, data := seq(capacity, _ => seq(PAGE, _ => 0)), seq(n, _ => 1);
    var b := MissedBlock(hash, used, f, capacity, n, off);
    MissedByte(m, WriteChunks(m, hash, f, 0, data, off, false), hash, used, f, off, data, b) by {
      AvoidedUnchanged(m, hash, f, 0, data, off, Place(hash, BlockId(f, b), capacity));
    }
  }

  /** A byte of the request that is not the one written. */
  lemma MissedByte(m: Disk, m': Disk, hash: Hash, used: set<BlockId>, f: FileId, off: nat, data: seq<byte>, b: nat)
    requires IsDisk(m) && IsDisk(m') && |m'| == |m| && BlockId(f, b) in used
    requires off <= b * PAGE < off + |data| && m'[Place(hash, BlockId(f, b), |m|)][0] != data[b * PAGE - off]
    ensures !Wrote(m, m', hash, used, f, off, data)
    ensures ReadChunks(m', hash, f, |data|, off) != data
  {
    hide ReadChunks;
    var x, j := BlockId(f, b), b * PAGE - off;
    assert Expected(m, hash, x, 0, f, off, data) == data[j];
    ReadExact(m', hash, f, |data|, off, j);
    SameBlock(b * PAGE, 0);
    assert (off + j) / PAGE == b && (off + j) % PAGE == 0;
  }

  /** Reading back what was written delivers it, for all pages and data, exactly on the harmless requests. */
  lemma RoundTripIffHarmless(hash: Hash, used: set<BlockId>, f: FileId, capacity: nat, n: nat, off: nat)
    requires capacity > 0 && CollisionFree(hash, used, capacity) && Touches(used, f, off, n)
    ensures Harmless(hash, f, capacity, off, n) <==>
            forall m: Disk, data: seq<byte> {:trigger WriteChunks(m, hash, f, 0, data, off, false)} ::
              IsDisk(m) && |m| == capacity && |data| == n ==>
              ReadChunks(WriteChunks(m, hash, f, 0, data, off, false), hash, f, n, off) == data
  {
    hide Wrote, IsDisk, ReadChunks, WriteChunks, Harmless;
    if Harmless(hash, f, capacity, off, n) {
      forall m: Disk, data: seq<byte> | IsDisk(m) && |m| == capacity && |data| == n
        ensures ReadChunks(WriteChunks(m, hash, f, 0, data, off, false), hash, f, n, off) == data
      {
        HarmlessOnTarget(hash, f, capacity, n, off);
        OnTargetWrites(m, hash, used, f, 0, data, off, false);
        var m' := WriteChunks(m, hash, f, 0, data, off, false);
        forall j | 0 <= j < n ensures ReadChunks(m', hash, f, n, off)[j] == data[j] {
          ReadAfterWrite(m, m', hash, used, f, off, data, f, n, off, j);
        }
      }
    } else {
      var m, data := LostWrite(hash, used, f, capacity, n, off);
    }
  }

  /** For instance, any write of two aligned pages or more loses a page: some data do not come back. */
  lemma AlignedWriteLosesData(hash: Hash, used: set<BlockId>, f: FileId, capacity: nat, off: nat, n: nat)
    returns (m: Disk, data: seq<byte>)
    requires capacity > 0 && CollisionFree(hash, used, capacity) && Touches(used, f, off, n)
    requires off % PAGE == 0 && n >= 2 * PAGE
    ensures IsDisk(m) && |m| == capacity && |data| == n
    ensures ReadChunks(WriteChunks(m, hash, f, 0, data, off, false), hash, f, n, off) != data
  {
    hide ReadChunks, WriteChunks, CollisionFree, Touches;
    FirstFullStart(off);
    assert off == off / PAGE * PAGE;
    assert (off + n) / PAGE >= off / PAGE + 2;
    m, data := LostWrite(hash, used, f, capacity, n, off);
  }
}
