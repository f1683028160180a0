/**
 File metadata (src/fs/FMStore.cpp) and file data access (LocofsClient::write and read,
 src/fs/LocofsClient.cpp) on top of the erasure-coded store.
 */
module FileClient {
  import opened GaloisField
  import opened Options
  import opened PageLayout
  import opened FileBlocks
  import opened FileRuns
  import opened Ecal

  /** FMStore: file key -> access inode (its mode) and content inode. */
  class FileServer {
    var access: map<string, int>
    var content: map<string, ContentInode>
    var suuidCounter: int
    const sid: int

    ghost function Meta(): Meta
      reads this
    {
      FileRuns.Meta(content, suuidCounter, sid)
    }

    /** Both stores have the same files, with distinct identities. */
    ghost predicate Valid()
      reads this
    {
      access.Keys == content.Keys && MetaValid(Meta())
    }

    constructor (sid: int)
      ensures Valid() && content == map[] && suuidCounter == 0 && this.sid == sid
    {
      this.sid := sid;
      access, content, suuidCounter := map[], map[], 0;
    }

    /** create: also when the key exists, the file gets a new identity and size 0. */
    method Create(key: string, mode: int) returns (r: int)
      requires Valid()
      modifies this
      ensures Valid() && r == 0
      ensures content == old(content)[key := ContentInode(0, 4096, old(suuidCounter), sid)]
      ensures access == old(access)[key := mode] && suuidCounter == old(suuidCounter) + 1
      ensures forall other :: other in old(content) ==> content[key].Id() != old(content)[other].Id()
    {
      hide MetaValid;
      MetaStepValid(Meta(), CreateOp(key));
      NewIdentity(Meta());
      access := access[key := mode];
      content := content[key := ContentInode(0, PAGE, suuidCounter, sid)];
      suuidCounter := suuidCounter + 1;
      r := 0;
    }

    method Remove(key: string) returns (r: int)
      requires Valid()
      modifies this`access, this`content
      ensures Valid()
      ensures r == if key in old(content) then 0 else -1
      ensures access == old(access) - {key} && content == old(content) - {key}
    {
      if key !in access { return -1; }
      access := access - {key};
      if key !in content { return -1; }
      content := content - {key};
      r := 0;
    }

    method Csize(key: string, size: int) returns (r: int)
      requires Valid()
      modifies this`content
      ensures Valid()
      ensures r == if key in old(content) then 0 else -1
      ensures content ==
              if key in old(content) then old(content)[key := old(content)[key].(size := size)] else old(content)
    {
      hide MetaValid;
      ResizeValid(Meta(), key, size);
      if key !in content { return -1; }
      content := content[key := content[key].(size := size)];
      r := 0;
    }

    /** getAttr fails unless both inodes are there. */
    method GetAttr(key: string) returns (r: Option<ContentInode>)
      requires Valid()
      ensures r == if key in content then Some(content[key]) else None
    {
      if key !in access || key !in content { return None; }
      r := Some(content[key]);
    }
  }

  lemma NewIdentity(m: Meta)
    requires MetaValid(m)
    ensures forall key :: key in m.content ==> m.content[key].Id() != FileId(m.sid, m.counter)
  {
  }

  lemma ResizeValid(m: Meta, key: string, size: int)
    requires MetaValid(m)
    ensures key in m.content ==> MetaValid(m.(content := m.content[key := m.content[key].(size := size)]))
  {
  }

  class Client {
    const store: Store
    const fm: FileServer
    const hash: Hash

    constructor (store: Store, fm: FileServer, hash: Hash)
      ensures this.store == store && this.fm == fm && this.hash == hash
    {
      this.store, this.fm, this.hash := store, fm, hash;
    }

    ghost predicate Ready()
      reads this, store, store.memory, fm
    {
      store.Ready() && store.capacity > 0 && fm.Valid()
    }

    ghost function State(): (s: Files)
      requires Ready()
      reads this, store, store.memory, fm
      ensures FilesValid(s) && |s.pages| == store.capacity && s.meta == fm.Meta()
    {
      Files(store.Pages(), store.Steady(), fm.Meta())
    }

    /** The files are the byte arrays of spec, and the blocks in use are among used, which do not collide. */
    ghost predicate Serves(used: set<BlockId>, spec: map<string, File>)
      reads this, store, store.memory, fm
    {
      && Ready()
      && CollisionFree(hash, used, store.capacity)
      && Covers(used, fm.content)
      && Refines(State(), hash, spec)
    }

    lemma ServesReady(used: set<BlockId>, spec: map<string, File>)
      requires Serves(used, spec)
      ensures Ready() && Refines(State(), hash, spec)
    {
    }

    /** More blocks may be used, as long as they do not collide. */
    lemma ServesMore(used: set<BlockId>, more: set<BlockId>, spec: map<string, File>)
      requires Serves(used, spec) && used <= more && CollisionFree(hash, more, store.capacity)
      ensures Serves(more, spec)
    {
    }

    /** Whatever the device and the file server hold, they serve the byte arrays of their steady pages. */
    lemma ServesSnapshot(used: set<BlockId>)
      requires Ready() && CollisionFree(hash, used, store.capacity) && Covers(used, fm.content)
      requires forall key :: key in fm.content ==> fm.content[key].size >= 0
      ensures Serves(used, Snapshot(State(), hash))
    {
    }

    /** create, with the key of the file. */
    method Create(key: string, mode: int) returns (ok: bool)
      requires Ready()
      modifies fm
      ensures Ready() && ok && Step(old(State()), hash, CreateOp(key), State(), false)
    {
      hide Store.Ready, Store.Pages, Store.Steady;
      var r := fm.Create(key, mode);
      ok := r == 0;
    }

    /** unlink, with the key of the file. */
    method Unlink(key: string) returns (ok: bool)
      requires Ready()
      modifies fm
      ensures Ready() && (ok <==> key in old(fm.content))
      ensures Step(old(State()), hash, RemoveOp(key), State(), false)
    {
      hide Store.Ready, Store.Pages, Store.Steady;
      var r := fm.Remove(key);
      ok := r == 0;
    }

    /**
     write. The page buffer starts with index 0, and only the read-modify-write branch sets its index. If the
     blocks in use do not collide and the request is harmless, exactly the requested bytes of this file change.
     */
    method Write(key: string, buf: seq<byte>, len: int, off: nat, ghost used: set<BlockId>,
                 ghost spec: map<string, File>)
      returns (ok: bool)
      requires Ready() && len <= |buf|
      modifies store`readBitmap, store`writeBitmap, store`history
      modifies store.encodeBuffer, store.memory, store.readRegion, store.writeRegion, fm`content
      ensures Ready()
      ensures ok <==> key in old(fm.content)
      ensures Step(old(State()), hash, WriteOp(key, buf, len, off), State(), false)
      ensures old(Serves(used, spec))
              && SafeStep(old(State()).meta, store.capacity, hash, used, WriteOp(key, buf, len, off), false)
              ==> Serves(used, SpecStep(spec, WriteOp(key, buf, len, off)))
    {
      hide Store.Ready, Store.Pages, Store.Steady, Refines, SafeStep, SpecStep, CollisionFree, Step, Covers;
      ghost var s, op := State(), WriteOp(key, buf, len, off);
      ghost var served := Serves(used, spec);
      ok := WriteFile(key, buf, len, off);
      StillServes(s, op, used, spec, served);
    }

    /** write, without what it means for the byte arrays. */
    method WriteFile(key: string, buf: seq<byte>, len: int, off: nat) returns (ok: bool)
      requires Ready() && len <= |buf|
      modifies store`readBitmap, store`writeBitmap, store`history
      modifies store.encodeBuffer, store.memory, store.readRegion, store.writeRegion, fm`content
      ensures Ready() && (ok <==> key in old(fm.content))
      ensures Step(old(State()), hash, WriteOp(key, buf, len, off), State(), false)
    {
      hide Store.Ready, Store.Pages, Store.Steady, Step, MetaValid;
      ghost var s := State();
      var stat := WriteStat(key, buf, len, off);
      if stat.None? {
        WriteEffect(s, hash, key, buf, len, off, State());
        return false;
      }
      ok := WriteSize(key, stat.value, buf, len, off, s);
    }

    /** The first half of write: the file's inode, and the data. */
    method WriteStat(key: string, buf: seq<byte>, len: int, off: nat) returns (stat: Option<ContentInode>)
      requires Ready() && len <= |buf|
      modifies store`readBitmap, store`writeBitmap, store`history
      modifies store.encodeBuffer, store.memory, store.readRegion, store.writeRegion
      ensures Ready() && State().meta == old(State().meta)
      ensures stat == if key in fm.content then Some(fm.content[key]) else None
      ensures stat.None? ==> State() == old(State())
      ensures stat.Some? ==> DataWritten(old(State()), stat.value, buf, len, off, State())
    {
      hide WriteChunks, Targets, Store.Ready, Store.Pages, Store.Steady, MetaValid;
      stat := fm.GetAttr(key);
      if stat.None? { return; }
      BlockSizeIsPage(fm.Meta(), key);
      WriteData(stat.value, buf, len, off);
    }

    ghost predicate DataWritten(s: Files, st: ContentInode, buf: seq<byte>, len: int, off: nat, s': Files)
      requires IsDisk(s.pages)
    {
      var data := if 0 < len <= |buf| then buf[..len] else [];
      && s'.pages == WriteChunks(s.pages, hash, st.Id(), 0, data, off, false)
      && s'.steady == s.steady + Targets(hash, st.Id(), |s.pages|, 0, |data|, off, false)
    }

    /** The second half: the new size. */
    method WriteSize(key: string, st: ContentInode, buf: seq<byte>, len: int, off: nat, ghost s: Files)
      returns (ok: bool)
      requires Ready() && len <= |buf| && key in fm.content && fm.content[key] == st
      requires FilesValid(s) && s.meta == fm.Meta() && DataWritten(s, st, buf, len, off, State())
      modifies fm`content
      ensures Ready() && ok && Step(s, hash, WriteOp(key, buf, len, off), State(), false)
    {
      hide WriteChunks, Targets, Store.Ready, Store.Pages, Store.Steady, Step, MetaValid;
      var size := if st.size > off + len then st.size else off + len;
      var r := fm.Csize(key, size);
      WriteEffect(s, hash, key, buf, len, off, State());
      ok := r == 0;
    }

    static lemma BlockSizeIsPage(m: Meta, key: string)
      requires MetaValid(m) && key in m.content
      ensures m.content[key].blockSize == PAGE
    {
    }

    /** A safe request keeps the files equal to the byte arrays. */
    lemma StillServes(s: Files, op: Op, used: set<BlockId>, spec: map<string, File>, served: bool)
      requires Ready() && FilesValid(s) && |s.pages| == store.capacity && Step(s, hash, op, State(), false)
      requires served ==> Refines(s, hash, spec)
      ensures served && SafeStep(s.meta, store.capacity, hash, used, op, false) ==> Serves(used, SpecStep(spec, op))
    {
      hide Store.Ready, Store.Pages, Store.Steady, Refines, SafeStep, SpecStep, CollisionFree, Step, Covers;
      if served && SafeStep(s.meta, store.capacity, hash, used, op, false) {
        StepRefines(s, hash, used, spec, op, State(), false);
        StepCovers(s, hash, used, op, State());
      }
    }

    /** The write step, spelled out. */
    static lemma WriteEffect(s: Files, hash: Hash, key: string, buf: seq<byte>, len: int, off: nat, s': Files)
      requires IsDisk(s.pages) && len <= |buf|
      requires key !in s.meta.content ==> s' == s
      requires key in s.meta.content ==>
        var inode, data := s.meta.content[key], if len > 0 then buf[..len] else [];
        var size := if inode.size > off + len then inode.size else off + len;
        && s'.pages == WriteChunks(s.pages, hash, inode.Id(), 0, data, off, false)
        && s'.steady == s.steady + Targets(hash, inode.Id(), |s.pages|, 0, |data|, off, false)
        && s'.meta == s.meta.(content := s.meta.content[key := inode.(size := size)])
      ensures Step(s, hash, WriteOp(key, buf, len, off), s', false)
    {
    }

    static lemma StepCovers(s: Files, hash: Hash, used: set<BlockId>, op: Op, s': Files)
      requires SafeStep(s.meta, |s.pages|, hash, used, op, false) && Step(s, hash, op, s', false)
      ensures CollisionFree(hash, used, |s.pages|) && Covers(used, s'.meta.content)
    {
    }

    /** One chunk: read, patch and write back, or write the page at whatever index it carries. */
    method WriteChunk(st: ContentInode, page: Page, chunk: seq<byte>, offset: nat, ghost n: nat)
      requires store.Ready() && page.index < store.capacity && st.blockSize == PAGE
      requires 0 < n && |chunk| == ChunkLen(offset, n)
      requires page.data.Length == PAGE && page.data != store.encodeBuffer && page.data !in store.memory
      requires page.data !in store.readRegion && page.data !in store.writeRegion
      modifies store`readBitmap, store`writeBitmap, store`history
      modifies store.encodeBuffer, store.memory, store.readRegion, store.writeRegion, page, page.data
      ensures store.Ready()
      ensures page.index ==
              if offset % PAGE != 0 || offset % PAGE + |chunk| < PAGE
              then hash(BlockId(FileId(st.sid, st.suuid), offset / PAGE)) % store.capacity else old(page.index)
      ensures page.index == Target(hash, st.Id(), store.capacity, old(page.index), n, offset, false)
      ensures store.Pages()
              == old(store.Pages())[page.index := Splice(old(store.Pages())[page.index], offset % PAGE, chunk)]
      ensures store.Steady() == old(store.Steady()) + {page.index}
    {
      hide Store.Ready, Store.Pages, Store.Steady, Splice;
      var blockOff := offset % st.blockSize;
      var blkno := hash(BlockId(FileId(st.sid, st.suuid), offset / st.blockSize)) % store.capacity;
      if blockOff != 0 || blockOff + |chunk| < PAGE {
        store.ReadPage(blkno, page);
        Copy(page.data, blockOff, chunk);
        store.WritePage(page);
      } else {
        Copy(page.data, 0, chunk);
        FullPage(store.Pages()[page.index], page.data[..], chunk);
        store.WritePage(page);
      }
    }

    /** The writing loop. */
    method WriteData(st: ContentInode, buf: seq<byte>, len: int, off: nat)
      requires store.Ready() && store.capacity > 0 && len <= |buf| && st.blockSize == PAGE
      modifies store`readBitmap, store`writeBitmap, store`history
      modifies store.encodeBuffer, store.memory, store.readRegion, store.writeRegion
      ensures store.Ready()
      ensures store.Pages()
              == WriteChunks(old(store.Pages()), hash, st.Id(), 0, if len > 0 then buf[..len] else [], off, false)
      ensures store.Steady()
              == old(store.Steady()) + Targets(hash, st.Id(), store.capacity, 0, if len > 0 then len else 0, off, false)
    {
      hide Store.Ready, Store.Pages, Store.Steady, Splice, Target, WriteChunks, Targets, ChunkLen;
      var remaining, offset: nat, start: nat := len, off, 0;
      ghost var rest := if len > 0 then buf[..len] else [];
      ghost var goal := WriteChunks(store.Pages(), hash, st.Id(), 0, rest, off, false);
      ghost var steady := store.Steady() + Targets(hash, st.Id(), store.capacity, 0, |rest|, off, false);
      var page := new Page(0);
      while remaining > 0
        invariant store.Ready() && page.index < store.capacity
        invariant |rest| == (if remaining > 0 then remaining else 0)
        invariant remaining > 0 ==> start + remaining == len && rest == buf[start..len]
        invariant goal == WriteChunks(store.Pages(), hash, st.Id(), page.index, rest, offset, false)
        invariant steady ==
          store.Steady() + Targets(hash, st.Id(), store.capacity, page.index, |rest|, offset, false)
        invariant fresh(page) && fresh(page.data) && page.data.Length == PAGE
        decreases remaining
      {
        var blockLen := st.blockSize - offset % st.blockSize;
        blockLen := if remaining > blockLen then blockLen else remaining;
        var chunk := buf[start..start + blockLen];
        ChunkOf(buf, start, len, blockLen);
        ChunkIs(offset, |rest|, blockLen);
        ghost var m, index := store.Pages(), page.index;
        WriteChunk(st, page, chunk, offset, |rest|);
        WriteStep(m, hash, st.Id(), index, rest, offset, blockLen, page.index, false);
        TargetsStep(hash, st.Id(), store.capacity, index, |rest|, offset, page.index);
        rest := rest[blockLen..];
        start := start + blockLen;
        remaining := remaining - blockLen;
        offset := offset + blockLen;
      }
      DoneWriting(store.Pages(), page.index, st.Id(), offset);
    }

    static lemma TargetsStep(hash: Hash, id: FileId, capacity: nat, index: nat, n: nat, off: nat, t: nat)
      requires capacity > 0 && index < capacity && n > 0 && t == Target(hash, id, capacity, index, n, off, false)
      ensures Targets(hash, id, capacity, index, n, off, false)
           == {t} + Targets(hash, id, capacity, t, n - ChunkLen(off, n), off + ChunkLen(off, n), false)
    {
    }

    static lemma ChunkIs(off: nat, n: nat, c: nat)
      requires c == if n > PAGE - off % PAGE then PAGE - off % PAGE else n
      ensures c == ChunkLen(off, n)
    {
    }

    lemma ChunkOf(buf: seq<byte>, start: nat, end: nat, c: nat)
      requires start + c <= end <= |buf|
      ensures buf[start..start + c] == buf[start..end][..c] && buf[start + c..end] == buf[start..end][c..]
    {
    }

    lemma DoneWriting(m: Disk, index: nat, id: FileId, offset: nat)
      requires IsDisk(m) && index < |m|
      ensures WriteChunks(m, hash, id, index, [], offset, false) == m
      ensures Targets(hash, id, |m|, index, 0, offset, false) == {}
    {
    }

    lemma FullPage(before: seq<byte>, page: seq<byte>, chunk: seq<byte>)
      requires |before| == |page| == |chunk| == PAGE
      requires page == Splice(page, 0, chunk)
      ensures page == chunk == Splice(before, 0, chunk)
    {
    }

    /**
     read: the number of bytes read, 0 for a missing file, -1 for a range that ends after the file. The buffer
     receives every byte of the file that has been written.
     */
    method Read(key: string, buf: array<byte>, len: int, off: nat, ghost spec: map<string, File>) returns (r: int)
      requires Ready() && len <= buf.Length
      requires buf != store.encodeBuffer && buf !in store.memory && buf !in store.readRegion
               && buf !in store.writeRegion
      modifies store`readBitmap, store.readRegion, buf
      ensures Ready() && State() == old(State())
      ensures key !in fm.content ==> r == 0 && buf[..] == old(buf[..])
      ensures key in fm.content ==>
        var inode := fm.content[key];
        var n := if inode.size < len then inode.size else len;
        if off + n > inode.size then r == -1 && buf[..] == old(buf[..])
        else
          && r == (if n > 0 then n else 0)
          && buf[..] == Splice(old(buf[..]), 0, ReadChunks(store.Pages(), hash, inode.Id(), r, off))
      ensures Refines(State(), hash, spec) && key in spec ==>
        forall j :: 0 <= j < r ==>
          off + j < |spec[key]| && (spec[key][off + j].Some? ==> buf[j] == spec[key][off + j].value)
    {
      hide Store.Ready, Store.Pages, Store.Steady, ReadChunks;
      var stat := fm.GetAttr(key);
      if stat.None? { return 0; }
      var st := stat.value;
      var remaining := if st.size < len then st.size else len;
      if off + remaining > st.size { return -1; }
      r := ReadData(st, buf, remaining, off);
      if Refines(State(), hash, spec) && key in spec {
        SpecSize(State(), hash, spec, key);
        forall j | 0 <= j < r && spec[key][off + j].Some?
          ensures buf[j] == spec[key][off + j].value
        {
          ReadDelivers(State(), hash, spec, key, r, off, j);
          assert buf[j] == buf[..][j];
        }
      }
    }

    static lemma SpecSize(s: Files, hash: Hash, spec: map<string, File>, key: string)
      requires IsDisk(s.pages) && Refines(s, hash, spec) && key in spec
      ensures key in s.meta.content && s.meta.content[key].size == |spec[key]|
    {
      assert Holds(s.pages, s.steady, hash, s.meta.content[key], spec[key]);
    }

    /** One chunk: read the block and copy its part into the buffer. */
    method ReadChunk(st: ContentInode, page: Page, buf: array<byte>, start: nat, offset: nat, blockLen: nat)
      returns (ghost block: seq<byte>)
      requires store.Ready() && store.capacity > 0 && st.blockSize == PAGE
      requires offset % PAGE + blockLen <= PAGE && start + blockLen <= buf.Length
      requires buf != store.encodeBuffer && buf !in store.memory && buf !in store.readRegion
               && buf !in store.writeRegion
      requires page.data.Length == PAGE && page.data != buf && page.data !in store.memory
               && page.data !in store.readRegion
      modifies store`readBitmap, store.readRegion, buf, page, page.data
      ensures store.Ready() && store.Pages() == old(store.Pages()) && store.Steady() == old(store.Steady())
      ensures block ==
              store.Pages()[hash(BlockId(FileId(st.sid, st.suuid), offset / PAGE)) % store.capacity]
      ensures buf[..] == Splice(old(buf[..]), start, block[offset % PAGE..offset % PAGE + blockLen])
    {
      hide Store.Ready, Store.Pages, Store.Steady, Splice;
      var blockOff := offset % st.blockSize;
      var blkno := hash(BlockId(FileId(st.sid, st.suuid), offset / st.blockSize)) % store.capacity;
      store.ReadPage(blkno, page);
      block := page.data[..];
      Copy(buf, start, page.data[..][blockOff..blockOff + blockLen]);
    }

    /** The reading loop. */
    method ReadData(st: ContentInode, buf: array<byte>, len: int, off: nat) returns (start: nat)
      requires store.Ready() && store.capacity > 0 && len <= buf.Length && st.blockSize == PAGE
      requires buf != store.encodeBuffer && buf !in store.memory && buf !in store.readRegion
               && buf !in store.writeRegion
      modifies store`readBitmap, store.readRegion, buf
      ensures store.Ready() && store.Pages() == old(store.Pages()) && store.Steady() == old(store.Steady())
      ensures start == if len > 0 then len else 0
      ensures buf[..] == Splice(old(buf[..]), 0, ReadChunks(store.Pages(), hash, st.Id(), start, off))
    {
      hide Store.Ready, Store.Pages, Store.Steady, ReadChunks, Splice, Place;
      ghost var m, n: nat := store.Pages(), if len > 0 then len else 0;
      ghost var before, got := buf[..], [];
      ghost var rest := ReadChunks(m, hash, st.Id(), n, off);
      ghost var goal := rest;
      var remaining, offset: nat := len, off;
      start := 0;
      NothingCopied(before, goal);
      var page := new Page(0);
      while remaining > 0
        invariant store.Ready() && store.Pages() == m && store.Steady() == old(store.Steady())
        invariant start <= n && n - start == (if remaining > 0 then remaining else 0)
        invariant rest == ReadChunks(m, hash, st.Id(), n - start, offset)
        invariant goal == got + rest && |got| == start && buf[..] == Splice(before, 0, got)
        invariant fresh(page) && fresh(page.data) && page.data.Length == PAGE
        decreases remaining
      {
        var blockOff := offset % st.blockSize;
        var blockLen := st.blockSize - blockOff;
        blockLen := if remaining > blockLen then blockLen else remaining;
        assert blockLen == ChunkLen(offset, n - start);
        ghost var block := ReadChunk(st, page, buf, start, offset, blockLen);
        ReadStep(m, hash, st.Id(), n - start, offset, blockLen, block);
        ghost var chunk := block[blockOff..blockOff + blockLen];
        SpliceNext(before, got, chunk);
        got := got + chunk;
        rest := ReadChunks(m, hash, st.Id(), n - start - blockLen, offset + blockLen);
        start := start + blockLen;
        remaining := remaining - blockLen;
        offset := offset + blockLen;
      }
      assert goal == got;
    }

    // ---------- a client's session ----------

    static function Losses(ops: seq<Op>): nat {
      if ops == [] then 0 else Losses(ops[1..]) + (if ops[0].LoseOp? then 1 else 0)
    }

    static function Lost(ops: seq<Op>): set<nat> {
      if ops == [] then {} else Lost(Front(ops)) + (if Last(ops).LoseOp? then {Last(ops).peer} else {})
    }

    static predicate Wellformed(op: Op, clusterSize: nat) {
      match op
      case WriteOp(_, buf, len, _) => len <= |buf|
      case LoseOp(peer) => peer < clusterSize
      case _ => true
    }

    /** One request, or the loss of a peer. */
    method Perform(op: Op, ghost used: set<BlockId>, ghost spec: map<string, File>)
      requires Serves(used, spec) && SafeStep(State().meta, store.capacity, hash, used, op, false)
      requires Wellformed(op, store.clusterSize)
      requires store.LiveCount() >= store.k + Losses([op])
      modifies store`readBitmap, store`writeBitmap, store`history, store`forcedConnStat
      modifies store.encodeBuffer, store.memory, store.readRegion, store.writeRegion, fm
      ensures Ready() && Serves(used, SpecStep(spec, op)) && Step(old(State()), hash, op, State(), false)
      ensures store.LiveCount() + Losses([op]) >= old(store.LiveCount())
      ensures store.Live() == if op.LoseOp? then store.WithPeer(old(store.Live()), op.peer, false)
              else old(store.Live())
    {
      hide Store.Ready, Store.Pages, Store.Steady, Refines, SafeStep, SpecStep, CollisionFree, Covers, WriteChunks,
          Targets;
      ghost var s := State();
      match op {
        case CreateOp(key) => var ok := Create(key, 0);
        case RemoveOp(key) => var ok := Unlink(key);
        case WriteOp(key, buf, len, off) => var ok := Write(key, buf, len, off, used, spec);
        case LoseOp(peer) =>
          store.LossAffordable(peer);
          store.LosePeer(peer);
      }
      StepRefines(s, hash, used, spec, op, State(), false);
      StepCovers(s, hash, used, op, State());
    }

    /**
     Any sequence of requests, with peers lost in between as long as enough of them remain: if every write is
     harmless and the blocks in use do not collide, the files end up as the byte arrays of the specification.
     */
    method Session(ops: seq<Op>, ghost used: set<BlockId>, ghost spec: map<string, File>)
      requires Serves(used, spec) && SafeRun(State().meta, store.capacity, hash, used, ops, false)
      requires forall op :: op in ops ==> Wellformed(op, store.clusterSize)
      requires store.LiveCount() >= store.k + Losses(ops)
      modifies store`readBitmap, store`writeBitmap, store`history, store`forcedConnStat
      modifies store.encodeBuffer, store.memory, store.readRegion, store.writeRegion, fm
      ensures Serves(used, SpecRun(spec, ops)) && Reaches(old(State()), hash, ops, State(), false)
      ensures store.Live() == old(store.Live()) - (Lost(ops) - {store.self})
    {
      hide SafeStep, SafeRun, Step, SpecStep, SpecRun, MetaStep, MetaRun, Reaches, Losses, Lost, Serves, State,
          Wellformed;
      ServesReady(used, spec);
      ghost var s, live := State(), store.Live();
      var i := 0;
      RunStarts(s, hash, ops, spec);
      while i < |ops|
        invariant 0 <= i <= |ops| && Ready()
        invariant Serves(used, SpecRun(spec, ops[..i])) && Reaches(s, hash, ops[..i], State(), false)
        invariant State().meta == MetaRun(s.meta, ops[..i])
        invariant store.Live() == live - (Lost(ops[..i]) - {store.self})
        invariant store.LiveCount() >= store.k + Losses(ops[i..])
      {
        RunNext(s, store.capacity, hash, used, ops, spec, i);
        ghost var mid := State();
        Perform(ops[i], used, SpecRun(spec, ops[..i]));
        StepMeta(mid, hash, ops[i], State());
        ReachesNext(s, hash, ops[..i], mid, ops[i], State(), false);
        i := i + 1;
      }
      assert ops[..|ops|] == ops;
    }

    static lemma RunStarts(s: Files, hash: Hash, ops: seq<Op>, spec: map<string, File>)
      ensures SpecRun(spec, ops[..0]) == spec && MetaRun(s.meta, ops[..0]) == s.meta
      ensures Reaches(s, hash, ops[..0], s, false) && ops[0..] == ops && Lost(ops[..0]) == {}
    {
    }

    static lemma RunNext(s: Files, capacity: nat, hash: Hash, used: set<BlockId>, ops: seq<Op>, spec: map<string, File>,
                         i: nat)
      requires i < |ops| && SafeRun(s.meta, capacity, hash, used, ops, false)
      ensures SafeStep(MetaRun(s.meta, ops[..i]), capacity, hash, used, ops[i], false)
      ensures SpecRun(spec, ops[..i + 1]) == SpecStep(SpecRun(spec, ops[..i]), ops[i])
      ensures MetaRun(s.meta, ops[..i + 1]) == MetaStep(MetaRun(s.meta, ops[..i]), ops[i])
      ensures Losses(ops[i..]) == Losses([ops[i]]) + Losses(ops[i + 1..]) && ops[..i + 1] == ops[..i] + [ops[i]]
      ensures Lost(ops[..i + 1]) == Lost(ops[..i]) + (if ops[i].LoseOp? then {ops[i].peer} else {})
    {
      hide SafeStep, SpecStep, MetaStep;
      assert ops[i..][0] == ops[i] && ops[i..][1..] == ops[i + 1..];
      assert Front(ops[..i + 1]) == ops[..i] && Last(ops[..i + 1]) == ops[i];
      assert [ops[i]][1..] == [];
    }

    static lemma StepMeta(s: Files, hash: Hash, op: Op, s': Files)
      requires Step(s, hash, op, s', false)
      ensures s'.meta == MetaStep(s.meta, op)
    {
    }

    lemma NothingCopied(before: seq<byte>, goal: seq<byte>)
      ensures before == Splice(before, 0, []) && goal == [] + goal
    {
    }

    lemma SpliceNext(before: seq<byte>, got: seq<byte>, chunk: seq<byte>)
      requires |got| + |chunk| <= |before|
      ensures Splice(Splice(before, 0, got), |got|, chunk) == Splice(before, 0, got + chunk)
    {
    }
  }
}
