/**
 Files as byte arrays, over whole runs of FMStore and LocofsClient requests on the pages of the block store. A run
 starts anywhere; the block of a file is found through a hash, and blocks in use do not collide.
 */
module FileRuns {
  import opened GaloisField
  import opened Options
  import opened PageLayout
  import opened FileBlocks

  datatype ContentInode = ContentInode(size: int, blockSize: nat, suuid: int, sid: int) {
    function Id(): FileId { FileId(sid, suuid) }
  }

  /** FMStore's content inodes and its counter. */
  datatype Meta = Meta(content: map<string, ContentInode>, counter: int, sid: int)

  /** The pages of the block store, and the indices whose pages the loss of a peer does not change. */
  datatype Files = Files(pages: Disk, steady: set<nat>, meta: Meta)

  /** Requests, and the loss of a peer, which must not be seen in the files. */
  datatype Op =
    | CreateOp(key: string)
    | RemoveOp(key: string)
    | WriteOp(key: string, buf: seq<byte>, len: int, off: nat)
    | LoseOp(peer: nat)

  /** The bytes a write request carries. */
  function Written(buf: seq<byte>, len: int): seq<byte> {
    if 0 < len <= |buf| then buf[..len] else []
  }

  function NewSize(size: int, len: int, off: nat): int {
    if size > off + len then size else off + len
  }

  function MetaStep(m: Meta, op: Op): Meta {
    match op
    case CreateOp(key) =>
      m.(content := m.content[key := ContentInode(0, PAGE, m.counter, m.sid)], counter := m.counter + 1)
    case RemoveOp(key) => m.(content := m.content - {key})
    case WriteOp(key, _, len, off) =>
      if key !in m.content then m else
        m.(content := m.content[key := m.content[key].(size := NewSize(m.content[key].size, len, off))])
    case LoseOp(_) => m
  }

  /** What a request does; with repaired, full-page writes set the page index. */
  ghost predicate Step(s: Files, hash: Hash, op: Op, s': Files, repaired: bool) {
    && IsDisk(s.pages) && IsDisk(s'.pages) && |s'.pages| == |s.pages|
    && s'.meta == MetaStep(s.meta, op)
    && match op
       case WriteOp(key, buf, len, off) =>
         if key !in s.meta.content then s' == s else
           var id, data := s.meta.content[key].Id(), Written(buf, len);
           && s'.pages == WriteChunks(s.pages, hash, id, 0, data, off, repaired)
           && s'.steady == s.steady + Targets(hash, id, |s.pages|, 0, |data|, off, repaired)
       case LoseOp(_) =>
         s.steady <= s'.steady && forall r :: r in s.steady && r < |s.pages| ==> s'.pages[r] == s.pages[r]
       case _ => s'.pages == s.pages && s'.steady == s.steady
  }

  /** What every request keeps: distinct files have distinct identities. */
  ghost predicate MetaValid(m: Meta) {
    && (forall key :: key in m.content ==>
          m.content[key].blockSize == PAGE && m.content[key].sid == m.sid && m.content[key].suuid < m.counter)
    && (forall a, b :: a in m.content && b in m.content && a != b ==> m.content[a].Id() != m.content[b].Id())
  }

  ghost predicate FilesValid(s: Files) {
    IsDisk(s.pages) && MetaValid(s.meta)
  }

  // ---------- the specification: a map from keys to byte arrays ----------

  /** The bytes of a file. None is a byte that no write has set. */
  type File = seq<Option<byte>>

  function Patched(f: File, data: seq<byte>, len: int, off: nat): (r: File)
    ensures |r| == NewSize(|f|, len, off)
    ensures forall i :: 0 <= i < |r| ==>
      r[i] == if off <= i < off + |data| then Some(data[i - off]) else if i < |f| then f[i] else None
  {
    seq(NewSize(|f|, len, off), i requires 0 <= i =>
      if off <= i < off + |data| then Some(data[i - off]) else if i < |f| then f[i] else None)
  }

  function SpecStep(spec: map<string, File>, op: Op): map<string, File> {
    match op
    case CreateOp(key) => spec[key := []]
    case RemoveOp(key) => spec - {key}
    case WriteOp(key, buf, len, off) =>
      if key in spec then spec[key := Patched(spec[key], Written(buf, len), len, off)] else spec
    case LoseOp(_) => spec
  }

  /** Byte i of the file is b, and stays so when peers are lost. */
  ghost predicate Known(m: Disk, steady: set<nat>, hash: Hash, id: FileId, i: nat, b: byte)
    requires IsDisk(m)
  {
    Place(hash, BlockId(id, i / PAGE), |m|) in steady && FileByte(m, hash, id, i) == b
  }

  /** The file of an inode has the size of f and its known bytes. */
  ghost predicate Holds(m: Disk, steady: set<nat>, hash: Hash, inode: ContentInode, f: File)
    requires IsDisk(m)
  {
    && inode.size == |f|
    && forall i :: 0 <= i < |f| && f[i].Some? ==> Known(m, steady, hash, inode.Id(), i, f[i].value)
  }

  ghost predicate Refines(s: Files, hash: Hash, spec: map<string, File>)
    requires IsDisk(s.pages)
  {
    && s.meta.content.Keys == spec.Keys
    && forall key :: key in spec ==> Holds(s.pages, s.steady, hash, s.meta.content[key], spec[key])
  }

  /** used has the blocks of all files. */
  ghost predicate Covers(used: set<BlockId>, content: map<string, ContentInode>) {
    forall key, b: nat {:trigger BlockId(content[key].Id(), b)} ::
      key in content && b * PAGE < content[key].size ==> BlockId(content[key].Id(), b) in used
  }

  /** The blocks of all files. */
  function BlocksInUse(content: map<string, ContentInode>): (used: set<BlockId>)
    ensures Covers(used, content)
    ensures forall x :: x in used ==>
      exists key :: key in content && x.file == FileId(content[key].sid, content[key].suuid)
                    && x.number * PAGE < content[key].size
  {
    set key, b: nat | key in content && 0 <= b < content[key].size && b * PAGE < content[key].size ::
      BlockId(content[key].Id(), b)
  }

  /** The blocks in use after the request do not collide, and a write is harmless unless it is repaired. */
  ghost predicate SafeStep(m: Meta, capacity: nat, hash: Hash, used: set<BlockId>, op: Op, repaired: bool) {
    && capacity > 0
    && CollisionFree(hash, used, capacity)
    && Covers(used, MetaStep(m, op).content)
    && (op.WriteOp? && op.key in m.content && !repaired ==>
          Harmless(hash, m.content[op.key].Id(), capacity, op.off, |Written(op.buf, op.len)|))
  }

  // ---------- one request ----------

  lemma MetaStepValid(m: Meta, op: Op)
    requires MetaValid(m)
    ensures MetaValid(MetaStep(m, op))
  {
  }

  lemma SafeOnTarget(m: Meta, capacity: nat, hash: Hash, used: set<BlockId>, op: Op, repaired: bool)
    requires op.WriteOp? && op.key in m.content && SafeStep(m, capacity, hash, used, op, repaired)
    ensures AllOnTarget(hash, m.content[op.key].Id(), capacity, 0, |Written(op.buf, op.len)|, op.off, repaired)
  {
    hide CollisionFree, Harmless, AllOnTarget, Covers;
    var id, n := m.content[op.key].Id(), |Written(op.buf, op.len)|;
    if repaired {
      RepairedOnTarget(hash, id, capacity, 0, n, op.off);
    } else {
      HarmlessOnTarget(hash, id, capacity, n, op.off);
    }
  }

  /** The write loop, repaired or harmless, is a byte-array write. */
  lemma WriteIsExact(s: Files, hash: Hash, used: set<BlockId>, op: Op, repaired: bool)
    requires FilesValid(s) && op.WriteOp? && op.key in s.meta.content
    requires SafeStep(s.meta, |s.pages|, hash, used, op, repaired)
    ensures var id, data := s.meta.content[op.key].Id(), Written(op.buf, op.len);
            Wrote(s.pages, WriteChunks(s.pages, hash, id, 0, data, op.off, repaired), hash, used, id, op.off, data)
  {
    SafeOnTarget(s.meta, |s.pages|, hash, used, op, repaired);
    hide Wrote, WriteChunks, CollisionFree, Harmless, AllOnTarget, Covers;
    var id, data := s.meta.content[op.key].Id(), Written(op.buf, op.len);
    if data == [] {
      WroteNothing(s.pages, hash, used, id, 0, op.off, repaired);
    } else {
      CoversTouches(used, MetaStep(s.meta, op).content, op.key, |data|, op.off);
      OnTargetWrites(s.pages, hash, used, id, 0, data, op.off, repaired);
    }
  }

  lemma CoversTouches(used: set<BlockId>, content: map<string, ContentInode>, key: string, n: nat, off: nat)
    requires Covers(used, content) && key in content && off + n <= content[key].size
    ensures Touches(used, content[key].Id(), off, n)
  {
  }

  lemma ByteInUse(used: set<BlockId>, content: map<string, ContentInode>, key: string, i: nat)
    requires Covers(used, content) && key in content && i < content[key].size
    ensures BlockId(content[key].Id(), i / PAGE) in used
  {
    assert i / PAGE * PAGE <= i;
  }

  /** The bytes of another file in use after a write to f. */
  lemma HoldsAfterWrite(m: Disk, m': Disk, steady: set<nat>, steady': set<nat>, hash: Hash, used: set<BlockId>,
                        content: map<string, ContentInode>, f: FileId, off: nat, data: seq<byte>, key: string,
                            file: File)
    requires Wrote(m, m', hash, used, f, off, data) && Covers(used, content) && key in content && steady <= steady'
    requires Holds(m, steady, hash, content[key], file) && content[key].Id() != f
    ensures Holds(m', steady', hash, content[key], file)
  {
    assert IsDisk(m') && |m'| == |m|;
    hide Wrote, FileByte, Place;
    forall i | 0 <= i < |file| && file[i].Some?
      ensures Known(m', steady', hash, content[key].Id(), i, file[i].value)
    {
      assert Known(m, steady, hash, content[key].Id(), i, file[i].value);
      ByteInUse(used, content, key, i);
      WroteByte(m, m', hash, used, f, off, data, content[key].Id(), i);
    }
  }

  /** The bytes of the file itself. */
  lemma HoldsPatched(m: Disk, m': Disk, steady: set<nat>, steady': set<nat>, hash: Hash, used: set<BlockId>,
                     content: map<string, ContentInode>, inode: ContentInode, off: nat, data: seq<byte>, len: int,
                     key: string, file: File)
    requires Wrote(m, m', hash, used, inode.Id(), off, data) && Covers(used, content) && key in content
    requires forall i: nat :: off <= i < off + |data| ==> Place(hash, BlockId(inode.Id(), i / PAGE), |m|) in steady'
    requires steady <= steady'
    requires Holds(m, steady, hash, inode, file) && content[key] == inode.(size := NewSize(inode.size, len, off))
    ensures Holds(m', steady', hash, content[key], Patched(file, data, len, off))
  {
    assert IsDisk(m') && |m'| == |m|;
    hide Wrote, FileByte, Place;
    var f := Patched(file, data, len, off);
    forall i | 0 <= i < |f| && f[i].Some?
      ensures Known(m', steady', hash, content[key].Id(), i, f[i].value)
    {
      ByteInUse(used, content, key, i);
      WroteByte(m, m', hash, used, inode.Id(), off, data, inode.Id(), i);
      if !(off <= i < off + |data|) { assert Known(m, steady, hash, inode.Id(), i, file[i].value); }
    }
  }

  lemma CreateRefines(s: Files, hash: Hash, spec: map<string, File>, key: string, s': Files, repaired: bool)
    requires FilesValid(s) && Refines(s, hash, spec) && Step(s, hash, CreateOp(key), s', repaired)
    ensures Refines(s', hash, SpecStep(spec, CreateOp(key)))
  {
    hide Holds;
    EmptyFile(s'.pages, s'.steady, hash, s'.meta.content[key]);
  }

  lemma EmptyFile(m: Disk, steady: set<nat>, hash: Hash, inode: ContentInode)
    requires IsDisk(m) && inode.size == 0
    ensures Holds(m, steady, hash, inode, [])
  {
  }

  lemma LossRefines(s: Files, hash: Hash, spec: map<string, File>, op: Op, s': Files, repaired: bool)
    requires FilesValid(s) && Refines(s, hash, spec) && op.LoseOp? && Step(s, hash, op, s', repaired)
    ensures Refines(s', hash, spec)
  {
    forall key | key in spec
      ensures Holds(s'.pages, s'.steady, hash, s'.meta.content[key], spec[key])
    {
      assert Holds(s.pages, s.steady, hash, s.meta.content[key], spec[key]);
    }
  }

  lemma WriteRefines(s: Files, hash: Hash, used: set<BlockId>, spec: map<string, File>, op: Op, s': Files,
                     repaired: bool)
    requires FilesValid(s) && Refines(s, hash, spec) && SafeStep(s.meta, |s.pages|, hash, used, op, repaired)
    requires op.WriteOp? && op.key in s.meta.content && Step(s, hash, op, s', repaired)
    ensures Refines(s', hash, SpecStep(spec, op))
  {
    var spec', inode, data := SpecStep(spec, op), s.meta.content[op.key], Written(op.buf, op.len);
    var content := s'.meta.content;
    WriteIsExact(s, hash, used, op, repaired);
    SafeOnTarget(s.meta, |s.pages|, hash, used, op, repaired);
    assert spec' == spec[op.key := Patched(spec[op.key], data, op.len, op.off)];
    assert content == s.meta.content[op.key := inode.(size := NewSize(inode.size, op.len, op.off))];
    hide Holds, CollisionFree, Harmless, Wrote, WriteChunks, Targets, AllOnTarget, SpecStep, Covers, Patched,
         Written, NewSize, Place;
    forall i: nat | op.off <= i < op.off + |data|
      ensures Place(hash, BlockId(inode.Id(), i / PAGE), |s.pages|) in s'.steady
    {
      TargetsCover(hash, inode.Id(), |s.pages|, 0, |data|, op.off, repaired, i / PAGE);
    }
    forall k | k in spec'
      ensures Holds(s'.pages, s'.steady, hash, content[k], spec'[k])
    {
      if k == op.key {
        HoldsPatched(s.pages, s'.pages, s.steady, s'.steady, hash, used, content, inode, op.off, data, op.len, k,
            spec[k]);
      } else {
        HoldsAfterWrite(s.pages, s'.pages, s.steady, s'.steady, hash, used, content, inode.Id(), op.off, data, k,
            spec[k]);
      }
    }
  }

  /** Every safe request does to the files what the specification does to the byte arrays. */
  lemma StepRefines(s: Files, hash: Hash, used: set<BlockId>, spec: map<string, File>, op: Op, s': Files,
                    repaired: bool)
    requires FilesValid(s) && Refines(s, hash, spec) && SafeStep(s.meta, |s.pages|, hash, used, op, repaired)
    requires Step(s, hash, op, s', repaired)
    ensures FilesValid(s') && Refines(s', hash, SpecStep(spec, op))
  {
    MetaStepValid(s.meta, op);
    hide Holds, SafeStep, MetaValid;
    match op {
      case CreateOp(key) => CreateRefines(s, hash, spec, key, s', repaired);
      case RemoveOp(key) =>
      case WriteOp(key, _, _, _) =>
        if key in s.meta.content { WriteRefines(s, hash, used, spec, op, s', repaired); }
      case LoseOp(_) => LossRefines(s, hash, spec, op, s', repaired);
    }
  }

  // ---------- runs ----------

  function MetaRun(m: Meta, ops: seq<Op>): Meta {
    if ops == [] then m else MetaStep(MetaRun(m, Front(ops)), Last(ops))
  }

  function SpecRun(spec: map<string, File>, ops: seq<Op>): map<string, File> {
    if ops == [] then spec else SpecStep(SpecRun(spec, Front(ops)), Last(ops))
  }

  function Last(ops: seq<Op>): Op
    requires ops != []
  {
    ops[|ops| - 1]
  }

  function Front(ops: seq<Op>): seq<Op>
    requires ops != []
  {
    ops[..|ops| - 1]
  }

  /** The requests can lead from s to s'. */
  ghost predicate Reaches(s: Files, hash: Hash, ops: seq<Op>, s': Files, repaired: bool)
    decreases |ops|
  {
    if ops == [] then s' == s else
      exists mid :: Reaches(s, hash, Front(ops), mid, repaired) && Step(mid, hash, Last(ops), s', repaired)
  }

  ghost predicate SafeRun(m: Meta, capacity: nat, hash: Hash, used: set<BlockId>, ops: seq<Op>, repaired: bool) {
    forall i :: 0 <= i < |ops| ==> SafeStep(MetaRun(m, ops[..i]), capacity, hash, used, ops[i], repaired)
  }

  lemma SafeRunNext(m: Meta, capacity: nat, hash: Hash, used: set<BlockId>, ops: seq<Op>, op: Op, repaired: bool)
    ensures SafeRun(m, capacity, hash, used, ops + [op], repaired) <==>
            SafeRun(m, capacity, hash, used, ops, repaired)
            && SafeStep(MetaRun(m, ops), capacity, hash, used, op, repaired)
  {
    hide SafeStep, MetaStep, MetaRun;
    var all := ops + [op];
    assert all[..|ops|] == ops && all[|ops|] == op;
    assert forall i :: 0 <= i < |ops| ==> all[..i] == ops[..i] && all[i] == ops[i];
  }

  lemma ReachesNext(s: Files, hash: Hash, ops: seq<Op>, mid: Files, op: Op, s': Files, repaired: bool)
    requires Reaches(s, hash, ops, mid, repaired) && Step(mid, hash, op, s', repaired)
    ensures Reaches(s, hash, ops + [op], s', repaired)
  {
    hide Step;
    assert Front(ops + [op]) == ops && Last(ops + [op]) == op;
  }

  /** So every safe run keeps the files equal to the byte arrays, whatever it may lead to. */
  lemma {:induction false} RunRefines(s: Files, hash: Hash, used: set<BlockId>, spec: map<string, File>, ops: seq<Op>,
                                      s': Files, repaired: bool)
    requires FilesValid(s) && Refines(s, hash, spec) && SafeRun(s.meta, |s.pages|, hash, used, ops, repaired)
    requires Reaches(s, hash, ops, s', repaired)
    ensures FilesValid(s') && Refines(s', hash, SpecRun(spec, ops))
    ensures s'.meta == MetaRun(s.meta, ops) && |s'.pages| == |s.pages|
    decreases |ops|
  {
    if ops != [] {
      hide MetaValid, Refines, SafeStep, MetaStep, SpecStep;
      var front, last := Front(ops), Last(ops);
      var mid :| Reaches(s, hash, front, mid, repaired) && Step(mid, hash, last, s', repaired);
      forall i | 0 <= i < |front|
        ensures SafeStep(MetaRun(s.meta, front[..i]), |s.pages|, hash, used, front[i], repaired)
      {
        assert front[..i] == ops[..i] && front[i] == ops[i];
      }
      RunRefines(s, hash, used, spec, front, mid, repaired);
      StepRefines(mid, hash, used, SpecRun(spec, front), last, s', repaired);
    }
  }

  /** A read then delivers every byte of the array that has been written. */
  lemma ReadDelivers(s: Files, hash: Hash, spec: map<string, File>, key: string, n: nat, at: nat, j: nat)
    requires IsDisk(s.pages) && Refines(s, hash, spec) && key in spec
    requires j < n && at + n <= |spec[key]| && spec[key][at + j].Some?
    ensures ReadChunks(s.pages, hash, s.meta.content[key].Id(), n, at)[j] == spec[key][at + j].value
  {
    ReadExact(s.pages, hash, s.meta.content[key].Id(), n, at, j);
    assert Holds(s.pages, s.steady, hash, s.meta.content[key], spec[key]);
    assert Known(s.pages, s.steady, hash, s.meta.content[key].Id(), at + j, spec[key][at + j].value);
  }

  /** The byte arrays of a given state: every byte on a steady page is known. */
  ghost function Snapshot(s: Files, hash: Hash): (spec: map<string, File>)
    requires FilesValid(s) && forall key :: key in s.meta.content ==> s.meta.content[key].size >= 0
    ensures Refines(s, hash, spec) && spec.Keys == s.meta.content.Keys
    ensures forall key, i :: key in spec && 0 <= i < |spec[key]| ==>
      (spec[key][i].Some? <==> Place(hash, BlockId(s.meta.content[key].Id(), i / PAGE), |s.pages|) in s.steady)
  {
    map key | key in s.meta.content :: FileOf(s, hash, s.meta.content[key])
  }

  ghost function FileOf(s: Files, hash: Hash, inode: ContentInode): (f: File)
    requires IsDisk(s.pages) && inode.size >= 0
    ensures Holds(s.pages, s.steady, hash, inode, f)
    ensures forall i :: 0 <= i < |f| ==>
      (f[i].Some? <==> Place(hash, BlockId(inode.Id(), i / PAGE), |s.pages|) in s.steady)
  {
    seq(inode.size, i requires 0 <= i =>
      if Place(hash, BlockId(inode.Id(), i / PAGE), |s.pages|) in s.steady
      then Some(FileByte(s.pages, hash, inode.Id(), i)) else None)
  }
}
