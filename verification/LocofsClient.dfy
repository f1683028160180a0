/**
 The file calls of LocofsClient (src/fs/LocofsClient.cpp) by path: the key of the file comes from the directory
 server, through the uuid cache, and the rest happens on the file with that key. One directory server, one file
 server, one client.
 */
module LocofsClient {
  import opened GaloisField
  import opened Options
  import opened PathText
  import opened Namespace
  import opened FileBlocks
  import opened FileRuns
  import opened Ecal
  import FileClient
  import opened DirServer
  import opened UuidClient

  /** strncpy into a request: longer keys are cut. */
  function Cut(key: string): (r: string)
    ensures r <= key && |r| == if |key| <= 255 then |key| else 255
  {
    if |key| <= MAX_PATH_LEN then key else key[..MAX_PATH_LEN]
  }

  /** Different files have different requests, as long as their keys fit. */
  lemma RequestKeysApart(s: Dirs, p: Path, q: Path)
    requires TreeInv(s) && p != [] && q != [] && FileKey(s, p).Some? && FileKey(s, q).Some?
    requires |FileKey(s, p).value| <= MAX_PATH_LEN && |FileKey(s, q).value| <= MAX_PATH_LEN
    ensures Cut(FileKey(s, p).value) == Cut(FileKey(s, q).value) <==> p == q
  {
    if FileKey(s, p) == FileKey(s, q) { FileKeyInjective(s, p, q); }
  }

  lemma KeyNotEmpty(s: Dirs, p: Path)
    requires p != [] && FileKey(s, p).Some?
    ensures Cut(FileKey(s, p).value) != ""
  {
    DecPlain(Resolve(s, Parent(p)).value);
  }

  /** Requests with a key make no file without one. */
  lemma NoEmptyKey(s: Files, hash: Hash, op: Op, s': Files)
    requires Step(s, hash, op, s', false) && "" !in s.meta.content && !op.LoseOp? && op.key != ""
    ensures "" !in s'.meta.content
  {
  }

  ghost predicate CanonicalFile(path: string, p: Path) {
    ProperPath(p) && p != [] && path == Render(p) && |path| <= MAX_PATH_LEN
  }

  function WriteAll(key: string, data: seq<byte>, off: nat): Op {
    WriteOp(key, data, |data|, off)
  }

  /** The content inodes after a write to each of two files. */
  function WrittenBoth(m: Meta, a: string, dataA: seq<byte>, offA: nat, b: string, dataB: seq<byte>, offB: nat):
    map<string, ContentInode>
  {
    MetaStep(MetaStep(m, WriteAll(a, dataA, offA)), WriteAll(b, dataB, offB)).content
  }

  lemma HashesDiffer(hash: Hash, used: set<BlockId>, capacity: nat)
    requires capacity > 0
    requires forall x, y :: x in used && y in used && x != y ==> hash(x) % capacity != hash(y) % capacity
    ensures CollisionFree(hash, used, capacity)
  {
  }

  /** Sizes only grow, so the blocks in use at the end have always covered the files. */
  lemma BothSafe(m: Meta, capacity: nat, hash: Hash, a: string, dataA: seq<byte>, offA: nat, b: string,
                 dataB: seq<byte>, offB: nat, used: set<BlockId>)
    requires capacity > 0 && a in m.content && b in m.content && a != b
    requires Covers(used, WrittenBoth(m, a, dataA, offA, b, dataB, offB)) && CollisionFree(hash, used, capacity)
    requires (offA + |dataA|) / 4096 <= (offA + 4095) / 4096 && (offB + |dataB|) / 4096 <= (offB + 4095) / 4096
    ensures Covers(used, m.content)
    ensures SafeStep(m, capacity, hash, used, WriteAll(a, dataA, offA), false)
    ensures SafeStep(MetaStep(m, WriteAll(a, dataA, offA)), capacity, hash, used, WriteAll(b, dataB, offB), false)
  {
    var m1 := MetaStep(m, WriteAll(a, dataA, offA));
    var m2 := MetaStep(m1, WriteAll(b, dataB, offB));
    hide CollisionFree;
    CoversSmaller(used, m2.content, m1.content);
    CoversSmaller(used, m2.content, m.content);
  }

  lemma CoversSmaller(used: set<BlockId>, content: map<string, ContentInode>, smaller: map<string, ContentInode>)
    requires Covers(used, content) && smaller.Keys == content.Keys
    requires forall key :: key in content ==>
      smaller[key].Id() == content[key].Id() && smaller[key].size <= content[key].size
    ensures Covers(used, smaller)
  {
  }

  /** The first file after both writes. */
  lemma BothSpec(spec: map<string, File>, a: string, dataA: seq<byte>, offA: nat, b: string, dataB: seq<byte>,
                 offB: nat)
    requires a in spec && b in spec && a != b
    ensures var spec' := SpecStep(SpecStep(spec, WriteAll(a, dataA, offA)), WriteAll(b, dataB, offB));
            && a in spec' && offA + |dataA| <= |spec'[a]|
            && forall j :: 0 <= j < |dataA| ==> spec'[a][offA + j] == Some(dataA[j])
  {
  }

  class Locofs {
    const dirs: UuidClient.Client
    const files: FileClient.Client

    constructor (dirs: UuidClient.Client, files: FileClient.Client)
      ensures this.dirs == dirs && this.files == files
    {
      this.dirs, this.files := dirs, files;
    }

    ghost predicate Ready()
      reads this, dirs, dirs.server, dirs.server.ecStore, dirs.cache
      reads files, files.store, files.store.memory, files.fm
    {
      && dirs.server.Valid() && dirs.Coherent()
      && files.Ready() && "" !in files.fm.content
    }

    /** The key that requests for the file carry. */
    ghost function Key(p: Path): Option<string>
      requires p != []
      reads this, dirs, dirs.server
    {
      match FileKey(dirs.server.view, p)
      case Some(key) => Some(Cut(key))
      case None => None
    }

    /** _get_file_key into a request; where there is no key, the request carries the empty text. */
    method Lookup(path: string, ghost p: Path, now: int) returns (found: bool, key: string)
      requires Ready() && ProperPath(p) && p != [] && path == Render(p) && |path| <= MAX_PATH_LEN
      modifies dirs.cache
      ensures Ready()
      ensures match Key(p) case Some(k) => found && key == k && k != "" case None => !found && key == ""
    {
      hide FileClient.Client.Ready, FileKey;
      var r := dirs.GetFileKey(path, p, now);
      if r.None? { return false, ""; }
      KeyNotEmpty(dirs.server.view, p);
      return true, Cut(r.value);
    }

    /** mkdir has no effect on files. */
    method Mkdir(path: string, ghost p: Path, mode: int) returns (ok: bool)
      requires Ready() && Denotes(path, p) && |path| <= MAX_PATH_LEN
      modifies dirs.server, dirs.server.ecStore
      ensures Ready() && files.State() == old(files.State())
      ensures dirs.server.view == Namespace.Mkdir(old(dirs.server.view), p, mode, 511, 511).0
      ensures ok <==> Namespace.Mkdir(old(dirs.server.view), p, mode, 511, 511).1 == 0
    {
      hide FileClient.Client.Ready, FileClient.Client.State, Namespace.Mkdir, DMStore.Valid;
      ok := dirs.Mkdir(path, p, mode);
    }

    method Create(path: string, ghost p: Path, mode: int, now: int) returns (ok: bool)
      requires Ready() && Denotes(path, p) && p != [] && |path| <= MAX_PATH_LEN
      modifies dirs.cache, files.fm
      ensures Ready() && (ok <==> Key(p).Some?)
      ensures if ok then Step(old(files.State()), files.hash, CreateOp(Key(p).value), files.State(), false)
              else files.State() == old(files.State())
    {
      hide FileClient.Client.Ready, FileClient.Client.State, FileKey, Step;
      CheckDenoted(path, p);
      var found, key := Lookup(CheckPath(path), p, now);
      if !found { return false; }
      ghost var s := files.State();
      ok := files.Create(key, mode);
      NoEmptyKey(s, files.hash, CreateOp(key), files.State());
    }

    method Unlink(path: string, ghost p: Path, now: int) returns (ok: bool)
      requires Ready() && ProperPath(p) && p != [] && path == Render(p) && |path| <= MAX_PATH_LEN
      modifies dirs.cache, files.fm
      ensures Ready() && (ok <==> Key(p).Some? && Key(p).value in old(files.fm.content))
      ensures if Key(p).Some? then Step(old(files.State()), files.hash, RemoveOp(Key(p).value), files.State(), false)
              else files.State() == old(files.State())
    {
      hide FileClient.Client.Ready, FileClient.Client.State, FileKey, Step;
      var found, key := Lookup(path, p, now);
      if !found { return false; }
      ghost var s := files.State();
      ok := files.Unlink(key);
      NoEmptyKey(s, files.hash, RemoveOp(key), files.State());
    }

    /**
     write: the key is looked up once for the data and once more for the size. It is the same key: nothing but this
     client's cache has changed in between.
     */
    method Write(path: string, ghost p: Path, buf: seq<byte>, len: int, off: nat, now: int,
                 ghost used: set<BlockId>, ghost spec: map<string, File>)
      returns (ok: bool)
      requires Ready() && ProperPath(p) && p != [] && path == Render(p) && |path| <= MAX_PATH_LEN && len <= |buf|
      modifies dirs.cache, files.store`readBitmap, files.store`writeBitmap, files.store`history
      modifies files.store.encodeBuffer, files.store.memory, files.store.readRegion, files.store.writeRegion
      modifies files.fm`content
      ensures Ready() && (ok <==> Key(p).Some? && Key(p).value in old(files.fm.content))
      ensures if Key(p).Some?
              then Step(old(files.State()), files.hash, WriteOp(Key(p).value, buf, len, off), files.State(), false)
              else files.State() == old(files.State())
      ensures Key(p).Some? && old(files.Serves(used, spec))
              && SafeStep(old(files.State()).meta, files.store.capacity, files.hash, used,
                          WriteOp(Key(p).value, buf, len, off), false)
              ==> files.Serves(used, SpecStep(spec, WriteOp(Key(p).value, buf, len, off)))
    {
      hide FileClient.Client.Ready, FileClient.Client.State, FileClient.Client.Serves, FileKey, Step, SafeStep,
          SpecStep;
      hide FileClient.Client.DataWritten, WriteChunks, Targets, Refines, MetaValid, Render, ProperPath, Cut;
      ghost var s := files.State();
      ghost var served := files.Serves(used, spec);
      if served { files.ServesReady(used, spec); }
      var found, key := Lookup(path, p, now);
      var stat := files.WriteStat(key, buf, len, off);
      if stat.None? {
        if found {
          FileClient.Client.WriteEffect(s, files.hash, key, buf, len, off, s);
          files.StillServes(s, WriteOp(key, buf, len, off), used, spec, served);
        }
        return false;
      }
      found, key := Lookup(path, p, now);
      if !found { return false; }
      ok := files.WriteSize(key, stat.value, buf, len, off, s);
      NoEmptyKey(s, files.hash, WriteOp(key, buf, len, off), files.State());
      files.StillServes(s, WriteOp(key, buf, len, off), used, spec, served);
    }

    /** read: a file without a key is a missing file. */
    method Read(path: string, ghost p: Path, buf: array<byte>, len: int, off: nat, now: int,
                ghost spec: map<string, File>)
      returns (r: int)
      requires Ready() && ProperPath(p) && p != [] && path == Render(p) && |path| <= MAX_PATH_LEN && len <= buf.Length
      requires buf != files.store.encodeBuffer && buf !in files.store.memory
      requires buf !in files.store.readRegion && buf !in files.store.writeRegion
      modifies dirs.cache, files.store`readBitmap, files.store.readRegion, buf
      ensures Ready() && files.State() == old(files.State())
      ensures Key(p).None? || Key(p).value !in files.fm.content ==> r == 0 && buf[..] == old(buf[..])
      ensures Key(p).Some? && Refines(files.State(), files.hash, spec) && Key(p).value in spec ==>
        var f := spec[Key(p).value];
        var n := if |f| < len then |f| else len;
        if off + n > |f| then r == -1 else
          && r == (if n > 0 then n else 0)
          && forall j :: 0 <= j < r ==> off + j < |f| && (f[off + j].Some? ==> buf[j] == f[off + j].value)
    {
      hide FileClient.Client.Ready, FileClient.Client.State, FileKey, Step;
      var found, key := Lookup(path, p, now);
      if Refines(files.State(), files.hash, spec) && key in spec {
        FileClient.Client.SpecSize(files.State(), files.hash, spec, key);
      }
      r := files.Read(key, buf, len, off, spec);
    }

    /** A safe write of a whole buffer to a file that serves its byte array. */
    method WriteNext(path: string, ghost p: Path, data: seq<byte>, off: nat, now: int, ghost used: set<BlockId>,
                     ghost spec: map<string, File>)
      requires Ready() && CanonicalFile(path, p) && Key(p).Some? && files.Serves(used, spec)
      requires SafeStep(files.State().meta, files.store.capacity, files.hash, used, WriteAll(Key(p).value, data, off),
               false)
      modifies dirs.cache, files.store`readBitmap, files.store`writeBitmap, files.store`history
      modifies files.store.encodeBuffer, files.store.memory, files.store.readRegion, files.store.writeRegion
      modifies files.fm`content
      ensures Ready() && files.Serves(used, SpecStep(spec, WriteAll(Key(p).value, data, off)))
      ensures files.State().meta == MetaStep(old(files.State()).meta, WriteAll(Key(p).value, data, off))
    {
      hide FileClient.Client.Ready, FileClient.Client.State, FileClient.Client.Serves, Step, SafeStep, SpecStep, Key,
           MetaStep, Refines;
      ghost var s := files.State();
      var ok := Write(path, p, data, |data|, off, now, used, spec);
      FileClient.Client.StepMeta(s, files.hash, WriteAll(Key(p).value, data, off), files.State());
    }

    /** A read of a range that is known to hold data. */
    method ReadNext(path: string, ghost p: Path, buf: array<byte>, n: nat, off: nat, now: int,
                    ghost used: set<BlockId>, ghost spec: map<string, File>, ghost data: seq<byte>)
      returns (r: int)
      requires Ready() && CanonicalFile(path, p) && Key(p).Some? && files.Serves(used, spec)
      requires Key(p).value in spec && off + n <= |spec[Key(p).value]|
      requires |data| == n && forall j :: 0 <= j < n ==> spec[Key(p).value][off + j] == Some(data[j])
      requires n <= buf.Length && buf != files.store.encodeBuffer && buf !in files.store.memory
      requires buf !in files.store.readRegion && buf !in files.store.writeRegion
      modifies dirs.cache, files.store`readBitmap, files.store.readRegion, buf
      ensures Ready() && r == n && buf[..r] == data
    {
      hide FileClient.Client.Ready, FileClient.Client.State, FileClient.Client.Serves, Key, Refines;
      files.ServesReady(used, spec);
      r := Read(path, p, buf, n, off, now, spec);
      forall j | 0 <= j < n
        ensures buf[j] == data[j]
      {
        assert spec[Key(p).value][off + j] == Some(data[j]);
      }
    }

    method BothThenRead(a: string, ghost p: Path, b: string, ghost q: Path, dataA: seq<byte>, offA: nat,
                        dataB: seq<byte>, offB: nat, buf: array<byte>, now: int, ghost used: set<BlockId>,
                        ghost spec: map<string, File>)
      returns (r: int)
      requires Ready() && CanonicalFile(a, p) && CanonicalFile(b, q)
      requires Key(p).Some? && Key(q).Some? && Key(p) != Key(q) && Key(p).value in spec && Key(q).value in spec
      requires files.Serves(used, spec)
      requires var m, capacity := files.State().meta, files.store.capacity;
               && SafeStep(m, capacity, files.hash, used, WriteAll(Key(p).value, dataA, offA), false)
               && SafeStep(MetaStep(m, WriteAll(Key(p).value, dataA, offA)), capacity, files.hash, used,
                           WriteAll(Key(q).value, dataB, offB), false)
      requires |dataA| <= buf.Length && buf != files.store.encodeBuffer && buf !in files.store.memory
      requires buf !in files.store.readRegion && buf !in files.store.writeRegion
      modifies dirs.cache, files.store`readBitmap, files.store`writeBitmap, files.store`history
      modifies files.store.encodeBuffer, files.store.memory, files.store.readRegion, files.store.writeRegion
      modifies files.fm`content, buf
      ensures Ready() && r == |dataA| && buf[..r] == dataA
    {
      hide FileClient.Client.Ready, FileClient.Client.State, FileClient.Client.Serves, SafeStep, SpecStep, Key,
          MetaStep,
           ProperPath, Render, WriteAll;
      ghost var ka, kb := Key(p).value, Key(q).value;
      ghost var specA := SpecStep(spec, WriteAll(ka, dataA, offA));
      ghost var specB := SpecStep(specA, WriteAll(kb, dataB, offB));
      BothSpec(spec, ka, dataA, offA, kb, dataB, offB);
      WriteNext(a, p, dataA, offA, now, used, spec);
      WriteNext(b, q, dataB, offB, now, used, specA);
      r := ReadNext(a, p, buf, |dataA|, offA, now, used, specB, dataA);
    }

    lemma StartsSafely(a: string, dataA: seq<byte>, offA: nat, b: string, dataB: seq<byte>, offB: nat,
                       used: set<BlockId>)
      requires files.Ready() && a in files.fm.content && b in files.fm.content && a != b
      requires forall key :: key in files.fm.content ==> files.fm.content[key].size >= 0
      requires used == BlocksInUse(WrittenBoth(files.fm.Meta(), a, dataA, offA, b, dataB, offB))
      requires (offA + |dataA|) / 4096 <= (offA + 4095) / 4096 && (offB + |dataB|) / 4096 <= (offB + 4095) / 4096
      requires forall x, y :: x in used && y in used && x != y ==>
                 files.hash(x) % files.store.capacity != files.hash(y) % files.store.capacity
      ensures var s, capacity := files.State(), files.store.capacity;
              && files.Serves(used, Snapshot(s, files.hash))
              && SafeStep(s.meta, capacity, files.hash, used, WriteAll(a, dataA, offA), false)
              && SafeStep(MetaStep(s.meta, WriteAll(a, dataA, offA)), capacity, files.hash, used,
                          WriteAll(b, dataB, offB), false)
    {
      hide Covers, Refines, Snapshot, SafeStep, MetaStep, BlocksInUse, Store.Ready, MetaValid;
      HashesDiffer(files.hash, used, files.store.capacity);
      hide CollisionFree;
      BothSafe(files.State().meta, files.store.capacity, files.hash, a, dataA, offA, b, dataB, offB, used);
      files.ServesSnapshot(used);
    }

    /**
     Two files do not get into each other's way: after a write to each, a read of the first delivers what was
     written to it. All that is asked of the block addresses is that the hash values of the blocks in use differ
     modulo the capacity; neither request covers a whole block.
     */
    method WriteBothReadFirst(a: string, ghost p: Path, b: string, ghost q: Path, dataA: seq<byte>, offA: nat,
                              dataB: seq<byte>, offB: nat, buf: array<byte>, now: int)
      returns (r: int)
      requires Ready() && ProperPath(p) && p != [] && a == Render(p) && |a| <= 255
      requires ProperPath(q) && q != [] && b == Render(q) && |b| <= 255
      requires Key(p).Some? && Key(q).Some? && Key(p) != Key(q)
      requires Key(p).value in files.fm.content && Key(q).value in files.fm.content
      requires forall key :: key in files.fm.content ==> files.fm.content[key].size >= 0
      requires (offA + |dataA|) / 4096 <= (offA + 4095) / 4096 && (offB + |dataB|) / 4096 <= (offB + 4095) / 4096
      requires var used := BlocksInUse(WrittenBoth(files.fm.Meta(), Key(p).value, dataA, offA, Key(q).value, dataB,
               offB));
               forall x, y :: x in used && y in used && x != y ==>
                 files.hash(x) % files.store.capacity != files.hash(y) % files.store.capacity
      requires |dataA| <= buf.Length && buf != files.store.encodeBuffer && buf !in files.store.memory
      requires buf !in files.store.readRegion && buf !in files.store.writeRegion
      modifies dirs.cache, files.store`readBitmap, files.store`writeBitmap, files.store`history
      modifies files.store.encodeBuffer, files.store.memory, files.store.readRegion, files.store.writeRegion
      modifies files.fm`content, buf
      ensures Ready() && r == |dataA| && buf[..r] == dataA
    {
      hide FileClient.Client.Ready, FileClient.Client.State, FileClient.Client.Serves, SafeStep, BlocksInUse, Snapshot,
           Key, MetaStep, ProperPath, Render, WriteAll, WrittenBoth;
      ghost var s, ka, kb := files.State(), Key(p).value, Key(q).value;
      ghost var used := BlocksInUse(WrittenBoth(s.meta, ka, dataA, offA, kb, dataB, offB));
      StartsSafely(ka, dataA, offA, kb, dataB, offB, used);
      r := BothThenRead(a, p, b, q, dataA, offA, dataB, offB, buf, now, used, Snapshot(s, files.hash));
    }
  }
}
