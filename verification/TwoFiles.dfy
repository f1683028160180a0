/**
 The whole system from nothing: a directory with two files, a byte written to each, and the first one read back.
 */
module TwoFiles {
  import opened GaloisField
  import opened Options
  import opened PathText
  import opened Namespace
  import NamespaceRuns
  import opened DirServer
  import opened FileBlocks
  import opened FileRuns
  import opened Ecal
  import FileClient
  import opened LruCache
  import opened UuidClient
  import opened LocofsClient
  import opened StartUp

  /** A client on a directory server that has made "/", and on file servers and a store as they start up. */
  method Connect(files: FileClient.Client) returns (client: Locofs)
    requires files.Ready() && files.fm.content == map[]
    ensures fresh(client) && client.files == files && client.Ready()
    ensures fresh(client.dirs) && fresh(client.dirs.server) && fresh(client.dirs.server.ecStore)
            && fresh(client.dirs.cache)
    ensures client.dirs.server.view == Initial()
  {
    hide FileClient.Client.Ready, DMStore.Valid, Namespace.Mkdir;
    var server := new DMStore();
    CanonicalExamples();
    var r := server.Mkdir("/", [], 493, 511, 511);
    var cache := new Cache<nat>(5000);
    var dirs := new UuidClient.Client(server, cache);
    client := new Locofs(dirs, files);
  }

  const F_PATH: Path := ["d", "f"]
  const G_PATH: Path := ["d", "g"]

  /** The content inodes of two new files. */
  function TwoFilesMeta(): Meta {
    Meta(map["2:f" := ContentInode(0, 4096, 0, 0), "2:g" := ContentInode(0, 4096, 1, 0)], 2, 0)
  }

  lemma TwoFilesCreated()
    ensures MetaStep(MetaStep(Meta(map[], 0, 0), CreateOp("2:f")), CreateOp("2:g")) == TwoFilesMeta()
  {
  }

  lemma TwoFilesBlocks(one: byte, two: byte)
    ensures forall x :: x in BlocksInUse(WrittenBoth(TwoFilesMeta(), "2:f", [one], 0, "2:g", [two], 0)) ==>
      x == BlockId(FileId(0, 0), 0) || x == BlockId(FileId(0, 1), 0)
  {
    hide BlocksInUse;
    assert WrittenBoth(TwoFilesMeta(), "2:f", [one], 0, "2:g", [two], 0)
        == map["2:f" := ContentInode(1, 4096, 0, 0), "2:g" := ContentInode(1, 4096, 1, 0)];
  }

  lemma TwoFilesKeys(s: Dirs)
    requires Resolve(s, ["d"]) == Some(2)
    ensures FileKey(s, F_PATH) == Some("2:f") && FileKey(s, G_PATH) == Some("2:g")
  {
    assert Parent(F_PATH) == ["d"] == Parent(G_PATH) && Filename(F_PATH) == "f" && Filename(G_PATH) == "g";
    assert Dec(2) == "2" && "2" + ":" + "f" == "2:f" && "2" + ":" + "g" == "2:g";
  }

  lemma DirectoryMade(mode: int)
    ensures var (s, r) := Namespace.Mkdir(Initial(), ["d"], mode, 511, 511); r == 0 && Resolve(s, ["d"]) == Some(2)
  {
    hide Namespace.Mkdir, Initial;
    NamespaceRuns.InitialStores();
    NamespaceRuns.MkdirInRoot(Initial(), "d", mode, 511, 511);
    ResolveInRoot(Namespace.Mkdir(Initial(), ["d"], mode, 511, 511).0, "d");
  }

  /** Two files in the directory /d. */
  method CreateBoth(client: Locofs)
    requires client.Ready() && Resolve(client.dirs.server.view, ["d"]) == Some(2)
    requires client.files.State().meta == Meta(map[], 0, 0)
    modifies client.dirs.cache, client.files.fm
    ensures client.Ready() && client.files.State().meta == TwoFilesMeta()
    ensures client.Key(F_PATH) == Some("2:f") && client.Key(G_PATH) == Some("2:g")
  {
    hide FileClient.Client.Ready, FileClient.Client.State, DMStore.Valid, UuidClient.Client.Coherent, Step, Resolve,
        FileKey,
         Render, ProperPath;
    CanonicalNames();
    TwoFilesKeys(client.dirs.server.view);
    TwoFilesCreated();
    ghost var s0 := client.files.State();
    var ok := client.Create("/d/f", F_PATH, 0, 0);
    ghost var s1 := client.files.State();
    FileClient.Client.StepMeta(s0, client.files.hash, CreateOp("2:f"), s1);
    ok := client.Create("/d/g", G_PATH, 0, 0);
    FileClient.Client.StepMeta(s1, client.files.hash, CreateOp("2:g"), client.files.State());
  }

  /** A byte to each of two new files. */
  method WriteBoth(client: Locofs, one: byte, two: byte) returns (r: byte)
    requires client.Ready() && Resolve(client.dirs.server.view, ["d"]) == Some(2)
    requires client.files.State().meta == Meta(map[], 0, 0)
    requires var hash, capacity := client.files.hash, client.files.store.capacity;
             hash(BlockId(FileId(0, 0), 0)) % capacity != hash(BlockId(FileId(0, 1), 0)) % capacity
    modifies client.dirs.cache, client.files.fm
    modifies client.files.store`readBitmap, client.files.store`writeBitmap, client.files.store`history
    modifies client.files.store.encodeBuffer, client.files.store.memory
    modifies client.files.store.readRegion, client.files.store.writeRegion
    ensures r == one
  {
    hide FileClient.Client.Ready, FileClient.Client.State, DMStore.Valid, Locofs.Ready, Locofs.Key, BlocksInUse,
        Resolve,
         WrittenBoth, Render, ProperPath, Denotes;
    CanonicalNames();
    CreateBoth(client);
    TwoFilesBlocks(one, two);
    var buf := new byte[1];
    var n := client.WriteBothReadFirst("/d/f", F_PATH, "/d/g", G_PATH, [one], 0, [two], 0, buf, 0);
    r := buf[0];
  }

  /**
   From nothing: a directory with two files, a byte written to each, and the first byte read back. All that is asked
   of the hash is that it tells the two blocks apart.
   */
  method WriteTwoReadOne(hash: Hash, poolLength: nat, one: byte, two: byte) returns (r: byte)
    requires 0 < poolLength
    requires hash(BlockId(FileId(0, 0), 0)) % poolLength != hash(BlockId(FileId(0, 1), 0)) % poolLength
    ensures r == one
  {
    hide FileClient.Client.Ready, FileClient.Client.State, FileClient.Client.Serves, DMStore.Valid, Locofs.Ready,
         Namespace.Mkdir, Resolve, Render, ProperPath, Store.Ready, Initial;
    var files := Start(2, 1, poolLength, 0, hash);
    files.ServesReady({}, map[]);
    var client := Connect(files);
    CanonicalNames();
    DirectoryMade(0);
    var ok := client.Mkdir("/d", ["d"], 0);
    r := WriteBoth(client, one, two);
  }

  lemma CanonicalNames()
    ensures ProperPath(["d"]) && Render(["d"]) == "/d" && Denotes("/d", ["d"])
    ensures Denotes("/d/f", F_PATH) && Denotes("/d/g", G_PATH)
    ensures ProperPath(["d", "f"]) && Render(["d", "f"]) == "/d/f" && ProperPath(["d", "g"])
            && Render(["d", "g"]) == "/d/g"
  {
    assert ["d"][1..] == [] && ["d", "f"][1..] == ["f"] && ["d", "g"][1..] == ["g"] && ["f"][1..] == ["g"][1..] == [];
    assert "/" + "f" + "" == "/f" && "/" + "g" + "" == "/g" && "/" + "d" + "" == "/d";
    assert "/" + "d" + "/f" == "/d/f" && "/" + "d" + "/g" == "/d/g";
  }
}
