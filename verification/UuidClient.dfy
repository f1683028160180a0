/**
 The client's directory calls and its uuid cache (src/fs/LocofsClient.cpp, lines 207-222, 264-282, 444-493,
 549-555), against one directory server and for one client.
 */
module UuidClient {
  import opened Options
  import opened PathText
  import opened Namespace
  import opened NamespaceRuns
  import opened DirServer
  import opened LruCache

  /** Requests carry at most this many characters of a path. */
  const MAX_PATH_LEN := 255

  /** _check_path: deletes one trailing '/', except from "/". */
  function CheckPath(path: string): string
    requires path != ""
  {
    if |path| != 1 && path[|path| - 1] == '/' then path[..|path| - 1] else path
  }

  /** The canonical text of the path p, possibly with a trailing '/'. */
  ghost predicate Denotes(path: string, p: Path) {
    ProperPath(p) && (path == Render(p) || (p != [] && path == Render(p) + "/"))
  }

  /** Both texts of a path. */
  lemma DenotesBoth(p: Path)
    requires ProperPath(p)
    ensures Denotes(Render(p), p) && (p != [] ==> Denotes(Render(p) + "/", p))
  {
  }

  lemma CheckDenoted(path: string, p: Path)
    requires Denotes(path, p)
    ensures path != "" && CheckPath(path) == Render(p)
  {
    if p != [] {
      var n := p[|p| - 1];
      assert ProperName(n);
      assert p == p[..|p| - 1] + [n];
      RenderTailLast(p[..|p| - 1], n);
      assert Render(p)[|Render(p)| - 1] == n[|n| - 1] && n[|n| - 1] in n;
      assert |Render(p)| >= 2;
    }
  }

  /** The key of a file: the uuid of its directory, a colon and its name. The root has no uuid to offer. */
  function FileKey(s: Dirs, p: Path): Option<string>
    requires p != []
  {
    if Parent(p) == [] then None else
      match Resolve(s, Parent(p))
      case Some(u) => Some(KeyText(Sub(u, Filename(p))))
      case None => None
  }

  /** Different paths have different file keys. */
  lemma FileKeyInjective(s: Dirs, p: Path, q: Path)
    requires TreeInv(s) && p != [] && q != [] && FileKey(s, p).Some? && FileKey(s, p) == FileKey(s, q)
    ensures p == q
  {
    var u, v := Resolve(s, Parent(p)).value, Resolve(s, Parent(q)).value;
    KeyTextInjective(Sub(u, Filename(p)), Sub(v, Filename(q)));
    ResolveInjective(s.keys, s.counter, Parent(p), Parent(q));
    assert p == Parent(p) + [Filename(p)] && q == Parent(q) + [Filename(q)];
  }

  /** So in every reachable state no two files share a key. */
  lemma FilesHaveOwnKeys(states: seq<Dirs>, ops: seq<Op>, k: nat, p: Path, q: Path)
    requires Run(states, ops) && k <= |ops| && RootStays(states, ops, k) && p != [] && q != [] && p != q
    ensures FileKey(states[k], p).Some? ==> FileKey(states[k], p) != FileKey(states[k], q)
  {
    RunKeepsSound(states, ops, k);
    if FileKey(states[k], p).Some? && FileKey(states[k], p) == FileKey(states[k], q) {
      FileKeyInjective(states[k], p, q);
    }
  }

  // ---------- sessions ----------

  datatype Call =
    | MkdirCall(path: string, mode: int)
    | RmdirCall(path: string)
    | LookupCall(path: string, now: int)
    | EvictCall
    | ExpireCall(now: int)

  /** The path of a text, without its trailing '/'. */
  function PathOf(path: string): Path {
    if path == "" then [] else Components(CheckPath(path))
  }

  /** The texts of a call are canonical and fit into a request. */
  ghost predicate CanonicalCall(call: Call) {
    match call
    case MkdirCall(path, _) => Denotes(path, PathOf(path)) && |path| <= MAX_PATH_LEN
    case RmdirCall(path) => Denotes(path, PathOf(path)) && |path| <= MAX_PATH_LEN
    case LookupCall(path, _) => ProperPath(PathOf(path)) && path == Render(PathOf(path)) && |path| <= MAX_PATH_LEN
    case _ => true
  }

  /** Calls on canonical paths that fit are canonical. */
  lemma CanonicalCalls(p: Path, mode: int, now: int)
    requires ProperPath(p) && |Render(p)| < MAX_PATH_LEN
    ensures CanonicalCall(MkdirCall(Render(p), mode)) && CanonicalCall(RmdirCall(Render(p)))
    ensures CanonicalCall(LookupCall(Render(p), now))
    ensures p != [] ==> CanonicalCall(MkdirCall(Render(p) + "/", mode)) && CanonicalCall(RmdirCall(Render(p) + "/"))
  {
    hide Components, Render;
    ComponentsRender(p);
    DenotesBoth(p);
    CheckDenoted(Render(p), p);
    if p != [] { CheckDenoted(Render(p) + "/", p); }
  }

  /** What a call does to the name space; 511 is the owner the server writes. */
  function After(s: Dirs, call: Call): Dirs {
    match call
    case MkdirCall(path, mode) => Namespace.Mkdir(s, PathOf(path), mode, 511, 511).0
    case RmdirCall(path) => Namespace.Rmdir(s, PathOf(path)).0
    case _ => s
  }

  function AfterAll(s: Dirs, calls: seq<Call>): Dirs
    decreases |calls|
  {
    if calls == [] then s else AfterAll(After(s, calls[0]), calls[1..])
  }

  /** What the name space answers to a lookup; "/" has no inode. */
  function Answer(s: Dirs, path: Path): Option<nat> {
    if path == [] then None else Resolve(s, path)
  }

  /** The answers to the lookups among the calls, in order. */
  function Answers(s: Dirs, calls: seq<Call>): seq<Option<nat>>
    decreases |calls|
  {
    if calls == [] then [] else
      var rest := Answers(After(s, calls[0]), calls[1..]);
      if calls[0].LookupCall? then [Answer(s, PathOf(calls[0].path))] + rest else rest
  }

  /** Only directories without subdirectories are removed. */
  ghost predicate ChildlessRun(s: Dirs, calls: seq<Call>)
    decreases |calls|
  {
    || calls == []
    || ((calls[0].RmdirCall? ==> Childless(s, PathOf(calls[0].path))) && ChildlessRun(After(s, calls[0]), calls[1..]))
  }

  class Client {
    const server: DMStore
    const cache: Cache<nat>

    constructor (server: DMStore, cache: Cache<nat>)
      ensures this.server == server && this.cache == cache
    {
      this.server, this.cache := server, cache;
    }

    /** Every cached path is canonical and its uuid is what the server resolves it to now. */
    ghost predicate Coherent()
      reads this, cache, server
    {
      forall t :: t in cache.entries ==> CoherentAt(server.view, t, cache.entries[t].data)
    }

    static ghost predicate CoherentAt(s: Dirs, t: string, uuid: nat) {
      var p := Components(t);
      ProperPath(p) && p != [] && t == Render(p) && Resolve(s, p) == Some(uuid)
    }

    /** _get_uuid: from the cache, or from the server and into the cache. */
    method GetUuid(path: string, ghost p: Path, now: int) returns (r: Option<nat>)
      requires server.Valid() && Coherent()
      requires ProperPath(p) && path == Render(p) && |path| <= MAX_PATH_LEN
      modifies cache
      ensures Coherent()
      ensures r == Answer(server.view, p)
      ensures r.Some? ==> path in cache.entries
    {
      hide DMStore.Valid, CoherentAt, Resolve, Components, Render, ProperPath;
      ComponentsRender(p);
      ghost var view := server.view;
      CoherentHit(view, path, p);
      r := cache.Get(path, now);
      if r.Some? { return; }
      var inode := server.GetAttr(path);
      if inode.None? { return None; }
      var victim := cache.Set(path, inode.value.uuid, now, -1);
      r := Some(inode.value.uuid);
    }

    /** What a cached entry says about its path, and when an entry may be cached. */
    static lemma CoherentHit(s: Dirs, t: string, p: Path)
      requires ProperPath(p) && t == Render(p)
      ensures forall uuid: nat :: CoherentAt(s, t, uuid) <==> p != [] && Resolve(s, p) == Some(uuid)
    {
      ComponentsRender(p);
    }

    /** _get_file_key: the key of a file is the uuid of its directory, a colon and its name. */
    method GetFileKey(path: string, ghost p: Path, now: int) returns (r: Option<string>)
      requires server.Valid() && Coherent()
      requires ProperPath(p) && p != [] && path == Render(p) && |path| <= MAX_PATH_LEN
      modifies cache
      ensures Coherent()
      ensures r == FileKey(server.view, p)
    {
      RenderParent(p);
      ParentShorter(path);
      var uuid := GetUuid(ParentPath(path), Parent(p), now);
      if uuid.None? { return None; }
      r := Some(Dec(uuid.value) + ":" + FilenameOf(path));
    }

    lemma ParentShorter(path: string)
      requires path != ""
      ensures |ParentPath(path)| <= |path|
    {
    }

    /** mkdir. The request never carries the caller's mode; mode is whatever value its buffer holds. */
    method Mkdir(path: string, ghost p: Path, mode: int) returns (ok: bool)
      requires server.Valid() && Coherent()
      requires Denotes(path, p) && |path| <= MAX_PATH_LEN
      modifies server, server.ecStore
      ensures server.Valid() && Coherent()
      ensures var (s, r) := Namespace.Mkdir(old(server.view), p, mode, 511, 511); server.view == s && (ok <==> r == 0)
    {
      hide DMStore.Valid, Components, Namespace.Mkdir;
      CheckDenoted(path, p);
      ghost var s := server.view;
      assert TreeInv(s) by { ServerTree(server); }
      var r := server.Mkdir(CheckPath(path), p, mode, 511, 511);
      assert p <= p;
      forall t | t in cache.entries
        ensures CoherentAt(server.view, t, cache.entries[t].data)
      {
        MkdirAddsOne(s, p, mode, 511, 511, Components(t));
      }
      ok := r == 0;
    }

    /**
     The directory part of readdir: the names in the listing of the directory, if it has entries and none of their
     names contains a tab; otherwise something else.
     */
    method Readdir(path: string, ghost p: Path) returns (names: seq<Name>)
      requires server.Valid() && Denotes(path, p) && |path| <= MAX_PATH_LEN
      ensures Resolve(server.view, p).None? ==> names == [""]
      ensures Resolve(server.view, p).Some? ==>
        var listing := EntriesOf(server.view, Resolve(server.view, p).value);
        && names == Split('\t', Join(listing))
        && (listing == [] ==> names == [""])
        && ((forall i :: 0 <= i < |listing| ==> listing[i] != "") ==>
              (names == listing <==> listing != [] && forall i :: 0 <= i < |listing| ==> '\t' !in listing[i]))
    {
      hide DMStore.Valid, Components, Split, Join, Resolve;
      CheckDenoted(path, p);
      ComponentsRender(p);
      SplitPlain('\t', "");
      var text := server.Readdir(CheckPath(path));
      names := Split('\t', text);
      if Resolve(server.view, p).Some? {
        var listing := EntriesOf(server.view, Resolve(server.view, p).value);
        if forall i :: 0 <= i < |listing| ==> listing[i] != "" { SplitJoinIff(listing); }
        if listing == [] { SplitJoinIff(listing); }
      }
    }

    static lemma ServerTree(server: DMStore)
      requires server.Valid()
      ensures TreeInv(server.view)
    {
    }

    /**
     rmdir: on success the cache forgets the directory itself. It stays coherent exactly when nothing below the
     directory was cached, so always if the directory had no subdirectories.
     */
    method Rmdir(path: string, ghost p: Path) returns (ok: bool)
      requires server.Valid() && Coherent()
      requires Denotes(path, p) && |path| <= MAX_PATH_LEN
      modifies server, server.ecStore, cache
      ensures server.Valid()
      ensures RmdirStep(old(server.view), p, server.view, Namespace.Rmdir(old(server.view), p).1)
      ensures ok <==> Namespace.Rmdir(old(server.view), p).1 == 0
      ensures cache.entries == if ok then old(cache.entries) - {Render(p)} else old(cache.entries)
      ensures !ok ==> Coherent()
      ensures ok ==> (Coherent() <==> forall t :: t in cache.entries ==> !(p <= Components(t)))
      ensures Childless(old(server.view), p) ==> Coherent()
    {
      hide DMStore.Valid, Components, Namespace.Rmdir, TreeInv, Childless;
      CheckDenoted(path, p);
      ghost var s := server.view;
      assert TreeInv(s) by { ServerTree(server); }
      RmdirOutcome(s, p);
      if Childless(s, p) && Resolve(s, p).Some? {
        forall t | t in cache.entries && t != Render(p)
          ensures !(p <= Components(t))
        {
          ChildlessUncached(p, t);
        }
      }
      var r := server.Rmdir(CheckPath(path), p);
      if r == 0 {
        var removed := cache.Remove(CheckPath(path));
        forall t | t in cache.entries
          ensures CoherentAt(server.view, t, cache.entries[t].data) <==> !(p <= Components(t))
        {
          RmdirRemovesSubtree(s, p, Components(t));
        }
        return true;
      }
      ok := false;
    }

    /** Below a directory without subdirectories, nothing is cached. */
    lemma ChildlessUncached(p: Path, t: string)
      requires Coherent() && Resolve(server.view, p).Some? && Childless(server.view, p)
      requires t in cache.entries && t != Render(p)
      ensures !(p <= Components(t))
    {
      hide Components, Childless;
      assert CoherentAt(server.view, t, cache.entries[t].data);
      NothingBelow(server.view, p, Components(t));
    }

    /** Evictions and expiries keep the cache coherent. */
    method Evict() returns (r: bool)
      requires Coherent()
      modifies cache
      ensures Coherent()
    {
      ghost var victim;
      r, victim := cache.LruRemove();
    }

    method Expire(now: int) returns (erased: nat)
      requires Coherent()
      modifies cache
      ensures Coherent()
    {
      erased := cache.LruExpire(now);
    }

    /** One call. */
    method Perform(call: Call) returns (answer: Option<nat>)
      requires server.Valid() && Coherent() && CanonicalCall(call)
      requires call.RmdirCall? ==> Childless(server.view, PathOf(call.path))
      modifies server, server.ecStore, cache
      ensures server.Valid() && Coherent() && SameTree(server.view, After(old(server.view), call))
      ensures call.LookupCall? ==> answer == Answer(old(server.view), PathOf(call.path))
    {
      hide DMStore.Valid, Coherent, Childless, Namespace.Mkdir, Namespace.Rmdir, RmdirStep, Components;
      ghost var s := server.view;
      answer := None;
      match call {
        case MkdirCall(path, mode) => var ok := Mkdir(path, PathOf(path), mode);
        case RmdirCall(path) =>
          var ok := Rmdir(path, PathOf(path));
          SameTreeStep(s, PathOf(path), server.view, Namespace.Rmdir(s, PathOf(path)).1);
        case LookupCall(path, now) => answer := GetUuid(path, PathOf(path), now);
        case EvictCall => var r := Evict();
        case ExpireCall(now) => var erased := Expire(now);
      }
    }

    /**
     Any session of directories made, directories without subdirectories removed, lookups, evictions and expiries:
     the cache is coherent throughout, and every lookup gets the server's answer of that moment.
     */
    method Session(calls: seq<Call>) returns (found: seq<Option<nat>>)
      requires server.Valid() && Coherent() && ChildlessRun(server.view, calls)
      requires forall call :: call in calls ==> CanonicalCall(call)
      modifies server, server.ecStore, cache
      ensures server.Valid() && Coherent() && SameTree(server.view, AfterAll(old(server.view), calls))
      ensures found == Answers(old(server.view), calls)
    {
      hide DMStore.Valid, Coherent, CanonicalCall, After, Childless, Answer;
      ghost var s, now := server.view, server.view;
      found := [];
      var i := 0;
      while i < |calls|
        invariant 0 <= i <= |calls| && server.Valid() && Coherent() && SameTree(server.view, now)
        invariant ChildlessRun(now, calls[i..]) && AfterAll(now, calls[i..]) == AfterAll(s, calls)
        invariant found + Answers(now, calls[i..]) == Answers(s, calls)
      {
        ghost var rest := calls[i..];
        assert rest[0] == calls[i] && rest[1..] == calls[i + 1..];
        ghost var view := server.view;
        if calls[i].RmdirCall? { SameTreeChildless(view, now, PathOf(calls[i].path)); }
        SameTreeCall(view, now, calls[i]);
        var answer := Perform(calls[i]);
        if calls[i].LookupCall? { found := found + [answer]; }
        now := After(now, calls[i]);
        i := i + 1;
      }
    }

    static lemma SameTreeChildless(s: Dirs, t: Dirs, p: Path)
      requires SameTree(s, t)
      ensures Childless(s, p) <==> Childless(t, p)
    {
    }

    static lemma SameTreeCall(s: Dirs, t: Dirs, call: Call)
      requires SameTree(s, t)
      ensures SameTree(After(s, call), After(t, call))
      ensures call.LookupCall? ==> Answer(s, PathOf(call.path)) == Answer(t, PathOf(call.path))
    {
      hide Namespace.Mkdir, Namespace.Rmdir, PathOf, Follow;
      match call {
        case MkdirCall(path, mode) => SameTreeMkdir(s, t, PathOf(path), mode, 511, 511);
        case RmdirCall(path) => SameTreeRmdir(s, t, PathOf(path));
        case _ =>
      }
    }
  }

  /** A cache that is stale: "/a/b" has been looked up before the directory "/a" is removed with all it holds. */
  method RmdirLeavesStale() returns (client: Client)
    ensures client.server.Valid() && !client.Coherent()
  {
    hide DMStore.Valid, Components, Namespace.Mkdir, Namespace.Rmdir, Inv, Resolve;
    var server := new DMStore();
    var r := server.Mkdir("/", [], 493, 511, 511);
    var cache := new Cache<nat>(5000);
    client := new Client(server, cache);
    var a, ab := ["a"], ["a", "b"];
    CanonicalExamples();
    var ok := client.Mkdir("/a", a, 0);
    ok := client.Mkdir("/a/b", ab, 0);
    NestedDirectories(0, 511, 511);
    var uuid := client.GetUuid("/a/b", ab, 0);
    RmdirOutcome(server.view, a) by { InvTree(server.view); }
    ComponentsRender(ab);
    ok := client.Rmdir("/a", a);
    assert a <= Components("/a/b");
  }

  /** A session from start-up: a directory is made, looked up, removed and looked up again. */
  method MakeAndRemove() returns (client: Client, found: seq<Option<nat>>)
    ensures client.server.Valid() && client.Coherent() && found == [Some(2), None]
  {
    hide DMStore.Valid, Components, Namespace.Mkdir, Namespace.Rmdir, Inv, Resolve, Childless;
    var server := new DMStore();
    var r := server.Mkdir("/", [], 493, 511, 511);
    var cache := new Cache<nat>(5000);
    client := new Client(server, cache);
    var calls := [MkdirCall("/a", 0), LookupCall("/a", 0), RmdirCall("/a"), LookupCall("/a", 0)];
    ExampleCalls(calls);
    found := client.Session(calls);
  }

  lemma ExampleCalls(calls: seq<Call>)
    requires calls == [MkdirCall("/a", 0), LookupCall("/a", 0), RmdirCall("/a"), LookupCall("/a", 0)]
    ensures forall call :: call in calls ==> CanonicalCall(call)
    ensures ChildlessRun(Initial(), calls) && Answers(Initial(), calls) == [Some(2), None]
  {
    CanonicalExamples();
    ComponentsRender(["a"]);
    OneDirectory(0, 511, 511);
    assert PathOf("/a") == ["a"];
    hide Components, Namespace.Mkdir, Namespace.Rmdir, Resolve, Childless, Initial, Answers, ChildlessRun, PathOf,
        Denotes,
         ProperPath, Render, CheckPath;
    var s0 := Initial();
    var s1 := After(s0, calls[0]);
    var s2 := After(s1, calls[2]);
    assert After(s1, calls[1]) == s1 && After(s2, calls[3]) == s2;
    NoCalls(s2);
    FirstCall(s2, calls[3], []);
    FirstCall(s1, calls[2], [calls[3]] + []);
    FirstCall(s1, calls[1], [calls[2]] + ([calls[3]] + []));
    FirstCall(s0, calls[0], [calls[1]] + ([calls[2]] + ([calls[3]] + [])));
    OneByOne(calls);
    var none: Option<nat> := None;
    assert [none] + [] == [none] && [Some(2)] + [none] == [Some(2), none];
  }

  lemma OneByOne(calls: seq<Call>)
    requires |calls| == 4
    ensures calls == [calls[0]] + ([calls[1]] + ([calls[2]] + ([calls[3]] + [])))
  {
  }

  lemma NoCalls(s: Dirs)
    ensures Answers(s, []) == [] && ChildlessRun(s, [])
  {
  }

  lemma FirstCall(s: Dirs, call: Call, rest: seq<Call>)
    ensures Answers(s, [call] + rest) ==
            (if call.LookupCall? then [Answer(s, PathOf(call.path))] else []) + Answers(After(s, call), rest)
    ensures ChildlessRun(s, [call] + rest) <==>
            (call.RmdirCall? ==> Childless(s, PathOf(call.path))) && ChildlessRun(After(s, call), rest)
  {
    assert ([call] + rest)[1..] == rest;
  }

  lemma CanonicalExamples()
    ensures ProperPath([]) && Render([]) == "/"
    ensures ProperPath(["a"]) && Render(["a"]) == "/a" && ProperPath(["a", "b"]) && Render(["a", "b"]) == "/a/b"
  {
    assert ["a"][1..] == [] && ["a", "b"][1..] == ["b"] && ["b"][1..] == [];
    assert "/" + "b" + "" == "/b" && "/" + "a" + "" == "/a" && "/" + "a" + "/b" == "/a/b";
  }
}
