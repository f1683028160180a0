/**
 Whole runs of the directory server: what every run keeps, what only runs with free rename targets keep, and the
 runs in which a rename does not do what it was asked to.
 */
module NamespaceRuns {
  import opened Options
  import opened PathText
  import opened Namespace

  datatype Op =
    | MkdirOp(path: Path, mode: int, uid: int, gid: int)
    | RmdirOp(path: Path)
    | RenameOp(old_: Path, new_: Path)

  ghost predicate Performs(s: Dirs, op: Op, s': Dirs) {
    match op
    case MkdirOp(path, mode, uid, gid) => s' == Mkdir(s, path, mode, uid, gid).0
    case RmdirOp(path) => RmdirStep(s, path, s', Rmdir(s, path).1)
    case RenameOp(old_, new_) => RenameStep(s, old_, new_, s', Rename(s, old_, new_).1)
  }

  /** states is a run of the server that carries out the given requests. */
  ghost predicate Run(states: seq<Dirs>, ops: seq<Op>) {
    && |states| == |ops| + 1
    && states[0] == Initial()
    && forall i :: 0 <= i < |ops| ==> Performs(states[i], ops[i], states[i + 1])
  }

  /** Requests on canonical paths are canonical. */
  lemma CanonicalOps(p: Path, q: Path, mode: int, uid: int, gid: int)
    requires ProperPath(p) && ProperPath(q)
    ensures Canonical(MkdirOp(p, mode, uid, gid)) && Canonical(RmdirOp(p))
    ensures q != [] ==> Canonical(RenameOp(p, q))
  {
  }

  /** Every sequence of requests has a run. */
  lemma {:induction false} RunExists(ops: seq<Op>) returns (states: seq<Dirs>)
    requires forall op :: op in ops ==> Canonical(op)
    ensures Run(states, ops)
  {
    if ops == [] {
      states := [Initial()];
    } else {
      var front, last := ops[..|ops| - 1], ops[|ops| - 1];
      states := RunExists(front);
      CanonicalRun(states, front, |front|);
      RunKeepsSound(states, front, |front|);
      var s := states[|front|];
      var s' := StepExists(s, last);
      hide Performs;
      states := states + [s'];
    }
  }

  lemma StepExists(s: Dirs, op: Op) returns (s': Dirs)
    requires Sound(s) && Canonical(op) && NoRootName(s.keys)
    ensures Performs(s, op, s')
  {
    match op {
      case MkdirOp(path, mode, uid, gid) => s' := Mkdir(s, path, mode, uid, gid).0;
      case RmdirOp(path) =>
        RmdirOutcome(s, path);
        s' := Rmdir(s, path).0;
        if Rmdir(s, path).1 == 0 {
          FollowLast(s.keys, 0, path);
          var d := Resolve(s, Parent(path)).value;
          var e := RemovedExists(s, d, Filename(path));
          s' := s'.(entries := e);
        }
      case RenameOp(old_, new_) =>
        RenameOutcome(s, old_, new_);
        s' := Rename(s, old_, new_).0;
        if Rename(s, old_, new_).1 == 0 {
          FollowLast(s.keys, 0, old_);
          var d := Resolve(s, Parent(old_)).value;
          var e := RemovedExists(s, d, Filename(old_));
          s' := s'.(entries := InsertEntry(e, d, Filename(new_)));
        }
    }
  }

  lemma RemovedExists(s: Dirs, d: nat, n: Name) returns (e: map<nat, seq<Name>>)
    requires n in EntriesOf(s, d)
    ensures Removed(s.entries, e, d, n)
  {
    var list := s.entries[d];
    WithoutCount(list, n);
    var left := Without(list, n) + seq(|list| - 1 - |Without(list, n)|, _ => "");
    e := s.entries[d := left];
  }

  // ---------- every run ----------

  /** The one request that breaks the tree: a rename of "/" that finds a directory called "/". */
  predicate MovesRoot(s: Dirs, op: Op) {
    op.RenameOp? && op.old_ == [] && HasKey(s, [])
  }

  lemma StepKeepsSoundIff(s: Dirs, op: Op, s': Dirs)
    requires Sound(s) && Performs(s, op, s')
    ensures Sound(s') <==> !MovesRoot(s, op)
  {
    match op {
      case MkdirOp(path, mode, uid, gid) => MkdirKeepsSound(s, path, mode, uid, gid);
      case RmdirOp(path) => RmdirStepKeepsSound(s, path, s', Rmdir(s, path).1);
      case RenameOp(old_, new_) => RenameStepKeepsSoundIff(s, old_, new_, s', Rename(s, old_, new_).1);
    }
  }

  /** Nowhere before state k is the root moved. */
  ghost predicate RootStays(states: seq<Dirs>, ops: seq<Op>, k: nat)
    requires |states| == |ops| + 1 && k <= |ops|
  {
    forall i :: 0 <= i < k ==> !MovesRoot(states[i], ops[i])
  }

  /**
   On every run, whatever its paths and its rename targets, the keys are a tree, the inodes agree with them and
   every keyed name is listed, up to the point where the root itself is moved.
   */
  lemma {:induction false} RunKeepsSound(states: seq<Dirs>, ops: seq<Op>, k: nat)
    requires Run(states, ops) && k <= |ops| && RootStays(states, ops, k)
    ensures Sound(states[k])
  {
    hide Sound, Performs, MovesRoot;
    if k == 0 {
      InitialInv();
      InvSound(Initial());
    } else {
      RunKeepsSound(states, ops, k - 1);
      StepKeepsSoundIff(states[k - 1], ops[k - 1], states[k]);
    }
  }

  /** The paths of a request are canonical, and a new path is not "/". */
  predicate Canonical(op: Op) {
    match op
    case MkdirOp(path, _, _, _) => ProperPath(path)
    case RmdirOp(path) => ProperPath(path)
    case RenameOp(old_, new_) => ProperPath(old_) && ProperPath(new_) && new_ != []
  }

  lemma CanonicalKeepsNames(s: Dirs, op: Op, s': Dirs)
    requires NoRootName(s.keys) && Canonical(op) && Performs(s, op, s')
    ensures NoRootName(s'.keys) && !MovesRoot(s, op)
  {
    match op {
      case MkdirOp(path, mode, uid, gid) => assert path != [] ==> ProperName(Filename(path));
      case RmdirOp(path) =>
      case RenameOp(old_, new_) => assert ProperName(Filename(new_));
    }
  }

  /** Such requests never move the root. */
  lemma {:induction false} CanonicalRun(states: seq<Dirs>, ops: seq<Op>, k: nat)
    requires Run(states, ops) && k <= |ops| && forall i :: 0 <= i < k ==> Canonical(ops[i])
    ensures RootStays(states, ops, k) && NoRootName(states[k].keys)
  {
    hide NoRootName, Canonical, MovesRoot, Performs;
    if k == 0 {
      InitialInv();
      InvNames(Initial());
    } else {
      CanonicalRun(states, ops, k - 1);
      CanonicalKeepsNames(states[k - 1], ops[k - 1], states[k]);
    }
  }

  lemma InvNames(s: Dirs)
    requires Inv(s)
    ensures NoRootName(s.keys)
  {
  }

  /**
   In every reachable state, taken rename targets included, distinct paths have distinct uuids, and every path but
   "/" resolves to a uuid whose inode carries that uuid. "/" resolves to uuid 0, which has no inode.
   */
  lemma UuidsIdentify(states: seq<Dirs>, ops: seq<Op>, k: nat, p: Path, q: Path)
    requires Run(states, ops) && k <= |ops| && RootStays(states, ops, k)
    ensures var s := states[k];
            && (Resolve(s, p).Some? && Resolve(s, p) == Resolve(s, q) ==> p == q)
            && Resolve(s, []) == Some(0) && 0 !in s.inodes
            && (p != [] && Resolve(s, p).Some? ==>
                  Resolve(s, p).value in s.inodes && s.inodes[Resolve(s, p).value].uuid == Resolve(s, p).value)
  {
    hide Performs, RootStays, Tree;
    RunKeepsSound(states, ops, k);
    var s := states[k];
    if Resolve(s, p).Some? && Resolve(s, p) == Resolve(s, q) { ResolveInjective(s.keys, s.counter, p, q); }
    if p != [] { FollowLast(s.keys, 0, p); }
  }

  // ---------- the attributes of a directory ----------

  /** The request renames the directory with uuid u. */
  predicate Renames(s: Dirs, op: Op, u: nat) {
    op.RenameOp? && op.old_ != [] && Resolve(s, op.old_) == Some(u)
  }

  /** What one request does to an inode that is there before and after. */
  lemma InodeStep(s: Dirs, op: Op, s': Dirs, u: nat)
    requires Sound(s) && Performs(s, op, s') && !MovesRoot(s, op) && u <= s.counter && u in s'.inodes
    ensures u in s.inodes && s.counter <= s'.counter
    ensures s'.inodes[u] == if Renames(s, op, u) then s.inodes[u].(status := 2) else s.inodes[u]
  {
    hide Mkdir, Rmdir, Rename, Tree, Listed;
    match op {
      case MkdirOp(path, mode, uid, gid) =>
        MkdirInodes(s, path, mode, uid, gid);
        MkdirOutcome(s, path, mode, uid, gid);
      case RmdirOp(path) =>
        RmdirInodes(s, path);
        CounterStays(s, path, []);
      case RenameOp(old_, new_) =>
        RenameOutcome(s, old_, new_);
        CounterStays(s, old_, new_);
        if old_ != [] { RenameInodes(s, old_, new_); }
    }
  }

  lemma CounterStays(s: Dirs, path: Path, new_: Path)
    ensures Rmdir(s, path).0.counter == s.counter && Rename(s, path, new_).0.counter == s.counter
  {
  }

  /**
   Over any run, the inode of a directory keeps its mode, owner, first name and uuid; its status is changed to
   renamed by a rename of the directory, and by nothing else. A removed inode never comes back.
   */
  lemma {:induction false} InodeAfterRun(states: seq<Dirs>, ops: seq<Op>, i: nat, k: nat, u: nat)
    requires Run(states, ops) && i <= k <= |ops| && RootStays(states, ops, k)
    requires u <= states[i].counter && u in states[k].inodes
    ensures u in states[i].inodes && states[i].counter <= states[k].counter
    ensures states[k].inodes[u] ==
            if exists j :: i <= j < k && Renames(states[j], ops[j], u) then states[i].inodes[u].(status := 2)
            else states[i].inodes[u]
  {
    hide Performs, Sound, MovesRoot, Renames;
    if i < k {
      CounterGrows(states, ops, i, k - 1);
      RunKeepsSound(states, ops, k - 1);
      InodeStep(states[k - 1], ops[k - 1], states[k], u);
      InodeAfterRun(states, ops, i, k - 1, u);
    }
  }

  lemma {:induction false} CounterGrows(states: seq<Dirs>, ops: seq<Op>, i: nat, k: nat)
    requires Run(states, ops) && i <= k <= |ops|
    ensures states[i].counter <= states[k].counter
  {
    if i < k {
      CounterGrows(states, ops, i, k - 1);
      hide Mkdir, Rmdir, Rename;
      match ops[k - 1] {
        case MkdirOp(path, mode, uid, gid) => MkdirOutcome(states[k - 1], path, mode, uid, gid);
        case RmdirOp(path) => CounterStays(states[k - 1], path, []);
        case RenameOp(old_, new_) => CounterStays(states[k - 1], old_, new_);
      }
    }
  }

  /**
   As long as a directory exists, under whatever name, its inode has the attributes its mkdir was called with, and
   its status tells whether it has been renamed.
   */
  lemma MkdirAttributesStay(states: seq<Dirs>, ops: seq<Op>, i: nat, k: nat, q: Path)
    requires Run(states, ops) && i < k <= |ops| && RootStays(states, ops, k) && ops[i].MkdirOp?
    requires Mkdir(states[i], ops[i].path, ops[i].mode, ops[i].uid, ops[i].gid).1 == 0
    ensures var u := states[i].counter + 1;
            (q != [] && Resolve(states[k], q) == Some(u) ==> u in states[k].inodes) &&
            (u in states[k].inodes ==>
              var inode := states[k].inodes[u];
              && inode.mode == ops[i].mode && inode.uid == ops[i].uid && inode.gid == ops[i].gid
              && inode.oldName == Render(ops[i].path) && inode.uuid == u
              && inode.status == if exists j :: i < j < k && Renames(states[j], ops[j], u) then 2 else 0)
  {
    var u := states[i].counter + 1;
    UuidsIdentify(states, ops, k, q, q);
    RunKeepsSound(states, ops, i);
    MkdirInodes(states[i], ops[i].path, ops[i].mode, ops[i].uid, ops[i].gid);
    MkdirOutcome(states[i], ops[i].path, ops[i].mode, ops[i].uid, ops[i].gid);
    assert Performs(states[i], ops[i], states[i + 1]);
    hide Sound, RootStays, Mkdir, Rmdir, Rename, Renames, RmdirStep, RenameStep;
    if u in states[k].inodes {
      InodeAfterRun(states, ops, i + 1, k, u);
    }
  }

  // ---------- runs with free rename targets ----------

  /** Paths are canonical, and a rename that succeeds has a free target of its own. */
  ghost predicate Proper(s: Dirs, op: Op) {
    Canonical(op) && (op.RenameOp? && op.old_ != [] && HasKey(s, op.old_) ==> TargetFree(s, op.old_, op.new_))
  }

  /** Of the canonical requests, exactly these keep the three stores in agreement. */
  lemma StepKeepsInvIff(s: Dirs, op: Op, s': Dirs)
    requires Inv(s) && Canonical(op) && Performs(s, op, s')
    ensures Inv(s') <==> Proper(s, op)
  {
    hide Inv, Mkdir, Rmdir, Rename, TargetFree, RmdirStep, RenameStep;
    match op {
      case MkdirOp(path, mode, uid, gid) =>
        assert path != [] ==> ProperName(Filename(path));
        MkdirKeepsInv(s, path, mode, uid, gid);
      case RmdirOp(path) =>
        StepsExact(s, path, [], s', Rmdir(s, path).1);
        RmdirKeepsInv(s, path);
      case RenameOp(old_, new_) =>
        StepsExact(s, old_, new_, s', Rename(s, old_, new_).1);
        RenameOutcome(s, old_, new_);
        if Rename(s, old_, new_).1 == 0 { RenameKeepsInvIff(s, old_, new_); }
    }
  }

  /** After any run with free rename targets, the three stores agree as well. */
  lemma {:induction false} RunKeepsInv(states: seq<Dirs>, ops: seq<Op>, k: nat)
    requires Run(states, ops) && k <= |ops| && forall i :: 0 <= i < k ==> Proper(states[i], ops[i])
    ensures Inv(states[k])
  {
    hide Inv, Performs, Canonical, TargetFree, HasKey;
    if k == 0 {
      InitialInv();
    } else {
      RunKeepsInv(states, ops, k - 1);
      StepKeepsInvIff(states[k - 1], ops[k - 1], states[k]);
    }
  }

  /**
   In every state reached with free rename targets, the listing of a directory is exactly the names that resolve
   in it, each once.
   */
  lemma ListingExact(states: seq<Dirs>, ops: seq<Op>, k: nat, dir: Path, n: Name)
    requires Run(states, ops) && k <= |ops| && forall i :: 0 <= i < k ==> Proper(states[i], ops[i])
    ensures var s := states[k];
            Resolve(s, dir).Some? ==>
              && NoDuplicates(EntriesOf(s, Resolve(s, dir).value))
              && (n in EntriesOf(s, Resolve(s, dir).value) <==> Resolve(s, dir + [n]).Some?)
  {
    hide Performs, Proper, Tree;
    RunKeepsInv(states, ops, k);
    var s := states[k];
    if Resolve(s, dir).Some? {
      FollowThrough(s.keys, dir, Resolve(s, dir).value, n, []);
      assert dir + [n] + [] == dir + [n];
    }
  }

  /** The names of all directories come from canonical paths. */
  ghost predicate ProperKeys(keys: map<Key, nat>) {
    forall p: nat, n :: Sub(p, n) in keys ==> ProperName(n)
  }

  lemma StepKeepsNames(s: Dirs, op: Op, s': Dirs)
    requires ProperKeys(s.keys) && Canonical(op) && Performs(s, op, s')
    ensures ProperKeys(s'.keys)
  {
    match op {
      case MkdirOp(path, mode, uid, gid) => assert path != [] ==> ProperName(Filename(path));
      case RmdirOp(path) =>
      case RenameOp(old_, new_) => assert ProperName(Filename(new_));
    }
  }

  lemma {:induction false} RunKeepsNames(states: seq<Dirs>, ops: seq<Op>, k: nat)
    requires Run(states, ops) && k <= |ops| && forall i :: 0 <= i < k ==> Canonical(ops[i])
    ensures ProperKeys(states[k].keys)
  {
    hide ProperKeys, Canonical, Performs;
    if k == 0 {
      InitialNames();
    } else {
      RunKeepsNames(states, ops, k - 1);
      StepKeepsNames(states[k - 1], ops[k - 1], states[k]);
    }
  }

  lemma InitialNames()
    ensures ProperKeys(Initial().keys)
  {
  }

  /**
   What a client makes of readdir: in every state reached with free rename targets, if the directory has entries and
   none of their names contains a tab, the names it gets are exactly those that resolve in the directory, each once.
   From an empty directory it gets one empty name.
   */
  lemma ClientListing(states: seq<Dirs>, ops: seq<Op>, k: nat, dir: Path, n: Name)
    requires Run(states, ops) && k <= |ops| && forall i :: 0 <= i < k ==> Proper(states[i], ops[i])
    requires Resolve(states[k], dir).Some?
    ensures var listing := EntriesOf(states[k], Resolve(states[k], dir).value);
            var names := Split('\t', Join(listing));
            && (listing == [] ==> names == [""])
            && (listing != [] && (forall i :: 0 <= i < |listing| ==> '\t' !in listing[i]) ==>
                  NoDuplicates(names) && (n in names <==> Resolve(states[k], dir + [n]).Some?))
  {
    var s := states[k];
    var listing := EntriesOf(s, Resolve(s, dir).value);
    RunKeepsInv(states, ops, k);
    RunKeepsNames(states, ops, k);
    ListingExact(states, ops, k, dir, n);
    hide Performs, Proper, Split, Join, NoDuplicates;
    forall i | 0 <= i < |listing| ensures listing[i] != "" { ListedProper(s, Resolve(s, dir).value, listing[i]); }
    SplitJoinIff(listing);
  }

  lemma ListedProper(s: Dirs, d: nat, n: Name)
    requires Inv(s) && ProperKeys(s.keys) && n in EntriesOf(s, d)
    ensures n != ""
  {
    assert Sub(d, n) in s.keys && ProperName(n);
  }

  // ---------- renames that do not do what they were asked to ----------

  /** mkdir of a new directory n in a directory that exists. */
  lemma MkdirIn(s: Dirs, dir: Path, n: Name, mode: int, uid: int, gid: int)
    requires Resolve(s, dir).Some? && Sub(Resolve(s, dir).value, n) !in s.keys
    ensures Mkdir(s, dir + [n], mode, uid, gid).1 == 0
    ensures var s', d := Mkdir(s, dir + [n], mode, uid, gid).0, Resolve(s, dir).value;
            && s'.keys == s.keys[Sub(d, n) := s.counter + 1] && s'.counter == s.counter + 1
            && s'.entries == InsertEntry(s.entries, d, n)
  {
    assert Parent(dir + [n]) == dir && Filename(dir + [n]) == n;
  }

  lemma MkdirInRoot(s: Dirs, n: Name, mode: int, uid: int, gid: int)
    requires Sub(0, n) !in s.keys
    ensures Mkdir(s, [n], mode, uid, gid).1 == 0
    ensures var s' := Mkdir(s, [n], mode, uid, gid).0;
            && s'.keys == s.keys[Sub(0, n) := s.counter + 1] && s'.counter == s.counter + 1
            && s'.entries == InsertEntry(s.entries, 0, n)
  {
    assert [] + [n] == [n];
    MkdirIn(s, [], n, mode, uid, gid);
  }

  /** "/a", made and removed. */
  lemma OneDirectory(mode: int, uid: int, gid: int)
    ensures var s := Mkdir(Initial(), ["a"], mode, uid, gid).0;
            && Resolve(s, ["a"]) == Some(2) && Childless(s, ["a"])
            && Resolve(Rmdir(s, ["a"]).0, ["a"]) == None
  {
    hide Mkdir, Inv, Initial, InsertEntry;
    InitialInv();
    InitialStores();
    MkdirKeepsInv(Initial(), ["a"], mode, uid, gid) by { assert Filename(["a"]) == "a"; }
    MkdirInRoot(Initial(), "a", mode, uid, gid);
    var s := Mkdir(Initial(), ["a"], mode, uid, gid).0;
    ResolveInRoot(s, "a");
    InvTree(s);
    RmdirOutcome(s, ["a"]);
    RmdirRemovesSubtree(s, ["a"], ["a"]);
  }

  /** "/a" and "/a/b". */
  lemma NestedDirectories(mode: int, uid: int, gid: int)
    ensures var s := Mkdir(Mkdir(Initial(), ["a"], mode, uid, gid).0, ["a", "b"], mode, uid, gid).0;
            Inv(s) && Resolve(s, ["a"]) == Some(2) && Resolve(s, ["a", "b"]) == Some(3)
  {
    hide Mkdir, Inv, Initial, InsertEntry, Resolve;
    InitialInv();
    InitialStores();
    var s0, s1 := Initial(), Mkdir(Initial(), ["a"], mode, uid, gid).0;
    var s := Mkdir(s1, ["a", "b"], mode, uid, gid).0;
    assert Filename(["a"]) == "a" && Filename(["a", "b"]) == "b" && ["a"] + ["b"] == ["a", "b"];
    MkdirKeepsInv(s0, ["a"], mode, uid, gid);
    MkdirKeepsInv(s1, ["a", "b"], mode, uid, gid);
    MkdirInRoot(s0, "a", mode, uid, gid);
    ResolveInRoot(s1, "a");
    MkdirIn(s1, ["a"], "b", mode, uid, gid);
    ResolveInRoot(s, "a");
    ResolveIn(s, ["a"], "b");
  }

  lemma ResolveIn(s: Dirs, dir: Path, n: Name)
    requires Resolve(s, dir).Some?
    ensures var key := Sub(Resolve(s, dir).value, n);
            Resolve(s, dir + [n]) == if key in s.keys then Some(s.keys[key]) else None
  {
    assert Parent(dir + [n]) == dir && Filename(dir + [n]) == n;
    FollowLast(s.keys, 0, dir + [n]);
  }

  lemma RenameInRoot(s: Dirs, a: Name, new_: Path)
    requires Sub(0, a) in s.keys
    ensures Rename(s, [a], new_).1 == 0 && Resolve(s, [a]) == Some(s.keys[Sub(0, a)])
    ensures var s' := Rename(s, [a], new_).0;
            && s'.keys == (s.keys - {Sub(0, a)})[Sub(0, Filename(new_)) := s.keys[Sub(0, a)]]
            && s'.entries == InsertEntry(RemoveEntry(s.entries, 0, a), 0, Filename(new_))
  {
    assert Parent([a]) == [] && Filename([a]) == a;
    ResolveInRoot(s, a);
  }

  lemma TwoDirectories() returns (s: Dirs)
    ensures s == Mkdir(Mkdir(Initial(), ["a"], 0, 0, 0).0, ["b"], 0, 0, 0).0 && Inv(s)
    ensures s.keys == map[Root := 1, Sub(0, "a") := 2, Sub(0, "b") := 3] && s.entries == map[0 := ["a", "b"]]
  {
    hide Mkdir, Inv, Initial, InsertEntry;
    InitialInv();
    InitialStores();
    var s0, s1 := Initial(), Mkdir(Initial(), ["a"], 0, 0, 0).0;
    s := Mkdir(s1, ["b"], 0, 0, 0).0;
    MkdirKeepsInv(s0, ["a"], 0, 0, 0);
    MkdirKeepsInv(s1, ["b"], 0, 0, 0);
    MkdirInRoot(s0, "a", 0, 0, 0);
    MkdirInRoot(s1, "b", 0, 0, 0);
    TwoEntries();
  }

  lemma InitialStores()
    ensures Initial().keys == map[Root := 1] && Initial().entries == map[] && Initial().counter == 1
  {
  }

  lemma TwoEntries()
    ensures InsertEntry(InsertEntry(map[], 0, "a"), 0, "b") == map[0 := ["a", "b"]]
  {
    assert [] + ["a"] == ["a"] && ["a"] + ["b"] == ["a", "b"];
  }

  /** After mkdir("/a") and mkdir("/b"), rename("/a", "/b") succeeds: b is listed twice, and the old b is lost. */
  lemma RenameOverTaken()
    ensures var s := Mkdir(Mkdir(Initial(), ["a"], 0, 0, 0).0, ["b"], 0, 0, 0).0;
            var (s', r) := Rename(s, ["a"], ["b"]);
            && Inv(s) && r == 0 && !TargetFree(s, ["a"], ["b"])
            && EntriesOf(s', 0) == ["b", "b"] && !Inv(s') && TreeInv(s')
            && Resolve(s, ["b"]) == Some(3) && Resolve(s', ["b"]) == Some(2)
  {
    hide Mkdir, Rename, Inv, TreeInv, Resolve, InsertEntry, RemoveEntry;
    var s := TwoDirectories();
    var s' := Rename(s, ["a"], ["b"]).0;
    InvTree(s);
    RenameInRoot(s, "a", ["b"]);
    ResolveInRoot(s, "b");
    ResolveInRoot(s', "b");
    assert Parent(["a"]) + ["b"] == ["b"];
    RenameKeepsInvIff(s, ["a"], ["b"]);
    RenameKeepsTreeIff(s, ["a"], ["b"]);
    MovedEntries();
  }

  lemma MovedEntries()
    ensures InsertEntry(RemoveEntry(map[0 := ["a", "b"]], 0, "a"), 0, "b") == map[0 := ["b", "b"]]
  {
    assert ["a", "b"][..1] == ["a"] && ["a"][..0] == [] && [] + ["b"] == ["b"] && ["b"] + ["b"] == ["b", "b"];
    assert Without([], "a") == [] && Without(["a"], "a") == [] && Without(["a", "b"], "a") == ["b"];
  }

  /**
   After that, rmdir("/b") succeeds on the list ["b", "b"]: no element is kept, but one string, any string, stays
   behind as an entry of the root.
   */
  lemma RmdirLeavesLeftover(leftover: Name) returns (s': Dirs)
    ensures var s := Rename(Mkdir(Mkdir(Initial(), ["a"], 0, 0, 0).0, ["b"], 0, 0, 0).0, ["a"], ["b"]).0;
            && EntriesOf(s, 0) == ["b", "b"] && !ListedOnce(s, ["b"])
            && RmdirStep(s, ["b"], s', 0) && EntriesOf(s', 0) == [leftover]
            && s' != Rmdir(s, ["b"]).0 && forall n :: Resolve(s', [n]) == None
  {
    RenameOverTaken();
    RenamedKeys();
    hide Mkdir, Rename, Inv, TreeInv;
    var s := Rename(Mkdir(Mkdir(Initial(), ["a"], 0, 0, 0).0, ["b"], 0, 0, 0).0, ["a"], ["b"]).0;
    s' := Rmdir(s, ["b"]).0.(entries := s.entries[0 := [leftover]]);
    assert Parent(["b"]) == [] && Filename(["b"]) == "b";
    KeyedInode(s, Sub(0, "b"));
    BothRemoved();
    assert multiset(["b", "b"])["b"] == 2;
    assert Rmdir(s, ["b"]).1 == 0 && Removed(s.entries, s'.entries, 0, "b");
    forall n ensures Resolve(s', [n]) == None { ResolveInRoot(s', n); }
  }

  lemma KeyedInode(s: Dirs, k: Key)
    requires TreeInv(s) && k in s.keys
    ensures s.keys[k] in s.inodes
  {
  }

  lemma BothRemoved()
    ensures Without(["b", "b"], "b") == []
  {
    assert ["b", "b"][..1] == ["b"] && ["b"][..0] == [];
    assert Without([], "b") == [] && Without(["b"], "b") == [];
  }

  lemma RenamedKeys()
    ensures var s := Rename(Mkdir(Mkdir(Initial(), ["a"], 0, 0, 0).0, ["b"], 0, 0, 0).0, ["a"], ["b"]).0;
            s.keys == map[Root := 1, Sub(0, "b") := 2] && TreeInv(s)
  {
    hide Mkdir, Rename, Inv, TreeInv, Resolve, InsertEntry, RemoveEntry;
    RenameOverTaken();
    var s := TwoDirectories();
    RenameInRoot(s, "a", ["b"]);
  }

  lemma InvTree(s: Dirs)
    requires Inv(s)
    ensures TreeInv(s)
  {
  }

  /** rename("/a", "/b/c") succeeds as well, but the directory arrives at "/c". */
  lemma RenameToOtherParent()
    ensures var s := Mkdir(Mkdir(Initial(), ["a"], 0, 0, 0).0, ["b"], 0, 0, 0).0;
            var (s', r) := Rename(s, ["a"], ["b", "c"]);
            r == 0 && Resolve(s', ["b", "c"]) == None && Resolve(s', ["c"]) == Resolve(s, ["a"]) == Some(2)
  {
    var s := TwoDirectories();
    var s' := Rename(s, ["a"], ["b", "c"]).0;
    hide Mkdir, Rename, Inv;
    RenameInRoot(s, "a", ["b", "c"]);
    ResolveInRoot(s', "c");
    assert ["b", "c"][0] == "b" && ["b", "c"][1..] == ["c"] && ["c"][0] == "c";
    assert s'.keys == map[Root := 1, Sub(0, "b") := 3, Sub(0, "c") := 2];
    assert Follow(s'.keys, 3, ["c"]) == None;
  }

  /** After mkdir("/a"), rename("/a", "/") and rename("/", "/b"), the name b in the root leads back to the root. */
  lemma RenameRootCycle()
    ensures var s1 := Mkdir(Initial(), ["a"], 0, 0, 0).0;
            var (s2, r2) := Rename(s1, ["a"], []);
            var (s3, r3) := Rename(s2, [], ["b"]);
            && Inv(s1) && r2 == 0 && r3 == 0
            && Resolve(s2, ["a"]) == None && Resolve(s3, ["b"]) == Some(0) && !TreeInv(s3)
  {
    InitialInv();
    var s1 := Mkdir(Initial(), ["a"], 0, 0, 0).0;
    var s2 := Rename(s1, ["a"], []).0;
    MkdirKeepsInv(Initial(), ["a"], 0, 0, 0);
    MkdirInRoot(Initial(), "a", 0, 0, 0);
    InvTree(s1);
    hide Mkdir, Rename, Resolve, Inv, TreeInv;
    RenameInRoot(s1, "a", []);
    ResolveInRoot(s2, "a");
    RenameOutcome(s2, [], ["b"]);
    RenamedFromRoot(s2, ["b"]);
  }
}
