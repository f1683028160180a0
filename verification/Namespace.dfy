/**
 The directory name space of DMStore (src/fs/DMStore.cpp) as a value: the chain of keys (parent uuid, name) ->
 uuid, the inodes by uuid and the entry lists by uuid. Paths are sequences of names; [] is "/".

 Resolution starts at uuid 0, which is never handed out; the server's initial mkdir("/") stores its own uuid
 under the key "/".
 */
module Namespace {
  import opened Options
  import opened PathText

  /** DirectoryInode without its times. */
  datatype Inode = Inode(mode: int, uid: int, gid: int, status: int, oldName: string, uuid: nat)

  const ON_USE := 0
  const RENAMED := 2

  datatype Dirs = Dirs(keys: map<Key, nat>, inodes: map<nat, Inode>, entries: map<nat, seq<Name>>, counter: nat)

  const EMPTY := Dirs(map[], map[], map[], 0)

  /** The entry list of a directory. */
  function EntriesOf(s: Dirs, uuid: nat): seq<Name> {
    if uuid in s.entries then s.entries[uuid] else []
  }

  /** Follows a path from a directory. */
  function Follow(keys: map<Key, nat>, from: nat, path: Path): Option<nat>
    decreases |path|
  {
    if path == [] then Some(from)
    else if Sub(from, path[0]) in keys then Follow(keys, keys[Sub(from, path[0])], path[1..])
    else None
  }

  /** get_uuid. */
  function Resolve(s: Dirs, path: Path): Option<nat> {
    Follow(s.keys, 0, path)
  }

  function Parent(path: Path): Path
    requires path != []
  {
    path[..|path| - 1]
  }

  /** filename(): "/" for the root. */
  function Filename(path: Path): Name {
    if path == [] then "/" else path[|path| - 1]
  }

  // ---------- operations ----------

  /** The list without name: the elements that std::remove keeps. */
  function Without(list: seq<Name>, name: Name): (r: seq<Name>)
    ensures |r| <= |list|
  {
    if list == [] then [] else
      var last := list[|list| - 1];
      Without(list[..|list| - 1], name) + (if last == name then [] else [last])
  }

  function InsertEntry(entries: map<nat, seq<Name>>, uuid: nat, name: Name): map<nat, seq<Name>> {
    entries[uuid := (if uuid in entries then entries[uuid] else []) + [name]]
  }

  function RemoveEntry(entries: map<nat, seq<Name>>, uuid: nat, name: Name): map<nat, seq<Name>> {
    if uuid in entries then entries[uuid := Without(entries[uuid], name)] else entries
  }

  function MkdirKey(s: Dirs, path: Path): Option<Key> {
    if path == [] then Some(Root)
    else match Resolve(s, Parent(path))
      case Some(p) => Some(Sub(p, Filename(path)))
      case None => None
  }

  /** mkdir: the new state and the return value. A uuid is consumed even on failure. */
  function Mkdir(s: Dirs, path: Path, mode: int, uid: int, gid: int): (Dirs, int) {
    var u := s.counter + 1;
    var s1 := s.(counter := u);
    match MkdirKey(s, path)
    case None => (s1, -1)
    case Some(key) =>
      if key in s.keys then (s1, -1)
      else
        (s1.(keys := s.keys[key := u],
             inodes := s.inodes[u := Inode(mode, uid, gid, ON_USE, Render(path), u)],
             entries := if key.Root? then s.entries else InsertEntry(s.entries, key.parent, key.name)), 0)
  }

  /** rmdir; emptiness is not checked. */
  function Rmdir(s: Dirs, path: Path): (Dirs, int) {
    if path == [] then (s, 1)
    else match Resolve(s, path)
      case None => (s, -1)
      case Some(u) =>
        if u !in s.inodes then (s, -1)
        else
          var s1 := s.(inodes := s.inodes - {u});
          match Resolve(s, Parent(path))
          case None => (s1, -1)
          case Some(p) =>
            var key := Sub(p, Filename(path));
            if key !in s.keys then (s1, -1)
            else (s1.(keys := s.keys - {key}, entries := RemoveEntry(s.entries, p, Filename(path))), 0)
  }

  /**
   rename: the new key takes the parent of the old path and only the last name of the new one. Neither the
   existence of the target nor the parent of the new path is checked.
   */
  function Rename(s: Dirs, old_: Path, new_: Path): (Dirs, int) {
    match Resolve(s, old_)
    case None => (s, -1)
    case Some(u) =>
      var p := if old_ == [] then Some(0) else Resolve(s, Parent(old_));
      match p
      case None => (s, -1)
      case Some(p) =>
        var a, b := Sub(p, Filename(old_)), Sub(p, Filename(new_));
        if a !in s.keys then (s, -1)
        else
          (s.(keys := (s.keys - {a})[b := u],
              inodes := if u in s.inodes then s.inodes[u := s.inodes[u].(status := RENAMED)]
                        else s.inodes[u := Inode(0, 0, 0, RENAMED, "", 0)],
              entries := InsertEntry(RemoveEntry(s.entries, p, Filename(old_)), p, Filename(new_))), 0)
  }

  // ---------- the invariant ----------

  /** Keys lead from smaller to larger uuids that have been handed out, and no uuid has two keys. */
  ghost predicate Tree(keys: map<Key, nat>, counter: nat) {
    && (forall k :: k in keys ==> keys[k] <= counter && match k case Root => 0 < keys[k] case Sub(p, _) => p < keys[k])
    && (forall k, l :: k in keys && l in keys && keys[k] == keys[l] ==> k == l)
  }

  /** Every directory that has a key has an inode, and every inode carries its own uuid, which has been handed out. */
  ghost predicate InodesAgree(s: Dirs) {
    && (forall u :: u in s.inodes ==> 0 < u <= s.counter && s.inodes[u].uuid == u)
    && (forall k {:trigger s.keys[k]} :: k in s.keys ==> s.keys[k] in s.inodes)
  }

  /** The keys describe a tree, and the inodes go with it. */
  ghost predicate TreeInv(s: Dirs) {
    Tree(s.keys, s.counter) && InodesAgree(s)
  }

  ghost predicate NoDuplicates(list: seq<Name>) {
    forall i, j :: 0 <= i < j < |list| ==> list[i] != list[j]
  }

  /** The entry list of every uuid holds exactly the names keyed under it, each once. */
  ghost predicate EntriesAgree(s: Dirs) {
    forall p: nat :: NoDuplicates(EntriesOf(s, p)) && forall n :: n in EntriesOf(s, p) <==> Sub(p, n) in s.keys
  }

  /** No directory is called "/". */
  ghost predicate NoRootName(keys: map<Key, nat>) {
    forall p: nat :: Sub(p, "/") !in keys
  }

  /** Every name keyed under a uuid is in its entry list: what remove_entry relies on. */
  ghost predicate Listed(s: Dirs) {
    forall p: nat, n :: Sub(p, n) in s.keys ==> n in EntriesOf(s, p)
  }

  /** What every run keeps, whatever its paths and targets. */
  ghost predicate Sound(s: Dirs) {
    TreeInv(s) && Listed(s)
  }

  /**
   e' is e after remove_entry(p, name): the list begins with the other elements, is one shorter than before, and
   what remains is unspecified. Nothing remains exactly if the list held the name once.
   */
  ghost predicate Removed(e: map<nat, seq<Name>>, e': map<nat, seq<Name>>, p: nat, name: Name) {
    if p in e then
      && p in e' && e' == e[p := e'[p]]
      && |e'[p]| == |e[p]| - 1
      && Without(e[p], name) <= e'[p]
      && (e'[p] == Without(e[p], name) <==> multiset(e[p])[name] == 1)
    else e' == e
  }

  /** The name of the path is listed exactly once in its parent, or the parent has no list. */
  predicate ListedOnce(s: Dirs, path: Path) {
    && ParentUuid(s, path).Some?
    && (ParentUuid(s, path).value in s.entries ==>
          multiset(s.entries[ParentUuid(s, path).value])[Filename(path)] == 1)
  }

  /** The three stores agree and describe a tree. */
  ghost predicate Inv(s: Dirs) {
    TreeInv(s) && NoRootName(s.keys) && EntriesAgree(s)
  }

  // ---------- requests as the server carries them out ----------

  /** rmdir, with whatever its remove_entry leaves in the entry list. */
  ghost predicate RmdirStep(s: Dirs, path: Path, s': Dirs, r: int) {
    var (t, result) := Rmdir(s, path);
    && r == result
    && if r != 0 then s' == t else
         && Resolve(s, Parent(path)).Some? && s' == t.(entries := s'.entries)
         && Removed(s.entries, s'.entries, Resolve(s, Parent(path)).value, Filename(path))
  }

  /** The parent of a path, and "/" for "/" itself. */
  function ParentUuid(s: Dirs, path: Path): Option<nat> {
    if path == [] then Some(0) else Resolve(s, Parent(path))
  }

  /** rename likewise. */
  ghost predicate RenameStep(s: Dirs, old_: Path, new_: Path, s': Dirs, r: int) {
    var (t, result) := Rename(s, old_, new_);
    && r == result
    && if r != 0 then s' == t else
         && ParentUuid(s, old_).Some? && s' == t.(entries := s'.entries)
         && Replaced(s.entries, s'.entries, ParentUuid(s, old_).value, Filename(old_), Filename(new_))
  }

  /** e' is e after remove_entry(d, a) and insert_entry(d, b). */
  ghost predicate Replaced(e: map<nat, seq<Name>>, e': map<nat, seq<Name>>, d: nat, a: Name, b: Name) {
    exists e1 :: Removed(e, e1, d, a) && e' == InsertEntry(e1, d, b)
  }

  // ---------- resolution ----------

  lemma {:induction false} FollowConcat(keys: map<Key, nat>, from: nat, p: Path, q: Path)
    ensures Follow(keys, from, p + q) ==
            match Follow(keys, from, p) case Some(u) => Follow(keys, u, q) case None => None
    decreases |p|
  {
    if p == [] {
      assert p + q == q;
    } else {
      assert (p + q)[1..] == p[1..] + q;
      if Sub(from, p[0]) in keys { FollowConcat(keys, keys[Sub(from, p[0])], p[1..], q); }
    }
  }

  /** The last step of a resolution. */
  lemma FollowLast(keys: map<Key, nat>, from: nat, p: Path)
    requires p != []
    ensures Follow(keys, from, p) ==
            match Follow(keys, from, Parent(p))
            case Some(d) => if Sub(d, Filename(p)) in keys then Some(keys[Sub(d, Filename(p))]) else None
            case None => None
  {
    assert p == Parent(p) + [Filename(p)];
    FollowConcat(keys, from, Parent(p), [Filename(p)]);
    match Follow(keys, from, Parent(p)) {
      case Some(d) => assert [Filename(p)][1..] == [];
      case None =>
    }
  }

  /** Uuids only grow along a path. */
  lemma {:induction false} FollowGrows(keys: map<Key, nat>, counter: nat, from: nat, p: Path)
    requires Tree(keys, counter) && Follow(keys, from, p).Some?
    ensures Follow(keys, from, p).value >= from + |p|
    ensures p != [] ==> Follow(keys, from, p).value <= counter
    decreases |p|
  {
    if p != [] {
      FollowGrows(keys, counter, keys[Sub(from, p[0])], p[1..]);
    }
  }

  /** Distinct paths never resolve to the same uuid. */
  lemma {:induction false} ResolveInjective(keys: map<Key, nat>, counter: nat, p: Path, q: Path)
    requires Tree(keys, counter)
    requires Follow(keys, 0, p).Some? && Follow(keys, 0, p) == Follow(keys, 0, q)
    ensures p == q
    decreases |p|
  {
    FollowGrows(keys, counter, 0, p);
    FollowGrows(keys, counter, 0, q);
    if p == [] {
    } else {
      assert q != [];
      FollowLast(keys, 0, p);
      FollowLast(keys, 0, q);
      ResolveInjective(keys, counter, Parent(p), Parent(q));
      assert p == Parent(p) + [Filename(p)] && q == Parent(q) + [Filename(q)];
    }
  }

  /** keys' differs from keys only in entries of the directory d named a or b. */
  ghost predicate DifferAt(keys: map<Key, nat>, keys': map<Key, nat>, d: nat, names: set<Name>) {
    forall p: nat, n {:trigger Sub(p, n)} :: !(p == d && n in names) ==>
      (Sub(p, n) in keys <==> Sub(p, n) in keys') && (Sub(p, n) in keys ==> keys[Sub(p, n)] == keys'[Sub(p, n)])
  }

  /** Below a directory with a larger uuid than d, nothing changes. */
  lemma {:induction false} FollowAbove(keys: map<Key, nat>, counter: nat, keys': map<Key, nat>, d: nat,
                                       names: set<Name>, from: nat, p: Path)
    requires Tree(keys, counter) && DifferAt(keys, keys', d, names) && from > d
    ensures Follow(keys', from, p) == Follow(keys, from, p)
    decreases |p|
  {
    if p != [] && Sub(from, p[0]) in keys {
      FollowAbove(keys, counter, keys', d, names, keys[Sub(from, p[0])], p[1..]);
    }
  }

  /** The path goes through an entry of dir with one of the names. */
  ghost predicate Through(dir: Path, names: set<Name>, q: Path) {
    |dir| < |q| && q[..|dir|] == dir && q[|dir|] in names
  }

  lemma ThroughParent(dir: Path, names: set<Name>, q: Path)
    requires q != [] && !Through(dir, names, q)
    ensures !Through(dir, names, Parent(q))
    ensures Parent(q) == dir ==> Filename(q) !in names
  {
    if |dir| < |q| - 1 {
      assert Parent(q)[..|dir|] == q[..|dir|];
    }
    if Parent(q) == dir { assert q[..|dir|] == dir; }
  }

  /** A path that does not go through one of the changed entries resolves as before. */
  lemma {:induction false} FollowElsewhere(keys: map<Key, nat>, counter: nat, keys': map<Key, nat>, dir: Path, d: nat,
                                           names: set<Name>, q: Path)
    requires Tree(keys, counter) && DifferAt(keys, keys', d, names) && Follow(keys, 0, dir) == Some(d)
    requires !Through(dir, names, q)
    ensures Follow(keys', 0, q) == Follow(keys, 0, q)
    decreases |q|
  {
    if q != [] {
      hide Tree, Through;
      ThroughParent(dir, names, q);
      FollowElsewhere(keys, counter, keys', dir, d, names, Parent(q));
      FollowLast(keys, 0, q);
      FollowLast(keys', 0, q);
      if Follow(keys, 0, Parent(q)) == Some(d) {
        ResolveInjective(keys, counter, Parent(q), dir);
      }
    }
  }

  /** A path through a changed entry is the directory, the entry and a rest. */
  lemma ThroughSplit(dir: Path, n: Name, q: Path)
    requires Through(dir, {n}, q)
    ensures q == dir + [n] + q[|dir| + 1..]
  {
  }

  lemma PrefixThrough(dir: Path, a: Name, b: Name, q: Path)
    ensures dir + [a] <= q || dir + [b] <= q <==> Through(dir, {a, b}, q)
    ensures dir + [a] <= q <==> Through(dir, {a}, q)
  {
    if |dir| < |q| {
      assert q == q[..|dir|] + [q[|dir|]] + q[|dir| + 1..];
    }
  }

  lemma FollowThrough(keys: map<Key, nat>, dir: Path, d: nat, n: Name, rest: Path)
    requires Follow(keys, 0, dir) == Some(d)
    ensures Follow(keys, 0, dir + [n] + rest) == if Sub(d, n) in keys then Follow(keys, keys[Sub(d, n)], rest) else None
  {
    assert dir + [n] + rest == dir + ([n] + rest);
    FollowConcat(keys, 0, dir, [n] + rest);
    assert ([n] + rest)[1..] == rest;
  }

  // ---------- mkdir, rmdir and rename on paths ----------

  /**
   A successful mkdir makes exactly its own path resolve: to a fresh uuid with nothing below it, whatever was
   there before. A failed one changes no resolution.
   */
  lemma MkdirAddsOne(s: Dirs, path: Path, mode: int, uid: int, gid: int, q: Path)
    requires TreeInv(s)
    ensures var (s', r) := Mkdir(s, path, mode, uid, gid);
            Resolve(s', q) ==
              if r == 0 && path != [] && q == path then Some(s.counter + 1)
              else Resolve(s, q)
    ensures var (s', r) := Mkdir(s, path, mode, uid, gid);
            r == 0 && path != [] && path <= q ==> Resolve(s, q) == None && (q != path ==> Resolve(s', q) == None)
  {
    var (s', r) := Mkdir(s, path, mode, uid, gid);
    if r == 0 && path != [] {
      var dir, n := Parent(path), Filename(path);
      var d := Resolve(s, dir).value;
      assert path == dir + [n];
      FollowGrows(s.keys, s.counter, 0, dir);
      hide Tree;
      assert Follow(s'.keys, 0, dir) == Some(d) by {
        FollowElsewhere(s.keys, s.counter, s'.keys, dir, d, {n}, dir);
      }
      if Through(dir, {n}, q) {
        ThroughSplit(dir, n, q);
        var rest := q[|dir| + 1..];
        FollowThrough(s.keys, dir, d, n, rest);
        FollowThrough(s'.keys, dir, d, n, rest);
        if rest != [] { NothingBelowFresh(s, s', path, mode, uid, gid, rest); }
      } else {
        FollowElsewhere(s.keys, s.counter, s'.keys, dir, d, {n}, q);
        PrefixThrough(dir, n, n, q);
      }
    } else {
      RootKeyIrrelevant(s.keys, s'.keys, 0, q);
    }
  }

  /** What mkdir returns, and that it always consumes a uuid. */
  lemma MkdirOutcome(s: Dirs, path: Path, mode: int, uid: int, gid: int)
    ensures var (s', r) := Mkdir(s, path, mode, uid, gid);
            && s'.counter == s.counter + 1
            && r == (if path == [] then (if Root in s.keys then -1 else 0)
                     else if Resolve(s, Parent(path)).Some? && Resolve(s, path).None? then 0 else -1)
  {
    if path != [] { FollowLast(s.keys, 0, path); }
  }

  /** The new directory has the attributes it was made with; a failed mkdir and all other directories change none. */
  lemma MkdirInodes(s: Dirs, path: Path, mode: int, uid: int, gid: int)
    requires TreeInv(s)
    ensures var (s', r) := Mkdir(s, path, mode, uid, gid);
            if r != 0 then s'.inodes == s.inodes else
              var u := s.counter + 1;
              && u !in s.inodes && s'.inodes.Keys == s.inodes.Keys + {u}
              && (forall v :: v in s.inodes ==> s'.inodes[v] == s.inodes[v])
              && s'.inodes[u].mode == mode && s'.inodes[u].uid == uid && s'.inodes[u].gid == gid
              && s'.inodes[u].status == 0 && s'.inodes[u].oldName == Render(path) && s'.inodes[u].uuid == u
              && (path != [] ==> Resolve(s', path) == Some(u))
  {
    MkdirAddsOne(s, path, mode, uid, gid, path);
  }

  /** rmdir takes away the inode of the path, and no other. */
  lemma RmdirInodes(s: Dirs, path: Path)
    requires TreeInv(s)
    ensures var (s', r) := Rmdir(s, path);
            s'.inodes == if r == 0 then s.inodes - {Resolve(s, path).value} else s.inodes
  {
    RmdirOutcome(s, path);
  }

  /** rename marks the inode of the directory it moves, and changes nothing else in any. */
  lemma RenameInodes(s: Dirs, old_: Path, new_: Path)
    requires TreeInv(s) && old_ != []
    ensures var (s', r) := Rename(s, old_, new_);
            if r != 0 then s'.inodes == s.inodes else
              var u := Resolve(s, old_).value;
              && u in s.inodes && s'.inodes.Keys == s.inodes.Keys
              && (forall v :: v in s.inodes && v != u ==> s'.inodes[v] == s.inodes[v])
              && s'.inodes[u] == s.inodes[u].(status := 2)
  {
    RenameOutcome(s, old_, new_);
    if HasKey(s, old_) { RenameKeys(s, old_, new_); }
  }

  lemma NothingBelowFresh(s: Dirs, s': Dirs, path: Path, mode: int, uid: int, gid: int, rest: Path)
    requires TreeInv(s) && path != [] && Mkdir(s, path, mode, uid, gid) == (s', 0) && rest != []
    ensures Follow(s'.keys, s.counter + 1, rest) == None
  {
    FollowGrows(s.keys, s.counter, 0, Parent(path));
  }

  /** Resolution never looks at the key "/". */
  lemma {:induction false} RootKeyIrrelevant(keys: map<Key, nat>, keys': map<Key, nat>, from: nat, q: Path)
    requires forall p: nat, n {:trigger Sub(p, n)} ::
      (Sub(p, n) in keys <==> Sub(p, n) in keys') && (Sub(p, n) in keys ==> keys[Sub(p, n)] == keys'[Sub(p, n)])
    ensures Follow(keys', from, q) == Follow(keys, from, q)
    decreases |q|
  {
    if q != [] && Sub(from, q[0]) in keys { RootKeyIrrelevant(keys, keys', keys[Sub(from, q[0])], q[1..]); }
  }

  /** rmdir fails exactly on paths that do not resolve; on the root it returns 1. */
  lemma RmdirOutcome(s: Dirs, path: Path)
    requires TreeInv(s)
    ensures Rmdir(s, path).1 == if path == [] then 1 else if Resolve(s, path).Some? then 0 else -1
    ensures Rmdir(s, path).1 != 0 ==> Rmdir(s, path).0 == s
  {
    if path != [] { FollowLast(s.keys, 0, path); }
  }

  /** A successful rmdir makes exactly the paths at or below it unresolvable. */
  lemma RmdirRemovesSubtree(s: Dirs, path: Path, q: Path)
    requires TreeInv(s) && Rmdir(s, path).1 == 0
    ensures path != []
    ensures Resolve(Rmdir(s, path).0, q) == if path <= q then None else Resolve(s, q)
  {
    RmdirOutcome(s, path);
    FollowLast(s.keys, 0, path);
    var s' := Rmdir(s, path).0;
    var dir, n := Parent(path), Filename(path);
    var d := Resolve(s, dir).value;
    assert path == dir + [n];
    hide Tree;
    FollowElsewhere(s.keys, s.counter, s'.keys, dir, d, {n}, dir);
    if path <= q {
      assert q == dir + [n] + q[|path|..];
      FollowThrough(s'.keys, dir, d, n, q[|path|..]);
    } else {
      PrefixThrough(dir, n, n, q);
      FollowElsewhere(s.keys, s.counter, s'.keys, dir, d, {n}, q);
    }
  }

  /** rename finds a key for the old path. "/" has one only if some directory in the root is called "/". */
  predicate HasKey(s: Dirs, old_: Path) {
    if old_ == [] then Sub(0, "/") in s.keys else Resolve(s, old_).Some?
  }

  /** Which renames succeed; the others change nothing. */
  lemma RenameOutcome(s: Dirs, old_: Path, new_: Path)
    ensures Rename(s, old_, new_).1 == if HasKey(s, old_) then 0 else -1
    ensures Rename(s, old_, new_).1 != 0 ==> Rename(s, old_, new_).0 == s
  {
    if old_ != [] { FollowLast(s.keys, 0, old_); }
  }

  /** The keys after renaming a directory. */
  lemma RenameKeys(s: Dirs, old_: Path, new_: Path)
    requires old_ != [] && Resolve(s, old_).Some?
    ensures Resolve(s, Parent(old_)).Some?
    ensures var d, u, s' := Resolve(s, Parent(old_)).value, Resolve(s, old_).value, Rename(s, old_, new_).0;
            && Sub(d, Filename(old_)) in s.keys && s.keys[Sub(d, Filename(old_))] == u
            && s'.keys == (s.keys - {Sub(d, Filename(old_))})[Sub(d, Filename(new_)) := u] && s'.counter == s.counter
  {
    FollowLast(s.keys, 0, old_);
  }

  /**
   Renaming dir/a to the name b moves the whole subtree: below dir/b everything resolves as it did below dir/a,
   nothing at or below dir/a resolves any more, and all other paths are untouched. A directory that was called b
   is lost with all that was below it.
   */
  lemma RenameMovesSubtree(s: Dirs, dir: Path, a: Name, new_: Path, q: Path, rest: Path)
    requires TreeInv(s) && Resolve(s, dir + [a]).Some?
    ensures var b, s' := Filename(new_), Rename(s, dir + [a], new_).0;
            && Resolve(s', dir + [b] + rest) == Resolve(s, dir + [a] + rest)
            && (a != b ==> Resolve(s', dir + [a] + rest) == None)
            && (!(dir + [a] <= q) && !(dir + [b] <= q) ==> Resolve(s', q) == Resolve(s, q))
  {
    var b := Filename(new_);
    var path := dir + [a];
    assert Parent(path) == dir && Filename(path) == a;
    RenameKeys(s, path, new_);
    var d, u, s' := Resolve(s, dir).value, Resolve(s, path).value, Rename(s, path, new_).0;
    assert u > d;
    hide Tree, Rename;
    assert DifferAt(s.keys, s'.keys, d, {a, b});
    FollowElsewhere(s.keys, s.counter, s'.keys, dir, d, {a, b}, dir);
    FollowThrough(s'.keys, dir, d, b, rest);
    FollowThrough(s'.keys, dir, d, a, rest);
    FollowThrough(s.keys, dir, d, a, rest);
    FollowAbove(s.keys, s.counter, s'.keys, d, {a, b}, u, rest);
    if !(dir + [a] <= q) && !(dir + [b] <= q) {
      PrefixThrough(dir, a, b, q);
      FollowElsewhere(s.keys, s.counter, s'.keys, dir, d, {a, b}, q);
    }
  }

  /**
   rename puts the directory where it was asked to exactly when the new path has the same parent: the parent of
   the new path is ignored.
   */
  lemma RenameReachesTargetIff(s: Dirs, old_: Path, new_: Path)
    requires TreeInv(s) && old_ != [] && new_ != [] && Rename(s, old_, new_).1 == 0
    ensures Resolve(Rename(s, old_, new_).0, new_) == Resolve(s, old_) <==> Parent(new_) == Parent(old_)
  {
    hide TreeInv, Rename, Follow;
    RenameOutcome(s, old_, new_);
    RenameKeepsTreeIff(s, old_, new_);
    var s', dir, a, b := Rename(s, old_, new_).0, Parent(old_), Filename(old_), Filename(new_);
    assert old_ == dir + [a] && new_ == Parent(new_) + [b];
    RenameMovesSubtree(s, dir, a, new_, [], []);
    assert dir + [b] + [] == dir + [b] && dir + [a] + [] == old_;
    if Resolve(s', new_) == Resolve(s, old_) {
      ResolveInjective(s'.keys, s'.counter, new_, dir + [b]) by { assert TreeInv(s'); TreeOf(s'); }
      assert Parent(dir + [b]) == dir;
    }
  }

  lemma TreeOf(s: Dirs)
    requires TreeInv(s)
    ensures Tree(s.keys, s.counter)
  {
  }

  /**
   "/" as a new path is not refused. A directory renamed to it keeps its key under a name that no canonical path
   contains, so nothing at or below it is reachable any more. If it was directly in the root, and only then, a
   rename of "/" now succeeds: it puts the root into the root.
   */
  lemma RenamedToRoot(s: Dirs, old_: Path, q: Path, new_: Path)
    requires TreeInv(s) && NoRootName(s.keys) && old_ != [] && Resolve(s, old_).Some? && ProperPath(q)
    ensures var s' := Rename(s, old_, []).0;
            && Resolve(s', q) == (if old_ <= q then None else Resolve(s, q))
            && Resolve(s', q) != Resolve(s, old_)
            && (Rename(s', [], new_).1 == 0 <==> Parent(old_) == [])
            && (Parent(old_) == [] ==> Resolve(Rename(s', [], new_).0, [Filename(new_)]) == Some(0))
  {
    var s', dir, a := Rename(s, old_, []).0, Parent(old_), Filename(old_);
    assert old_ == dir + [a];
    RenameKeys(s, old_, []);
    RenameOutcome(s', [], new_);
    var d := Resolve(s, dir).value;
    SlashNotProper(dir, q);
    RenameMovesSubtree(s, dir, a, [], q, q[if |q| < |old_| then |q| else |old_|..]);
    if old_ <= q { assert q == dir + [a] + q[|old_|..]; }
    hide Rename;
    if Resolve(s, q) == Resolve(s, old_) { ResolveInjective(s.keys, s.counter, q, old_); }
    if d == 0 { ResolveInjective(s.keys, s.counter, dir, []); }
    if dir == [] { RenamedFromRoot(s', new_); }
  }

  lemma SlashNotProper(dir: Path, q: Path)
    requires ProperPath(q)
    ensures !(dir + ["/"] <= q)
  {
    if |dir| < |q| { assert ProperName(q[|dir|]); }
  }

  lemma ResolveInRoot(s: Dirs, n: Name)
    ensures Resolve(s, [n]) == if Sub(0, n) in s.keys then Some(s.keys[Sub(0, n)]) else None
  {
    assert Parent([n]) == [] && Filename([n]) == n;
    FollowLast(s.keys, 0, [n]);
  }

  lemma RenamedFromRoot(s: Dirs, new_: Path)
    requires Sub(0, "/") in s.keys
    ensures Resolve(Rename(s, [], new_).0, [Filename(new_)]) == Some(0) && !TreeInv(Rename(s, [], new_).0)
  {
    var s', b := Rename(s, [], new_).0, Filename(new_);
    assert Sub(0, b) in s'.keys && s'.keys[Sub(0, b)] == 0;
    ResolveInRoot(s', b);
  }

  // ---------- the tree over whole runs ----------

  lemma MkdirKeepsTree(s: Dirs, path: Path, mode: int, uid: int, gid: int)
    requires TreeInv(s)
    ensures TreeInv(Mkdir(s, path, mode, uid, gid).0)
  {
    if path != [] && Resolve(s, Parent(path)).Some? { FollowGrows(s.keys, s.counter, 0, Parent(path)); }
  }

  lemma RmdirKeepsTree(s: Dirs, path: Path)
    requires TreeInv(s)
    ensures TreeInv(Rmdir(s, path).0)
  {
    RmdirOutcome(s, path);
    if Rmdir(s, path).1 == 0 { FollowLast(s.keys, 0, path); }
  }

  /** A rename breaks the tree exactly if it is a rename of "/" that succeeds; an overwritten target does not. */
  lemma RenameKeepsTreeIff(s: Dirs, old_: Path, new_: Path)
    requires TreeInv(s)
    ensures TreeInv(Rename(s, old_, new_).0) <==> !(old_ == [] && HasKey(s, []))
  {
    RenameOutcome(s, old_, new_);
    if old_ == [] {
      if HasKey(s, []) { RenamedFromRoot(s, new_); }
    } else if HasKey(s, old_) {
      RenameKeys(s, old_, new_);
    }
  }

  // ---------- entry lists ----------

  lemma {:induction false} WithoutMember(list: seq<Name>, name: Name, n: Name)
    ensures n in Without(list, name) <==> n in list && n != name
    ensures NoDuplicates(list) ==> NoDuplicates(Without(list, name))
  {
    if list != [] {
      var front, last := list[..|list| - 1], list[|list| - 1];
      assert list == front + [last];
      WithoutMember(front, name, n);
      WithoutMember(front, name, last);
    }
  }

  /** std::remove keeps all elements but the occurrences of the name. */
  lemma {:induction false} WithoutCount(list: seq<Name>, name: Name)
    ensures |Without(list, name)| == |list| - multiset(list)[name]
  {
    if list != [] {
      WithoutCount(list[..|list| - 1], name);
      assert list == list[..|list| - 1] + [list[|list| - 1]];
    }
  }

  lemma {:induction false} ListedOnceAtMost(list: seq<Name>, name: Name)
    requires NoDuplicates(list)
    ensures multiset(list)[name] == if name in list then 1 else 0
  {
    if list != [] {
      ListedOnceAtMost(list[..|list| - 1], name);
      assert list == list[..|list| - 1] + [list[|list| - 1]];
    }
  }

  /** A removal loses no other name. */
  lemma RemovedKeeps(s: Dirs, s': Dirs, p: nat, name: Name, x: nat, n: Name)
    requires Removed(s.entries, s'.entries, p, name) && n in EntriesOf(s, x) && (x != p || n != name)
    ensures n in EntriesOf(s', x)
  {
    if x == p && p in s.entries { WithoutMember(s.entries[p], name, n); }
  }

  /** Where the three stores agree, every name that is keyed is listed once. */
  lemma AgreeListsOnce(s: Dirs, path: Path)
    requires EntriesAgree(s) && path != [] && Resolve(s, path).Some?
    ensures ListedOnce(s, path)
  {
    FollowLast(s.keys, 0, path);
    var d := Resolve(s, Parent(path)).value;
    assert Filename(path) in EntriesOf(s, d) && NoDuplicates(EntriesOf(s, d));
    ListedOnceAtMost(EntriesOf(s, d), Filename(path));
  }

  lemma InvSound(s: Dirs)
    requires Inv(s)
    ensures Sound(s)
  {
  }

  lemma MkdirKeepsSound(s: Dirs, path: Path, mode: int, uid: int, gid: int)
    requires Sound(s)
    ensures Sound(Mkdir(s, path, mode, uid, gid).0)
  {
    MkdirKeepsTree(s, path, mode, uid, gid);
    var (s', r) := Mkdir(s, path, mode, uid, gid);
    hide TreeInv;
    forall p: nat, n | Sub(p, n) in s'.keys
      ensures n in EntriesOf(s', p)
    {
      if r == 0 && path != [] {
        InsertEntriesOf(s, s', Resolve(s, Parent(path)).value, Filename(path), p);
      }
    }
  }

  lemma RmdirStepKeepsSound(s: Dirs, path: Path, s': Dirs, r: int)
    requires Sound(s) && RmdirStep(s, path, s', r)
    ensures Sound(s')
  {
    RmdirKeepsTree(s, path);
    RmdirOutcome(s, path);
    if r == 0 {
      FollowLast(s.keys, 0, path);
      var d, a := Resolve(s, Parent(path)).value, Filename(path);
      assert s'.keys == s.keys - {Sub(d, a)};
      assert Removed(s.entries, s'.entries, d, a);
      hide Rmdir, Removed;
      forall p: nat, n | Sub(p, n) in s'.keys
        ensures n in EntriesOf(s', p)
      {
        RemovedKeeps(s, s', d, a, p, n);
      }
    }
  }

  lemma ReplacedKeepsListed(s: Dirs, s': Dirs, d: nat, a: Name, b: Name, u: nat)
    requires Listed(s) && Replaced(s.entries, s'.entries, d, a, b)
    requires s'.keys == (s.keys - {Sub(d, a)})[Sub(d, b) := u]
    ensures Listed(s')
  {
    hide Removed, InsertEntry, EntriesOf;
    var e :| Removed(s.entries, e, d, a) && s'.entries == InsertEntry(e, d, b);
    var s1 := s.(entries := e);
    forall p: nat, n | Sub(p, n) in s'.keys
      ensures n in EntriesOf(s', p)
    {
      InsertEntriesOf(s1, s', d, b, p);
      if !(p == d && n == b) { RemovedKeeps(s, s1, d, a, p, n); }
    }
  }

  /** A rename keeps the state sound exactly if it is not a rename of "/" that succeeds. */
  lemma RenameStepKeepsSoundIff(s: Dirs, old_: Path, new_: Path, s': Dirs, r: int)
    requires Sound(s) && RenameStep(s, old_, new_, s', r)
    ensures Sound(s') <==> !(old_ == [] && HasKey(s, []))
  {
    hide Rename, Replaced, Tree, Listed;
    RenameKeepsTreeIff(s, old_, new_);
    RenameOutcome(s, old_, new_);
    if r == 0 && old_ != [] {
      RenameKeys(s, old_, new_);
      ReplacedKeepsListed(s, s', Resolve(s, Parent(old_)).value, Filename(old_), Filename(new_),
          Resolve(s, old_).value);
    }
  }

  /** rmdir leaves exactly the specified entry list behind exactly if the name was listed once. */
  lemma RmdirStepExactIff(s: Dirs, path: Path, s': Dirs)
    requires RmdirStep(s, path, s', 0)
    ensures s' == Rmdir(s, path).0 <==> ListedOnce(s, path)
  {
  }

  /** So does rename. */
  lemma RenameStepExactIff(s: Dirs, old_: Path, new_: Path, s': Dirs)
    requires RenameStep(s, old_, new_, s', 0)
    ensures s' == Rename(s, old_, new_).0 <==> ListedOnce(s, old_)
  {
    var d, a, b := ParentUuid(s, old_).value, Filename(old_), Filename(new_);
    var e :| Removed(s.entries, e, d, a) && s'.entries == InsertEntry(e, d, b);
    if d in s.entries {
      var l, l' := Without(s.entries[d], a) + [b], e[d] + [b];
      assert s'.entries[d] == l' && Rename(s, old_, new_).0.entries[d] == l;
      assert l == l' ==> Without(s.entries[d], a) == l[..|l| - 1] == e[d];
    }
  }

  /** Where the three stores agree, the requests do exactly what the specification says. */
  lemma StepsExact(s: Dirs, path: Path, new_: Path, s': Dirs, r: int)
    requires Inv(s)
    ensures RmdirStep(s, path, s', r) ==> s' == Rmdir(s, path).0
    ensures RenameStep(s, path, new_, s', r) ==> s' == Rename(s, path, new_).0
  {
    RmdirOutcome(s, path);
    RenameOutcome(s, path, new_);
    if path != [] && Resolve(s, path).Some? { AgreeListsOnce(s, path); }
    hide Rmdir, Rename, ListedOnce;
    if r == 0 && RmdirStep(s, path, s', r) { RmdirStepExactIff(s, path, s'); }
    if r == 0 && RenameStep(s, path, new_, s', r) { RenameStepExactIff(s, path, new_, s'); }
  }

  /** The inode of "/" as DMServer makes it: mode 0755, owner 0777. */
  lemma InitialRoot()
    ensures Initial().keys == map[Root := 1] && Initial().inodes == map[1 := Inode(493, 511, 511, 0, "/", 1)]
  {
  }

  /** The server's state at start-up: DMServer makes "/" first. */
  function Initial(): Dirs {
    Mkdir(EMPTY, [], 493, 511, 511).0
  }

  lemma InitialInv()
    ensures Inv(Initial())
  {
    assert forall p: nat :: EntriesOf(Initial(), p) == [];
  }

  // ---------- all three stores over whole runs ----------

  /** Entry lists after an insertion and a removal. */
  lemma InsertEntriesOf(s: Dirs, s': Dirs, p: nat, name: Name, x: nat)
    requires s'.entries == InsertEntry(s.entries, p, name)
    ensures EntriesOf(s', x) == if x == p then EntriesOf(s, x) + [name] else EntriesOf(s, x)
  {
  }

  lemma RemoveEntriesOf(s: Dirs, s': Dirs, p: nat, name: Name, x: nat)
    requires s'.entries == RemoveEntry(s.entries, p, name)
    ensures EntriesOf(s', x) == if x == p then Without(EntriesOf(s, x), name) else EntriesOf(s, x)
  {
  }

  lemma MkdirKeepsInv(s: Dirs, path: Path, mode: int, uid: int, gid: int)
    requires Inv(s) && (path != [] ==> Filename(path) != "/")
    ensures Inv(Mkdir(s, path, mode, uid, gid).0)
  {
    var (s', r) := Mkdir(s, path, mode, uid, gid);
    if r == 0 && path != [] {
      FollowGrows(s.keys, s.counter, 0, Parent(path));
      var d, n := Resolve(s, Parent(path)).value, Filename(path);
      forall p: nat
        ensures NoDuplicates(EntriesOf(s', p)) && forall m :: m in EntriesOf(s', p) <==> Sub(p, m) in s'.keys
      {
        InsertEntriesOf(s, s', d, n, p);
      }
    } else {
      assert forall p: nat :: EntriesOf(s', p) == EntriesOf(s, p);
    }
  }

  lemma RmdirKeepsInv(s: Dirs, path: Path)
    requires Inv(s)
    ensures Inv(Rmdir(s, path).0)
  {
    RmdirOutcome(s, path);
    var (s', r) := Rmdir(s, path);
    if r == 0 {
      FollowLast(s.keys, 0, path);
      var d, n := Resolve(s, Parent(path)).value, Filename(path);
      forall p: nat
        ensures NoDuplicates(EntriesOf(s', p)) && forall m :: m in EntriesOf(s', p) <==> Sub(p, m) in s'.keys
      {
        RemoveEntriesOf(s, s', d, n, p);
        forall m
          ensures p == d ==> (m in EntriesOf(s', p) <==> m in EntriesOf(s, p) && m != n)
          ensures p == d ==> NoDuplicates(EntriesOf(s', p))
        {
          if p == d { WithoutMember(EntriesOf(s, p), n, m); }
        }
      }
    }
  }

  /** The target of a rename is free: unused, or the old name itself. */
  ghost predicate TargetFree(s: Dirs, old_: Path, new_: Path)
    requires old_ != []
  {
    Filename(new_) == Filename(old_) || Resolve(s, Parent(old_) + [Filename(new_)]).None?
  }

  lemma RenameEntries(s: Dirs, old_: Path, new_: Path, p: nat, m: Name)
    requires Inv(s) && Rename(s, old_, new_).1 == 0
    ensures old_ != [] && Resolve(s, Parent(old_)).Some?
    ensures var s', d := Rename(s, old_, new_).0, Resolve(s, Parent(old_)).value;
            && EntriesOf(s', p)
                == (if p == d then Without(EntriesOf(s, p), Filename(old_)) + [Filename(new_)] else EntriesOf(s, p))
            && (p == d ==> NoDuplicates(Without(EntriesOf(s, p), Filename(old_))))
            && (p == d ==>
                  (m in Without(EntriesOf(s, p), Filename(old_)) <==> m in EntriesOf(s, p) && m != Filename(old_)))
  {
    RenameOutcome(s, old_, new_);
    FollowLast(s.keys, 0, old_);
    var s', d := Rename(s, old_, new_).0, Resolve(s, Parent(old_)).value;
    var s1 := s.(entries := RemoveEntry(s.entries, d, Filename(old_)));
    RemoveEntriesOf(s, s1, d, Filename(old_), p);
    InsertEntriesOf(s1, s', d, Filename(new_), p);
    if p == d { WithoutMember(EntriesOf(s, p), Filename(old_), m); }
  }

  /** TargetFree in terms of keys. */
  lemma TargetKey(s: Dirs, old_: Path, new_: Path)
    requires old_ != [] && Resolve(s, Parent(old_)).Some?
    ensures TargetFree(s, old_, new_) <==>
            Filename(new_) == Filename(old_) || Sub(Resolve(s, Parent(old_)).value, Filename(new_)) !in s.keys
  {
    var path := Parent(old_) + [Filename(new_)];
    assert Parent(path) == Parent(old_) && Filename(path) == Filename(new_);
    FollowLast(s.keys, 0, path);
  }

  lemma RenameFreeKeepsEntries(s: Dirs, old_: Path, new_: Path)
    requires Inv(s) && Rename(s, old_, new_).1 == 0 && old_ != [] && TargetFree(s, old_, new_)
    ensures EntriesAgree(Rename(s, old_, new_).0)
  {
    RenameOutcome(s, old_, new_);
    FollowLast(s.keys, 0, old_);
    TargetKey(s, old_, new_);
    var s' := Rename(s, old_, new_).0;
    var d, a, b, u := Resolve(s, Parent(old_)).value, Filename(old_), Filename(new_), Resolve(s, old_).value;
    assert s'.keys == (s.keys - {Sub(d, a)})[Sub(d, b) := u];
    hide Rename, Tree, TargetFree;
    forall p: nat
      ensures NoDuplicates(EntriesOf(s', p)) && forall m :: m in EntriesOf(s', p) <==> Sub(p, m) in s'.keys
    {
      RenameEntries(s, old_, new_, p, b);
      forall m ensures m in EntriesOf(s', p) <==> Sub(p, m) in s'.keys {
        RenameEntries(s, old_, new_, p, m);
      }
    }
  }

  lemma RenameTakenDuplicates(s: Dirs, old_: Path, new_: Path)
    requires Inv(s) && Rename(s, old_, new_).1 == 0 && old_ != [] && !TargetFree(s, old_, new_)
    ensures !EntriesAgree(Rename(s, old_, new_).0)
  {
    RenameOutcome(s, old_, new_);
    FollowLast(s.keys, 0, old_);
    TargetKey(s, old_, new_);
    var s' := Rename(s, old_, new_).0;
    var d, b := Resolve(s, Parent(old_)).value, Filename(new_);
    hide Rename, Tree, TargetFree;
    RenameEntries(s, old_, new_, d, b);
    var rest := Without(EntriesOf(s, d), Filename(old_));
    assert b in EntriesOf(s, d);
    var i :| 0 <= i < |rest| && rest[i] == b;
    assert EntriesOf(s', d)[i] == EntriesOf(s', d)[|rest|];
  }

  /**
   A successful rename keeps the three stores in agreement exactly when its target was free and the new path is
   not "/".
   */
  lemma RenameKeepsInvIff(s: Dirs, old_: Path, new_: Path)
    requires Inv(s) && Rename(s, old_, new_).1 == 0
    ensures old_ != []
    ensures Inv(Rename(s, old_, new_).0) <==> Filename(new_) != "/" && TargetFree(s, old_, new_)
    ensures ProperPath(new_) ==> (Inv(Rename(s, old_, new_).0) <==> new_ != [] && TargetFree(s, old_, new_))
  {
    RenameOutcome(s, old_, new_);
    RenameKeepsTreeIff(s, old_, new_);
    RenameKeys(s, old_, new_);
    if TargetFree(s, old_, new_) {
      RenameFreeKeepsEntries(s, old_, new_);
    } else {
      RenameTakenDuplicates(s, old_, new_);
    }
    assert ProperPath(new_) && new_ != [] ==> ProperName(Filename(new_));
    hide TargetFree, TreeInv, EntriesAgree, Rename;
    if Filename(new_) == "/" {
      assert Sub(Resolve(s, Parent(old_)).value, "/") in Rename(s, old_, new_).0.keys;
    }
  }

  // ---------- directories without subdirectories ----------

  /** The path does not resolve, or nothing is keyed under the directory. */
  ghost predicate Childless(s: Dirs, p: Path) {
    Resolve(s, p).Some? ==> forall n :: Sub(Resolve(s, p).value, n) !in s.keys
  }

  /** An empty listing means just that; where the three stores agree, the converse holds as well. */
  lemma ChildlessIfUnlisted(s: Dirs, p: Path)
    requires Sound(s) && Resolve(s, p).Some?
    ensures EntriesOf(s, Resolve(s, p).value) == [] ==> Childless(s, p)
    ensures EntriesAgree(s) && Childless(s, p) ==> EntriesOf(s, Resolve(s, p).value) == []
  {
    var d := Resolve(s, p).value;
    if EntriesAgree(s) && EntriesOf(s, d) != [] {
      assert EntriesOf(s, d)[0] in EntriesOf(s, d);
    }
  }

  /** Below such a directory, nothing resolves. */
  lemma NothingBelow(s: Dirs, p: Path, q: Path)
    requires Resolve(s, p).Some? && Childless(s, p)
    ensures p <= q && q != p ==> Resolve(s, q) == None
  {
    if p <= q && q != p {
      var d, n, rest := Resolve(s, p).value, q[|p|], q[|p| + 1..];
      assert q == p + [n] + rest;
      FollowThrough(s.keys, p, d, n, rest);
      assert Sub(d, n) !in s.keys;
    }
  }

  // ---------- what requests see of a state ----------

  /** The states differ in their entry lists at most. */
  predicate SameTree(s: Dirs, t: Dirs) {
    s.keys == t.keys && s.inodes == t.inodes && s.counter == t.counter
  }

  /** Entry lists have no influence on mkdir, */
  lemma SameTreeMkdir(s: Dirs, t: Dirs, path: Path, mode: int, uid: int, gid: int)
    requires SameTree(s, t)
    ensures SameTree(Mkdir(s, path, mode, uid, gid).0, Mkdir(t, path, mode, uid, gid).0)
  {
    hide Follow;
    assert MkdirKey(s, path) == MkdirKey(t, path);
  }

  /** nor on rmdir, */
  lemma SameTreeRmdir(s: Dirs, t: Dirs, path: Path)
    requires SameTree(s, t)
    ensures SameTree(Rmdir(s, path).0, Rmdir(t, path).0)
  {
    hide Follow;
    assert Resolve(s, path) == Resolve(t, path);
    if path != [] { assert Resolve(s, Parent(path)) == Resolve(t, Parent(path)); }
  }

  /** and what a removal leaves in them changes nothing else. */
  lemma SameTreeStep(s: Dirs, path: Path, s': Dirs, r: int)
    requires RmdirStep(s, path, s', r)
    ensures SameTree(s', Rmdir(s, path).0)
  {
    hide Rmdir, Removed, Resolve;
  }
}
