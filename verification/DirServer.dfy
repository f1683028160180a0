/**
 DMStore and EntryList (src/fs/DMStore.cpp, src/fs/EntryList.cpp) over text-keyed stores, proved to compute the
 name space operations of module Namespace.
 */
module DirServer {
  import opened Options
  import opened PathText
  import opened Namespace

  // ---------- text-keyed stores ----------

  function Same<T>(x: T): T { x }

  /** A store whose keys and values are the texts of those of view. */
  ghost predicate Coded<K(!new), V, W>(text: map<string, W>, view: map<K, V>, name: K -> string, code: V -> W) {
    && (forall k :: k in view ==> name(k) in text && text[name(k)] == code(view[k]))
    && (forall t :: t in text ==> exists k :: k in view && name(k) == t)
  }

  ghost predicate Injective<K(!new)>(name: K -> string) {
    forall k, l :: name(k) == name(l) ==> k == l
  }

  lemma CodedIn<K(!new), V, W>(text: map<string, W>, view: map<K, V>, name: K -> string, code: V -> W, k: K)
    requires Coded(text, view, name, code) && Injective(name)
    ensures name(k) in text <==> k in view
    ensures k in view ==> text[name(k)] == code(view[k])
  {
  }

  lemma CodedSet<K(!new), V, W>(text: map<string, W>, view: map<K, V>, name: K -> string, code: V -> W, k: K, v: V)
    requires Coded(text, view, name, code) && Injective(name)
    ensures Coded(text[name(k) := code(v)], view[k := v], name, code)
  {
    var text', view' := text[name(k) := code(v)], view[k := v];
    forall t | t in text'
      ensures exists l :: l in view' && name(l) == t
    {
      if t == name(k) {
        assert k in view';
      } else {
        var l :| l in view && name(l) == t;
        assert l in view';
      }
    }
  }

  lemma CodedRemove<K(!new), V, W>(text: map<string, W>, view: map<K, V>, name: K -> string, code: V -> W, k: K)
    requires Coded(text, view, name, code) && Injective(name)
    ensures Coded(text - {name(k)}, view - {k}, name, code)
  {
    forall t | t in text - {name(k)}
      ensures exists l :: l in view - {k} && name(l) == t
    {
      var l :| l in view && name(l) == t;
      assert l in view - {k};
    }
  }

  lemma TextsInjective()
    ensures Injective(KeyText) && Injective(Dec)
  {
    forall k, l | KeyText(k) == KeyText(l) ensures k == l { KeyTextInjective(k, l); }
    forall m, n | Dec(m) == Dec(n) ensures m == n { DecInjective(m, n); }
  }

  // ---------- EntryList ----------

  class EntryList {
    var entry: map<string, seq<Name>>

    constructor ()
      ensures entry == map[]
    {
      entry := map[];
    }

    method InsertEntry(uuid: string, name: Name)
      modifies this
      ensures entry == old(entry)[uuid := (if uuid in old(entry) then old(entry)[uuid] else []) + [name]]
    {
      if uuid in entry {
        entry := entry[uuid := entry[uuid] + [name]];
      } else {
        assert [] + [name] == [name];
        entry := entry[uuid := [name]];
      }
    }

    /**
     remove_entry: std::remove moves the elements it keeps to the front and leaves unspecified strings behind, then
     the one element at its return value is erased. On a list without the name that would erase past the end.
     */
    method RemoveEntry(uuid: string, name: Name)
      requires uuid in entry ==> name in entry[uuid]
      modifies this
      ensures uuid !in old(entry) ==> entry == old(entry)
      ensures uuid in old(entry) ==> uuid in entry && entry == old(entry)[uuid := entry[uuid]]
      ensures uuid in old(entry) ==>
        var v, w := old(entry)[uuid], entry[uuid];
        |w| == |v| - 1 && Without(v, name) <= w && (w == Without(v, name) <==> multiset(v)[name] == 1)
    {
      if uuid in entry {
        var v := entry[uuid];
        var w, result := v, 0;
        for i := 0 to |v|
          invariant 0 <= result <= i && |w| == |v|
          invariant w[..result] == Without(v[..i], name) && w[i..] == v[i..]
        {
          assert w[i] == w[i..][0] == v[i] && w[i + 1..] == w[i..][1..] == v[i + 1..];
          assert v[..i + 1][..i] == v[..i];
          if w[i] != name {
            w := w[result := w[i]];
            result := result + 1;
          }
        }
        assert v[..|v|] == v;
        ghost var kept := Without(v[..|v|], name);
        assert w[..result] == kept;
        WithoutCount(v, name);
        for i := result to |v|
          invariant |w| == |v| && w[..result] == kept
        {
          var movedFrom: Name := *;
          w := w[i := movedFrom];
        }
        w := w[..result] + w[result + 1..];
        assert w[..result] == kept;
        entry := entry[uuid := w];
      }
    }

    /** readdir: the names, separated by tabs. */
    function Readdir(uuid: string): string
      reads this
    {
      if uuid in entry then Join(entry[uuid]) else ""
    }
  }

  // ---------- DMStore ----------

  class DMStore {
    var dmStore: map<string, Inode>
    var uuidStore: map<string, string>
    const ecStore: EntryList
    var uuidCounter: nat
    ghost var view: Dirs

    /** The text stores represent the view. */
    ghost predicate Represents()
      reads this, ecStore
    {
      && Coded(uuidStore, view.keys, KeyText, Dec)
      && Coded(dmStore, view.inodes, Dec, Same)
      && Coded(ecStore.entry, view.entries, Dec, Same)
      && uuidCounter == view.counter
    }

    ghost predicate Valid()
      reads this, ecStore
    {
      Represents() && Sound(view)
    }

    ghost predicate KeysCoded()
      reads this
    {
      Coded(uuidStore, view.keys, KeyText, Dec)
    }

    /** The empty store; the server goes on to make "/". */
    constructor ()
      ensures Valid() && Inv(view) && view == EMPTY && fresh(ecStore)
    {
      dmStore, uuidStore, uuidCounter := map[], map[], 0;
      ecStore := new EntryList();
      view := EMPTY;
      new;
      EmptyInv();
    }

    static lemma EmptyInv()
      ensures Inv(EMPTY)
    {
      assert forall p: nat :: EntriesOf(EMPTY, p) == [];
    }

    /** get_uuid, on any text. */
    method GetUuid(path: string) returns (r: int, uuid: string)
      requires KeysCoded()
      ensures match Resolve(view, Components(path))
              case Some(u) => r == 0 && uuid == Dec(u)
              case None => r == -1
    {
      TextsInjective();
      var vbuf := if path != "" then Split('/', path) else [];
      uuid := "";
      if path == "/" { return 0, "0"; }
      var value := "0";
      ghost var u: nat := 0;
      assert Dec(0) == "0";
      var i := 1;
      while i < |vbuf|
        invariant 1 <= i && (i <= |vbuf| || vbuf == [])
        invariant value == Dec(u)
        invariant Resolve(view, Components(path)) == Follow(view.keys, u, if vbuf == [] then [] else vbuf[i..])
      {
        var key := value + ":" + vbuf[i];
        assert vbuf[i..][0] == vbuf[i] && vbuf[i..][1..] == vbuf[i + 1..];
        CodedIn(uuidStore, view.keys, KeyText, Dec, Sub(u, vbuf[i]));
        if key !in uuidStore { return -1, uuid; }
        value := uuidStore[key];
        u := view.keys[Sub(u, vbuf[i])];
        i := i + 1;
      }
      return 0, value;
    }

    /** get_2_uuid: the uuid of the path and that of its parent. */
    method Get2Uuid(path: string) returns (r: int, puuid: string, uuid: string)
      requires KeysCoded()
      ensures match Resolve(view, Components(path))
              case None => r == -1
              case Some(u) =>
                && r == 0 && uuid == Dec(u)
                && if Components(path) == [] then puuid == "0"
                   else
                     && Resolve(view, Parent(Components(path))).Some?
                     && puuid == Dec(Resolve(view, Parent(Components(path))).value)
    {
      hide Split, Coded, Injective;
      TextsInjective();
      var vbuf := if path != "" then Split('/', path) else [];
      puuid, uuid := "0", "0";
      assert Dec(0) == "0";
      if path == "/" { return 0, puuid, uuid; }
      ghost var c := Components(path);
      ghost var p: nat, u: nat := 0, 0;
      var i := 1;
      while i < |vbuf|
        invariant 1 <= i && (i <= |vbuf| || vbuf == [])
        invariant c == (if vbuf == [] then [] else vbuf[1..]) && i - 1 <= |c|
        invariant uuid == Dec(u) && Follow(view.keys, 0, c[..i - 1]) == Some(u)
        invariant if i == 1 then puuid == "0" else puuid == Dec(p) && Follow(view.keys, 0, c[..i - 2]) == Some(p)
      {
        puuid, p := uuid, u;
        var key := uuid + ":" + vbuf[i];
        FollowStep(view.keys, c, i - 1, u);
        CodedIn(uuidStore, view.keys, KeyText, Dec, Sub(u, c[i - 1]));
        if key !in uuidStore { return -1, puuid, uuid; }
        uuid := uuidStore[key];
        u := view.keys[Sub(u, vbuf[i])];
        i := i + 1;
      }
      assert c[..|c|] == c;
      return 0, puuid, uuid;
    }

    static lemma FollowStep(keys: map<Key, nat>, c: Path, i: nat, u: nat)
      requires i < |c| && Follow(keys, 0, c[..i]) == Some(u)
      ensures Sub(u, c[i]) in keys ==> Follow(keys, 0, c[..i + 1]) == Some(keys[Sub(u, c[i])])
      ensures Sub(u, c[i]) !in keys ==> Follow(keys, 0, c) == None
    {
      var q := c[..i + 1];
      assert Parent(q) == c[..i] && Filename(q) == c[i];
      FollowLast(keys, 0, q);
      assert c == q + c[i + 1..];
      FollowConcat(keys, 0, q, c[i + 1..]);
    }

    // ---------- operations ----------

    static lemma PathIsRoot(p: Path)
      requires ProperPath(p)
      ensures Render(p) == "/" <==> p == []
      ensures Components(Render(p)) == p
      ensures FilenameOf(Render(p)) == Filename(p)
      ensures p != [] ==> ProperPath(Parent(p)) && Filename(p) != "/" && Components(ParentPath(Render(p))) == Parent(p)
    {
      ComponentsRender(p);
      if p != [] {
        RenderParent(p);
        ComponentsRender(Parent(p));
        assert ProperName(p[|p| - 1]);
      }
    }

    method InsertEntryFor(ghost entries: map<nat, seq<Name>>, ghost d: nat, puuid: string, name: Name)
      requires Coded(ecStore.entry, entries, Dec, Same) && puuid == Dec(d)
      modifies ecStore
      ensures Coded(ecStore.entry, InsertEntry(entries, d, name), Dec, Same)
    {
      hide Coded, Injective;
      TextsInjective();
      CodedIn(ecStore.entry, entries, Dec, Same, d);
      CodedSet(ecStore.entry, entries, Dec, Same, d, (if d in entries then entries[d] else []) + [name]);
      ecStore.InsertEntry(puuid, name);
    }

    method RemoveEntryFor(ghost entries: map<nat, seq<Name>>, ghost d: nat, puuid: string, name: Name)
      returns (ghost left: map<nat, seq<Name>>)
      requires Coded(ecStore.entry, entries, Dec, Same) && puuid == Dec(d)
      requires d in entries ==> name in entries[d]
      modifies ecStore
      ensures Coded(ecStore.entry, left, Dec, Same) && Removed(entries, left, d, name)
    {
      hide Coded, Injective;
      TextsInjective();
      CodedIn(ecStore.entry, entries, Dec, Same, d);
      ghost var before := ecStore.entry;
      ecStore.RemoveEntry(puuid, name);
      left := entries;
      if d in entries {
        left := entries[d := ecStore.entry[puuid]];
        CodedSet(before, entries, Dec, Same, d, ecStore.entry[puuid]);
      }
    }

    /** mkdir on a canonical path. */
    method Mkdir(path: string, ghost p: Path, mode: int, uid: int, gid: int) returns (r: int)
      requires Valid() && ProperPath(p) && path == Render(p)
      modifies this`dmStore, this`uuidStore, this`uuidCounter, this`view, ecStore
      ensures Valid()
      ensures (view, r) == Namespace.Mkdir(old(view), p, mode, uid, gid)
      ensures r == 0 ==>
        var inode := view.inodes[old(view).counter + 1];
        && inode.mode == mode && inode.uid == uid && inode.gid == gid && inode.status == 0 && inode.oldName == path
      ensures r == 0 && p != [] ==> Resolve(view, p) == Some(old(view).counter + 1)
    {
      hide TreeInv, Sound, Coded, Namespace.Mkdir, Resolve, Render, ProperPath;
      assert TreeInv(view) by { SoundTree(view); }
      MkdirInodes(view, p, mode, uid, gid);
      r := MakeDirectory(path, p, mode, uid, gid);
    }

    static lemma SoundTree(s: Dirs)
      requires Sound(s)
      ensures TreeInv(s)
    {
    }

    /** mkdir, as a value-level mkdir. */
    method MakeDirectory(path: string, ghost p: Path, mode: int, uid: int, gid: int) returns (r: int)
      requires Valid() && ProperPath(p) && path == Render(p)
      modifies this`dmStore, this`uuidStore, this`uuidCounter, this`view, ecStore
      ensures Valid()
      ensures (view, r) == Namespace.Mkdir(old(view), p, mode, uid, gid)
    {
      hide Sound, Coded, Components, Split, InsertEntry, Resolve, Filename, Parent;
      PathIsRoot(p);
      MkdirKeepsSound(view, p, mode, uid, gid);
      ghost var s := view;
      uuidCounter := uuidCounter + 1;
      var thisUuid := uuidCounter;
      var keyUuid: string;
      var puuid := "";
      ghost var key := Root;
      if path == "/" {
        keyUuid := "/";
      } else {
        r, puuid := GetUuid(ParentPath(path));
        if r < 0 {
          view := Namespace.Mkdir(s, p, mode, uid, gid).0;
          return -1;
        }
        key := Sub(Resolve(s, Parent(p)).value, Filename(p));
        keyUuid := puuid + ":" + FilenameOf(path);
      }
      r := AddDirectory(key, keyUuid, puuid, thisUuid, Inode(mode, uid, gid, ON_USE, path, thisUuid), p);
    }

    /** The stores after a new directory. */
    static ghost function Added(s: Dirs, key: Key, u: nat, inode: Inode): Dirs {
      s.(keys := s.keys[key := u], inodes := s.inodes[u := inode],
         entries := if key.Root? then s.entries else InsertEntry(s.entries, key.parent, key.name), counter := u)
    }

    /** mkdir after its key and uuid have been determined. */
    method AddDirectory(ghost key: Key, keyUuid: string, puuid: string, thisUuid: nat, inode: Inode, ghost p: Path)
      returns (r: int)
      requires Coded(uuidStore, view.keys, KeyText, Dec) && Coded(dmStore, view.inodes, Dec, Same)
      requires Coded(ecStore.entry, view.entries, Dec, Same) && uuidCounter == thisUuid
      requires keyUuid == KeyText(key) && ProperPath(p) && inode.oldName == Render(p) && (key.Root? <==> p == [])
      requires key.Sub? ==> puuid == Dec(key.parent) && key.name == Filename(p)
      modifies this`dmStore, this`uuidStore, this`view, ecStore
      ensures Represents()
      ensures if key in old(view).keys then view == old(view).(counter := thisUuid) && r == -1
              else view == Added(old(view), key, thisUuid, inode) && r == 0
    {
      hide Coded, Injective, Components, Split, InsertEntry;
      TextsInjective();
      PathIsRoot(p);
      ghost var s := view;
      CodedIn(uuidStore, s.keys, KeyText, Dec, key);
      if keyUuid in uuidStore {
        view := s.(counter := thisUuid);
        return -1;
      }
      CodedSet(uuidStore, s.keys, KeyText, Dec, key, thisUuid);
      uuidStore := uuidStore[keyUuid := Dec(thisUuid)];
      CodedSet(dmStore, s.inodes, Dec, Same, thisUuid, inode);
      dmStore := dmStore[Dec(thisUuid) := inode];
      if inode.oldName != "/" {
        InsertEntryFor(s.entries, key.parent, puuid, FilenameOf(inode.oldName));
      }
      view := Added(s, key, thisUuid, inode);
      return 0;
    }

    /** A successful rmdir, spelled out. */
    static lemma RmdirForm(s: Dirs, p: Path)
      requires Sound(s) && p != [] && Resolve(s, p).Some?
      ensures Resolve(s, Parent(p)).Some?
      ensures var d, u, t := Resolve(s, Parent(p)).value, Resolve(s, p).value, Namespace.Rmdir(s, p).0;
              && Namespace.Rmdir(s, p).1 == 0 && Sub(d, Filename(p)) in s.keys && u in s.inodes
              && (d in s.entries ==> Filename(p) in s.entries[d])
              && t.keys == s.keys - {Sub(d, Filename(p))} && t.inodes == s.inodes - {u} && t.counter == s.counter
    {
      RmdirOutcome(s, p);
      FollowLast(s.keys, 0, p);
      assert Filename(p) in EntriesOf(s, Resolve(s, Parent(p)).value);
    }

    method RemoveInode(uuid: string, ghost inodes: map<nat, Inode>, ghost u: nat) returns (ok: bool)
      requires Coded(dmStore, inodes, Dec, Same) && uuid == Dec(u)
      modifies this`dmStore
      ensures ok == (u in inodes) && Coded(dmStore, inodes - {u}, Dec, Same)
    {
      hide Coded, Injective;
      TextsInjective();
      CodedIn(dmStore, inodes, Dec, Same, u);
      CodedRemove(dmStore, inodes, Dec, Same, u);
      ok := uuid in dmStore;
      dmStore := dmStore - {uuid};
    }

    method RemoveKey(keyUuid: string, ghost keys: map<Key, nat>, ghost k: Key) returns (ok: bool)
      requires Coded(uuidStore, keys, KeyText, Dec) && keyUuid == KeyText(k)
      modifies this`uuidStore
      ensures ok == (k in keys) && Coded(uuidStore, keys - {k}, KeyText, Dec)
    {
      hide Coded, Injective;
      TextsInjective();
      CodedIn(uuidStore, keys, KeyText, Dec, k);
      CodedRemove(uuidStore, keys, KeyText, Dec, k);
      ok := keyUuid in uuidStore;
      uuidStore := uuidStore - {keyUuid};
    }

    /** rmdir on a canonical path. */
    method Rmdir(path: string, ghost p: Path) returns (r: int)
      requires Valid() && ProperPath(p) && path == Render(p)
      modifies this`dmStore, this`uuidStore, this`view, ecStore
      ensures Valid() && RmdirStep(old(view), p, view, r)
      ensures r == 0 ==> (view == Namespace.Rmdir(old(view), p).0 <==> ListedOnce(old(view), p))
      ensures Inv(old(view)) ==> Inv(view) && view == Namespace.Rmdir(old(view), p).0
    {
      hide Coded, Components, Split, Sound, Inv, Resolve, Namespace.Rmdir, Filename, Parent, RmdirStep, ListedOnce;
      PathIsRoot(p);
      ghost var s := view;
      RmdirRefused(s, p);
      if Inv(s) { RmdirKeepsInv(s, p); }
      if path == "/" { return 1; }
      var puuid, uuid;
      r, puuid, uuid := Get2Uuid(path);
      if r < 0 { return -1; }
      r := RemoveDirectory(p, puuid, uuid, FilenameOf(path));
      RmdirStepExactIff(s, p, view);
      if Inv(s) { StepsExact(s, p, [], view, r); }
    }

    static lemma RmdirRefused(s: Dirs, p: Path)
      requires Sound(s)
      ensures p == [] ==> RmdirStep(s, p, s, 1) && Namespace.Rmdir(s, p).0 == s
      ensures p != [] && Resolve(s, p).None? ==> RmdirStep(s, p, s, -1) && Namespace.Rmdir(s, p).0 == s
    {
      RmdirOutcome(s, p);
    }

    /** rmdir after the uuids have been found: neither store can lack its entry. */
    method RemoveDirectory(ghost p: Path, puuid: string, uuid: string, name: Name) returns (r: int)
      requires Valid() && p != [] && Resolve(view, p).Some? && Resolve(view, Parent(p)).Some?
      requires puuid == Dec(Resolve(view, Parent(p)).value) && uuid == Dec(Resolve(view, p).value)
               && name == Filename(p)
      modifies this`dmStore, this`uuidStore, this`view, ecStore
      ensures Valid() && r == 0 && RmdirStep(old(view), p, view, r)
    {
      hide Coded, Removed, Sound, Resolve, Namespace.Rmdir, Filename, Parent;
      ghost var s, t := view, Namespace.Rmdir(view, p).0;
      ghost var d, u := Resolve(s, Parent(p)).value, Resolve(s, p).value;
      RmdirForm(s, p);
      var found := RemoveInode(uuid, s.inodes, u);
      if !found { return -1; }
      found := RemoveKey(puuid + ":" + name, s.keys, Sub(d, name));
      if !found { return -1; }
      ghost var left := RemoveEntryFor(s.entries, d, puuid, name);
      view := t.(entries := left);
      assert RmdirStep(s, p, view, 0);
      RmdirStepKeepsSound(s, p, view, 0);
      return 0;
    }

    /** The keys after a rename. */
    static ghost function Rekeyed(keys: map<Key, nat>, a: Key, b: Key, u: nat): map<Key, nat> {
      if a in keys then (keys - {a})[b := u] else keys
    }

    /** The inodes after a rename. */
    static ghost function Marked(inodes: map<nat, Inode>, u: nat): map<nat, Inode> {
      inodes[u := (if u in inodes then inodes[u] else Inode(0, 0, 0, ON_USE, "", 0)).(status := RENAMED)]
    }

    /** A rename, spelled out. */
    static lemma RenameForm(s: Dirs, p: Path, q: Path, d: nat, u: nat)
      requires Sound(s) && Resolve(s, p) == Some(u) && ParentUuid(s, p) == Some(d)
      ensures Sub(d, Filename(p)) in s.keys <==> HasKey(s, p)
      ensures var (t, r) := Namespace.Rename(s, p, q);
              if HasKey(s, p) then
                && r == 0 && t.inodes == Marked(s.inodes, u) && t.counter == s.counter
                && t.keys == Rekeyed(s.keys, Sub(d, Filename(p)), Sub(d, Filename(q)), u)
                && (d in s.entries ==> Filename(p) in s.entries[d])
              else t == s && r == -1 && Rekeyed(s.keys, Sub(d, Filename(p)), Sub(d, Filename(q)), u) == s.keys
    {
      RenameOutcome(s, p, q);
      if p != [] { FollowLast(s.keys, 0, p); }
      if HasKey(s, p) { assert Filename(p) in EntriesOf(s, d); }
    }

    /** The key update of rename: -1 if there is no old key. */
    method MoveKey(oldKeyUuid: string, newKeyUuid: string, uuid: string, ghost keys: map<Key, nat>, ghost a: Key,
                   ghost b: Key, ghost u: nat)
      returns (r: int)
      requires Coded(uuidStore, keys, KeyText, Dec)
      requires oldKeyUuid == KeyText(a) && newKeyUuid == KeyText(b) && uuid == Dec(u)
      modifies this`uuidStore
      ensures r == if a in keys then 0 else -1
      ensures Coded(uuidStore, Rekeyed(keys, a, b, u), KeyText, Dec)
    {
      hide Coded, Injective;
      TextsInjective();
      CodedIn(uuidStore, keys, KeyText, Dec, a);
      if oldKeyUuid !in uuidStore { return -1; }
      CodedRemove(uuidStore, keys, KeyText, Dec, a);
      uuidStore := uuidStore - {oldKeyUuid};
      CodedSet(uuidStore, keys - {a}, KeyText, Dec, b, u);
      uuidStore := uuidStore[newKeyUuid := uuid];
      return 0;
    }

    /** The inode update of rename. Without an inode, a new one is stored; its other fields are unspecified. */
    method MarkRenamed(uuid: string, ghost inodes: map<nat, Inode>, ghost u: nat)
      requires Coded(dmStore, inodes, Dec, Same) && uuid == Dec(u)
      modifies this`dmStore
      ensures Coded(dmStore, Marked(inodes, u), Dec, Same)
    {
      hide Coded, Injective;
      TextsInjective();
      CodedIn(dmStore, inodes, Dec, Same, u);
      var inode := if uuid in dmStore then dmStore[uuid] else Inode(0, 0, 0, ON_USE, "", 0);
      inode := inode.(status := RENAMED);
      CodedSet(dmStore, inodes, Dec, Same, u, inode);
      dmStore := dmStore[uuid := inode];
    }

    /** The entry update of rename. */
    method MoveEntry(ghost entries: map<nat, seq<Name>>, ghost d: nat, puuid: string, oldName: Name, newName: Name)
      returns (ghost moved: map<nat, seq<Name>>)
      requires Coded(ecStore.entry, entries, Dec, Same) && puuid == Dec(d)
      requires d in entries ==> oldName in entries[d]
      modifies ecStore
      ensures Coded(ecStore.entry, moved, Dec, Same) && Replaced(entries, moved, d, oldName, newName)
    {
      hide Coded, Removed, InsertEntry;
      ghost var left := RemoveEntryFor(entries, d, puuid, oldName);
      InsertEntryFor(left, d, puuid, newName);
      moved := InsertEntry(left, d, newName);
    }

    /** rename after the keys have been updated. */
    method MoveDirectory(ghost p: Path, ghost q: Path, ghost d: nat, ghost u: nat, puuid: string, uuid: string,
                         oldName: Name, newName: Name)
      requires Sound(view) && HasKey(view, p) && Resolve(view, p) == Some(u) && ParentUuid(view, p) == Some(d)
      requires Coded(uuidStore, Rekeyed(view.keys, Sub(d, Filename(p)), Sub(d, Filename(q)), u), KeyText, Dec)
      requires Coded(dmStore, view.inodes, Dec, Same) && Coded(ecStore.entry, view.entries, Dec, Same)
      requires uuidCounter == view.counter
      requires puuid == Dec(d) && uuid == Dec(u) && oldName == Filename(p) && newName == Filename(q)
      modifies this`dmStore, this`view, ecStore
      ensures RenameStep(old(view), p, q, view, 0) && Represents()
    {
      hide Coded, Sound, Resolve, ParentUuid, Namespace.Rename, Replaced, Filename, Rekeyed, Marked;
      ghost var s, t := view, Namespace.Rename(view, p, q).0;
      RenameForm(s, p, q, d, u);
      MarkRenamed(uuid, s.inodes, u);
      ghost var moved := MoveEntry(s.entries, d, puuid, oldName, newName);
      view := t.(entries := moved);
      assert RenameStep(s, p, q, view, 0);
    }

    /**
     rename on canonical paths. What it leaves behind is valid unless "/" itself was renamed, and the three stores
     agree exactly if the target was free.
     */
    method Rename(oldPath: string, newPath: string, ghost p: Path, ghost q: Path) returns (r: int)
      requires Valid() && ProperPath(p) && oldPath == Render(p) && ProperPath(q) && newPath == Render(q)
      modifies this`dmStore, this`uuidStore, this`view, ecStore
      ensures Represents() && RenameStep(old(view), p, q, view, r)
      ensures Valid() <==> !(p == [] && HasKey(old(view), []))
      ensures r == 0 ==> (view == Namespace.Rename(old(view), p, q).0 <==> ListedOnce(old(view), p))
      ensures Inv(old(view)) ==> view == Namespace.Rename(old(view), p, q).0
      ensures Inv(old(view)) ==>
        (Inv(view) <==> (r == 0 ==> p != [] && q != [] && TargetFree(old(view), p, q)))
    {
      hide Coded, Components, Split, Sound, Inv, Resolve, Namespace.Rename, TargetFree, RenameStep, ListedOnce,
          Filename, Rekeyed;
      PathIsRoot(p);
      PathIsRoot(q);
      ghost var s := view;
      RenameRefused(s, p, q);
      var puuid, uuid;
      r, puuid, uuid := Get2Uuid(oldPath);
      if r < 0 { return -1; }
      var newName, oldName := FilenameOf(newPath), FilenameOf(oldPath);
      assert Dec(0) == "0";
      ghost var d, u := ParentUuid(s, p).value, Resolve(s, p).value;
      RenameForm(s, p, q, d, u);
      r := MoveKey(puuid + ":" + oldName, puuid + ":" + newName, uuid, s.keys, Sub(d, oldName), Sub(d, newName), u);
      if r < 0 { return -1; }
      MoveDirectory(p, q, d, u, puuid, uuid, oldName, newName);
      RenameStepKeepsSoundIff(s, p, q, view, r);
      RenameStepExactIff(s, p, q, view);
      if Inv(s) {
        StepsExact(s, p, q, view, r);
        RenameKeepsInvIff(s, p, q);
      }
    }

    static lemma RenameRefused(s: Dirs, p: Path, q: Path)
      ensures p == [] ==> Resolve(s, p) == Some(0)
      ensures !HasKey(s, p) ==> RenameStep(s, p, q, s, -1) && Namespace.Rename(s, p, q) == (s, -1)
      ensures Resolve(s, p).None? ==> !HasKey(s, p)
    {
      RenameOutcome(s, p, q);
    }

    /** getAttr, access and opendir: the inode of a path, if it has one. The access time is not modelled. */
    method GetAttr(path: string) returns (r: Option<Inode>)
      requires Valid()
      ensures r.Some? <==> Resolve(view, Components(path)).Some? && Components(path) != []
      ensures r.Some? ==> Some(r.value.uuid) == Resolve(view, Components(path))
      ensures r.Some? ==> r.value.uuid in view.inodes && view.inodes[r.value.uuid] == r.value
    {
      hide Coded, Injective, Components, Split, Tree;
      TextsInjective();
      var rc, uuid := GetUuid(path);
      if rc < 0 { return None; }
      ghost var u := Resolve(view, Components(path)).value;
      if Components(path) != [] { FollowLast(view.keys, 0, Components(path)); }
      CodedIn(dmStore, view.inodes, Dec, Same, u);
      if uuid !in dmStore { return None; }
      r := Some(dmStore[uuid]);
    }

    /** readdir: the entry list of the path; of nothing, if the path does not resolve. */
    method Readdir(path: string) returns (r: string)
      requires Valid()
      ensures Resolve(view, Components(path)).Some? ==>
              r == Join(EntriesOf(view, Resolve(view, Components(path)).value))
      ensures Resolve(view, Components(path)).None? ==> r == ""
    {
      hide Coded, Injective, Components, Split, Tree;
      TextsInjective();
      var rc, uuid := GetUuid(path);
      if rc < 0 {
        uuid := "";
        NoEmptyKey();
      } else {
        CodedIn(ecStore.entry, view.entries, Dec, Same, Resolve(view, Components(path)).value);
      }
      r := ecStore.Readdir(uuid);
    }

    lemma NoEmptyKey()
      requires Represents()
      ensures "" !in ecStore.entry
    {
      if "" in ecStore.entry {
        var u :| u in view.entries && Dec(u) == "";
        DecPlain(u);
      }
    }
  }
}
