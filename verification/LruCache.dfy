/**
 The bounded cache of the client (include/fs/lru_cache.h), one call at a time. The current time is a parameter.
 */
module LruCache {
  import opened Options

  datatype CacheData<V> = CacheData(beginTime: int, updateTime: int, expireTime: int, count: int, data: V)

  /** The order of std::map<string, ...>. */
  predicate Less(a: string, b: string) {
    b != "" && (a == "" || a[0] < b[0] || (a[0] == b[0] && Less(a[1..], b[1..])))
  }

  lemma {:induction false} LessTotal(a: string, b: string)
    ensures a == b || Less(a, b) || Less(b, a)
    ensures !Less(a, a)
  {
    if a != "" { LessTotal(a[1..], if b == "" then "" else b[1..]); }
    if a != "" && b != "" && a[0] == b[0] {
      assert a == [a[0]] + a[1..] && b == [b[0]] + b[1..];
    }
  }

  lemma {:induction false} LessTransitive(a: string, b: string, c: string)
    requires Less(a, b) && Less(b, c)
    ensures Less(a, c)
  {
    if a != "" && a[0] == b[0] == c[0] { LessTransitive(a[1..], b[1..], c[1..]); }
  }

  /** k comes before all other keys of s. */
  predicate IsFirst(k: string, s: set<string>) {
    k in s && forall x :: x in s && x != k ==> Less(k, x)
  }

  lemma {:induction false} FirstExists(s: set<string>) returns (k: string)
    requires s != {}
    ensures IsFirst(k, s)
    decreases |s|
  {
    k :| k in s;
    var rest := s - {k};
    if rest != {} {
      var first := FirstExists(rest);
      LessTotal(first, k);
      forall x | x in rest && x != first && Less(k, first) ensures Less(k, x) { LessTransitive(k, first, x); }
      if Less(first, k) { k := first; }
    }
  }

  /** The iterator at the first of the remaining keys. */
  method FirstOf(rest: set<string>) returns (it: string)
    requires rest != {}
    ensures it in rest && forall x :: x in rest && x != it ==> Less(it, x)
  {
    ghost var first := FirstExists(rest);
    it :| it in rest && IsFirst(it, rest);
    assert IsFirst(it, rest);
  }

  /** v is the entry to evict: of minimal count + update time, and among those the first in key order. */
  ghost predicate Evictable<V>(m: map<string, CacheData<V>>, v: string) {
    v in m && forall k :: k in m && k != v ==>
      || m[v].count + m[v].updateTime < m[k].count + m[k].updateTime
      || (m[v].count + m[v].updateTime == m[k].count + m[k].updateTime && Less(v, k))
  }

  /** The order is that of std::string: the first difference decides, and a prefix comes first. */
  lemma {:induction false} LessMeans(a: string, b: string) returns (i: nat)
    ensures i <= |a| && i <= |b| && a[..i] == b[..i]
    ensures i < |a| && i < |b| ==> a[i] != b[i]
    ensures Less(a, b) <==> i < |b| && (i == |a| || a[i] < b[i])
  {
    if a == "" || b == "" || a[0] != b[0] {
      i := 0;
    } else {
      var j := LessMeans(a[1..], b[1..]);
      i := j + 1;
      assert a[..i] == [a[0]] + a[1..][..j] && b[..i] == [b[0]] + b[1..][..j];
    }
  }

  /** Every entry but the victim weighs at least as much, and more if it comes before the victim. */
  lemma VictimIsLightest<V>(m: map<string, CacheData<V>>, v: string, k: string)
    requires Evictable(m, v) && k in m
    ensures m[v].count + m[v].updateTime <= m[k].count + m[k].updateTime
    ensures Less(k, v) ==> m[v].count + m[v].updateTime < m[k].count + m[k].updateTime
  {
    LessTotal(k, v);
    if Less(k, v) && Less(v, k) { LessTransitive(k, v, k); }
  }

  /** Of two entries used last at the same time the one with more hits stays,
      and of two with the same hits the later. */
  lemma LessUsedGoesFirst<V>(m: map<string, CacheData<V>>, v: string, a: string, b: string)
    requires Evictable(m, v) && a in m && b in m
    requires (m[a].updateTime == m[b].updateTime && m[a].count < m[b].count)
          || (m[a].count == m[b].count && m[a].updateTime < m[b].updateTime)
    ensures v != b
  {
  }

  /** There is never a choice. */
  lemma OneVictim<V>(m: map<string, CacheData<V>>, v: string, w: string)
    requires Evictable(m, v) && Evictable(m, w)
    ensures v == w
  {
    LessTotal(v, v);
    if v != w && Less(v, w) && Less(w, v) { LessTransitive(v, w, v); }
  }

  class Cache<V> {
    const maxSize: nat
    var entries: map<string, CacheData<V>>

    constructor (maxSize: nat)
      ensures this.maxSize == maxSize && entries == map[]
    {
      this.maxSize := maxSize;
      entries := map[];
    }

    /** get: a hit counts and refreshes the entry. */
    method Get(key: string, now: int) returns (r: Option<V>)
      modifies this
      ensures key !in old(entries) ==> r == None && entries == old(entries)
      ensures key in old(entries) ==>
        var e := old(entries)[key];
        r == Some(e.data) && entries == old(entries)[key := e.(count := e.count + 1, updateTime := now)]
    {
      if key !in entries { return None; }
      var e := entries[key];
      entries := entries[key := e.(count := e.count + 1, updateTime := now)];
      r := Some(e.data);
    }

    method Remove(key: string) returns (r: bool)
      modifies this
      ensures r <==> key in old(entries)
      ensures entries == old(entries) - {key}
    {
      r := key in entries;
      entries := entries - {key};
    }

    /** lru_remove: evicts the entry of minimal weight that comes first. */
    method LruRemove() returns (r: bool, ghost victim: string)
      modifies this
      ensures r <==> old(entries) != map[]
      ensures !r ==> entries == old(entries)
      ensures r ==> Evictable(old(entries), victim) && entries == old(entries) - {victim}
    {
      victim := "";
      if entries == map[] { return false, victim; }
      var rest := entries.Keys;
      var it := FirstOf(rest);
      var lru, weight := it, entries[it].count + entries[it].updateTime;
      rest := rest - {it};
      while rest != {}
        invariant entries == old(entries)
        invariant rest <= entries.Keys && lru in entries && lru !in rest 
                  && weight == entries[lru].count + entries[lru].updateTime
        invariant forall k, x :: k in entries && k !in rest && x in rest ==> Less(k, x)
        invariant forall k :: k in entries && k !in rest && k != lru ==>
          || weight < entries[k].count + entries[k].updateTime
          || (weight == entries[k].count + entries[k].updateTime && Less(lru, k))
        decreases |rest|
      {
        it := FirstOf(rest);
        if entries[it].count + entries[it].updateTime < weight {
          lru, weight := it, entries[it].count + entries[it].updateTime;
        }
        rest := rest - {it};
      }
      entries := entries - {lru};
      return true, lru;
    }

    /**
     set: makes room when the cache is full, then inserts; an entry already there is not overwritten. The bound
     holds exactly for limits of at least one.
     */
    method Set(key: string, data: V, now: int, expireTime: int) returns (ghost victim: Option<string>)
      modifies this
      ensures victim.Some? <==> |old(entries)| >= maxSize && old(entries) != map[]
      ensures victim.Some? ==> Evictable(old(entries), victim.value)
      ensures var kept := if victim.Some? then old(entries) - {victim.value} else old(entries);
              entries == if key in kept then kept else kept[key := CacheData(now, now, expireTime, 0, data)]
      ensures |old(entries)| <= maxSize ==> (|entries| <= maxSize <==> maxSize >= 1)
    {
      victim := None;
      ghost var before := entries;
      if |entries| >= maxSize {
        ghost var v;
        var r;
        r, v := LruRemove();
        if r {
          victim := Some(v);
          SizeAfterRemoval(before, v);
        }
      }
      if key !in entries {
        entries := entries[key := CacheData(now, now, expireTime, 0, data)];
      }
    }

    static lemma SizeAfterRemoval(m: map<string, CacheData<V>>, k: string)
      requires k in m
      ensures |m - {k}| == |m| - 1
    {
      assert (m - {k}).Keys == m.Keys - {k};
      assert |m.Keys - {k}| == |m.Keys| - 1;
      assert |m - {k}| == |(m - {k}).Keys| && |m| == |m.Keys|;
    }

    /** lru_expire: erases exactly the expired entries; a negative expire time never expires. */
    method LruExpire(now: int) returns (erased: nat)
      modifies this
      ensures forall k :: k in entries <==>
                k in old(entries)
                    && (old(entries)[k].expireTime < 0 || now - old(entries)[k].updateTime < old(entries)[k].expireTime)
      ensures forall k :: k in entries ==> entries[k] == old(entries)[k]
      ensures erased == |old(entries)| - |entries|
    {
      var rest := entries.Keys;
      erased := 0;
      while rest != {}
        invariant rest <= old(entries).Keys
        invariant forall k :: k in entries <==>
                    k in old(entries)
                    && (k in rest || old(entries)[k].expireTime < 0
                        || now - old(entries)[k].updateTime < old(entries)[k].expireTime)
        invariant forall k :: k in entries ==> entries[k] == old(entries)[k]
        invariant erased == |old(entries)| - |entries|
        decreases |rest|
      {
        var it :| it in rest;
        ghost var before := entries;
        if entries[it].expireTime >= 0 && now - entries[it].updateTime >= entries[it].expireTime {
          SizeAfterRemoval(entries, it);
          entries := entries - {it};
          erased := erased + 1;
        }
        rest := rest - {it};
      }
    }
  }
}
