/**
 Byte-level layout: how a page is cut into k data blocks of len bytes (include/ecal.hpp, lines 33, 319-322 of
 src/ecal.cpp), and where the rows of a block pool lie (include/datablock.hpp, lines 46-55).
 */
module PageLayout {
  import opened GaloisField
  import opened LinearAlgebra
  import opened CauchyCode
  import opened Arithmetic

  /** Block4K::capacity: the size of a page, and of one RDMA region slot. */
  const PAGE: nat := 4096

  /** memcpy of t over s at offset off. */
  function Splice(s: seq<byte>, off: nat, t: seq<byte>): (r: seq<byte>)
    requires off + |t| <= |s|
    ensures |r| == |s|
    ensures forall i :: 0 <= i < |s| ==> r[i] == if off <= i < off + |t| then t[i - off] else s[i]
  {
    s[..off] + t + s[off + |t|..]
  }

  /** Block i of a byte sequence. */
  function Block(s: seq<byte>, i: nat, len: nat): (r: seq<byte>)
    requires i * len + len <= |s|
    ensures |r| == len
  {
    s[i * len..i * len + len]
  }

  /** Overwriting block i changes block i and no other. */
  lemma SpliceBlock(s: seq<byte>, i: nat, j: nat, len: nat, t: seq<byte>)
    requires |t| == len && i * len + len <= |s| && j * len + len <= |s|
    ensures Block(Splice(s, i * len, t), j, len) == if i == j then t else Block(s, j, len)
  {
    if i < j { ItemsApart(i, j, len); }
    if j < i { ItemsApart(j, i, len); }
  }

  /** Data block i of a page. */
  function PageBlock(s: seq<byte>, i: nat, k: nat, len: nat): (r: seq<byte>)
    requires |s| == k * len && i < k
    ensures |r| == len && i * len + len <= |s| && r == Block(s, i, len)
  {
    ItemsApart(i, k, len);
    Block(s, i, len)
  }

  /** The k data blocks of a page. */
  function PageBlocks(s: seq<byte>, k: nat, len: nat): (r: seq<Vec>)
    requires |s| == k * len
    ensures |r| == k && forall i :: 0 <= i < k ==> r[i] == PageBlock(s, i, k, len)
    ensures BlocksOf(r, k, len)
  {
    seq(k, i requires 0 <= i < k => PageBlock(s, i, k, len))
  }

  /** A page is determined by its blocks. */
  lemma PageBlocksInjective(s: seq<byte>, t: seq<byte>, k: nat, len: nat)
    requires |s| == |t| == k * len
    requires PageBlocks(s, k, len) == PageBlocks(t, k, len)
    ensures s == t
  {
    forall b | 0 <= b < |s|
      ensures s[b] == t[b]
    {
      var i, o := BlockOfByte(b, k, len);
      assert PageBlocks(s, k, len)[i] == PageBlocks(t, k, len)[i];
      BlockByte(s, i, k, len, o);
      BlockByte(t, i, k, len, o);
    }
  }

  lemma BlockByte(s: seq<byte>, i: nat, k: nat, len: nat, o: nat)
    requires |s| == k * len && i < k && o < len
    ensures i * len + o < |s| && PageBlock(s, i, k, len)[o] == s[i * len + o]
  {
    ItemsApart(i, k, len);
  }

  lemma BlockOfByte(b: nat, k: nat, len: nat) returns (i: nat, o: nat)
    requires b < k * len
    ensures i < k && o < len && b == i * len + o
  {
    i, o := b / len, b % len;
    if i >= k {
      ItemsApart(k, i + 1, len);
    }
  }

  /** The blocks of a page, put end to end. */
  function Join(blocks: seq<Vec>, len: nat): (s: seq<byte>)
    requires BlocksOf(blocks, |blocks|, len)
    ensures |s| == |blocks| * len
  {
    if blocks == [] then [] else
      var front := blocks[..|blocks| - 1];
      Distribute(|front|, 1, len);
      Join(front, len) + blocks[|blocks| - 1]
  }

  lemma {:induction false} JoinBlock(blocks: seq<Vec>, len: nat, i: nat)
    requires BlocksOf(blocks, |blocks|, len) && i < |blocks|
    ensures PageBlock(Join(blocks, len), i, |blocks|, len) == blocks[i]
  {
    var front, last := blocks[..|blocks| - 1], blocks[|blocks| - 1];
    var s := Join(front, len);
    Distribute(|front|, 1, len);
    ItemsApart(i, |blocks|, len);
    assert Join(blocks, len) == s + last;
    if i < |front| {
      JoinBlock(front, len, i);
      ItemsApart(i, |front|, len);
      SliceOfConcat(s, last, i * len, len);
    } else {
      assert (s + last)[|s|..|s| + len] == last;
    }
  }

  lemma SliceOfConcat(s: seq<byte>, t: seq<byte>, o: nat, len: nat)
    requires o + len <= |s|
    ensures (s + t)[o..o + len] == s[o..o + len]
  {
  }

  /** Cutting a page into blocks and joining them are inverse. */
  lemma JoinPageBlocks(s: seq<byte>, k: nat, len: nat)
    requires |s| == k * len
    ensures Join(PageBlocks(s, k, len), len) == s
  {
    var t := Join(PageBlocks(s, k, len), len);
    forall i | 0 <= i < k
      ensures PageBlock(t, i, k, len) == PageBlock(s, i, k, len)
    {
      JoinBlock(PageBlocks(s, k, len), len, i);
    }
    assert PageBlocks(t, k, len) == PageBlocks(s, k, len);
    PageBlocksInjective(s, t, k, len);
  }

  // ---------- selecting K live nodes ----------

  function CountLive(live: set<nat>, n: nat): (c: nat)
    ensures c <= n
  {
    if n == 0 then 0 else CountLive(live, n - 1) + (if n - 1 in live then 1 else 0)
  }

  lemma {:induction false} CountLiveMonotone(live: set<nat>, live': set<nat>, n: nat)
    requires live <= live'
    ensures CountLive(live, n) <= CountLive(live', n)
  {
    if n > 0 { CountLiveMonotone(live, live', n - 1); }
  }

  /** Losing one node costs at most one live node. */
  lemma {:induction false} CountLiveLess(live: set<nat>, x: nat, n: nat)
    ensures CountLive(live, n) <= CountLive(live - {x}, n) + (if x < n then 1 else 0)
  {
    if n > 0 { CountLiveLess(live, x, n - 1); }
  }

  /** The first k live indices below j. */
  function Chosen(live: set<nat>, k: nat, j: nat): (c: seq<nat>)
    ensures |c| == if CountLive(live, j) < k then CountLive(live, j) else k
    ensures forall i :: 0 <= i < |c| ==> c[i] < j && c[i] in live
    ensures forall i, i' :: 0 <= i < i' < |c| ==> c[i] < c[i']
  {
    if j == 0 then [] else
      var c := Chosen(live, k, j - 1);
      if |c| < k && j - 1 in live then c + [j - 1] else c
  }

  /** The dead data indices below j. */
  function Dead(live: set<nat>, k: nat, j: nat): (c: seq<nat>)
    ensures forall i :: 0 <= i < |c| ==> c[i] < j && c[i] < k && c[i] !in live
  {
    if j == 0 then [] else
      var c := Dead(live, k, j - 1);
      if j - 1 < k && j - 1 !in live then c + [j - 1] else c
  }

  /** Once k nodes are chosen, looking further changes nothing. */
  lemma {:induction false} ChosenStops(live: set<nat>, k: nat, i: nat, j: nat)
    requires i <= j && CountLive(live, i) >= k
    ensures Chosen(live, k, j) == Chosen(live, k, i) && CountLive(live, j) >= k
    ensures k <= i ==> Dead(live, k, j) == Dead(live, k, i)
    decreases j
  {
    if i < j { ChosenStops(live, k, i, j - 1); }
  }

  /** While at most k indices have been seen, every live one has been chosen. */
  lemma {:induction false} ChosenData(live: set<nat>, k: nat, j: nat, x: nat)
    requires x < j && x < k && x in live
    ensures x in Chosen(live, k, j)
  {
    if x == j - 1 {
      assert Chosen(live, k, j) == Chosen(live, k, j - 1) + [x];
    } else {
      ChosenData(live, k, j - 1, x);
    }
  }

  lemma {:induction false} DeadIsMissing(live: set<nat>, k: nat, n: nat, j: nat)
    requires j <= k <= n && CountLive(live, n) >= k
    ensures Dead(live, k, j) == Missing(Chosen(live, k, n), j)
  {
    if j > 0 {
      DeadIsMissing(live, k, n, j - 1);
      if j - 1 in live { ChosenData(live, k, n, j - 1); }
    }
  }

  /**
   The selection loop of readBlock (src/ecal.cpp, lines 250-260): with at least k live nodes it chooses k
   distinct live nodes in increasing order, the dead data indices are exactly the data indices not chosen, and
   there are at most n - k of them.
   */
  lemma SelectionCorrect(live: set<nat>, k: nat, n: nat)
    requires k <= n && CountLive(live, n) >= k
    ensures |Chosen(live, k, n)| == k && Distinct(Chosen(live, k, n))
    ensures forall i, j :: 0 <= i < j < k ==> Chosen(live, k, n)[i] < Chosen(live, k, n)[j]
    ensures forall i :: 0 <= i < k ==> Chosen(live, k, n)[i] < n && Chosen(live, k, n)[i] in live
    ensures Dead(live, k, n) == Missing(Chosen(live, k, n), k)
    ensures forall j :: 0 <= j < k ==>
            (j in Chosen(live, k, n) <==> j in live) && (j in Dead(live, k, n) <==> j !in live)
    ensures |Dead(live, k, n)| <= n - k
  {
    var c := Chosen(live, k, n);
    DeadIsMissing(live, k, n, k);
    DeadStops(live, k, k, n);
    DeadCount(live, k, k);
    CountLiveGrowth(live, k, n);
    forall j | 0 <= j < k
      ensures (j in c <==> j in live) && (j in Dead(live, k, n) <==> j !in live)
    {
      if j in live {
        ChosenData(live, k, n, j);
      } else {
        var i := MissingComplete(c, k, j);
        assert Dead(live, k, n)[i] == j;
      }
    }
  }

  lemma {:induction false} DeadStops(live: set<nat>, k: nat, i: nat, j: nat)
    requires k <= i <= j
    ensures Dead(live, k, j) == Dead(live, k, i)
    decreases j
  {
    if i < j { DeadStops(live, k, i, j - 1); }
  }

  lemma {:induction false} DeadCount(live: set<nat>, k: nat, n: nat)
    requires n <= k
    ensures |Dead(live, k, n)| == n - CountLive(live, n)
  {
    if n > 0 {
      DeadCount(live, k, n - 1);
    }
  }

  lemma {:induction false} CountLiveGrowth(live: set<nat>, k: nat, n: nat)
    requires k <= n
    ensures CountLive(live, n) <= CountLive(live, k) + (n - k)
    decreases n
  {
    if k < n {
      CountLiveGrowth(live, k, n - 1);
    }
  }
}
