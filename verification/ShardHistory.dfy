/**
 What the nodes of an erasure-coded store hold after an arbitrary run. A run is recorded as the sequence of
 its writes, each with the nodes that were alive when it happened.
 */
module ShardHistory {
  import opened LinearAlgebra
  import opened Options

  /** A page, cut into data blocks, was written to a row while the nodes of live were alive. */
  datatype Write = Write(row: nat, data: seq<Vec>, live: set<nat>)

  /** The last write to the row. */
  function LastTo(h: seq<Write>, row: nat): (r: Option<Write>)
    ensures r.Some? ==> r.value in h && r.value.row == row
  {
    if h == [] then None
    else if h[|h| - 1].row == row then Some(h[|h| - 1])
    else LastTo(h[..|h| - 1], row)
  }

  /** The last write to the row that reached the node. */
  function LastOn(h: seq<Write>, row: nat, node: nat): (r: Option<Write>)
    ensures r.Some? ==> r.value in h && r.value.row == row && node in r.value.live
  {
    if h == [] then None
    else if h[|h| - 1].row == row && node in h[|h| - 1].live then Some(h[|h| - 1])
    else LastOn(h[..|h| - 1], row, node)
  }

  /** A node that was alive at the row's last write has that write. */
  lemma {:induction false} LiveAtLastWrite(h: seq<Write>, row: nat, node: nat)
    requires LastTo(h, row).Some? && node in LastTo(h, row).value.live
    ensures LastOn(h, row, node) == LastTo(h, row)
  {
    if h[|h| - 1].row != row { LiveAtLastWrite(h[..|h| - 1], row, node); }
  }

  lemma LastOnAppend(h: seq<Write>, w: Write, row: nat, node: nat)
    ensures LastOn(h + [w], row, node) == if w.row == row && node in w.live then Some(w) else LastOn(h, row, node)
    ensures LastTo(h + [w], row) == if w.row == row then Some(w) else LastTo(h, row)
  {
    assert (h + [w])[..|h|] == h;
  }

  function AllNodes(n: nat): (s: set<nat>)
    ensures forall i: nat :: i in s <==> i < n
  {
    if n == 0 then {} else AllNodes(n - 1) + {n - 1}
  }

  /** The history that stands for zeroed memory: every row below r was written with data. */
  function Initial(r: nat, data: seq<Vec>, live: set<nat>): (h: seq<Write>)
    ensures |h| == r && forall i :: 0 <= i < r ==> h[i] == Write(i, data, live)
  {
    seq(r, i requires 0 <= i < r => Write(i, data, live))
  }

  lemma {:induction false} LastToInitial(r: nat, data: seq<Vec>, live: set<nat>, row: nat, node: nat)
    requires row < r
    ensures LastTo(Initial(r, data, live), row) == Some(Write(row, data, live))
    ensures LastOn(Initial(r, data, live), row, node) == if node in live then Some(Write(row, data, live)) else None
  {
    var h := Initial(r, data, live);
    assert h[..r - 1] == Initial(r - 1, data, live);
    if row < r - 1 {
      LastToInitial(r - 1, data, live, row, node);
    } else {
      NoneInitial(r - 1, data, live, row, node);
    }
  }

  lemma {:induction false} NoneInitial(r: nat, data: seq<Vec>, live: set<nat>, row: nat, node: nat)
    requires row >= r
    ensures LastOn(Initial(r, data, live), row, node) == None
  {
    if r > 0 {
      assert Initial(r, data, live)[..r - 1] == Initial(r - 1, data, live);
      NoneInitial(r - 1, data, live, row, node);
    }
  }
}
