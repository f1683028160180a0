/**
 RDMA buffer regions (include/network/rdma.hpp, lines 92-119): slot i of an area is the page at offset
 i * 4096, and freeing recovers the slot from the address.
 */
module Regions {
  import opened Arithmetic
  import opened SlotBitmap
  import opened SlotMachine

  /**
   At every point of every interleaved run, two regions held at the same time, by different threads or as
   different slots, do not overlap and lie inside the area of 32 pages, and freeing either by its address frees its
   own slot.
   */
  lemma HeldRegionsDisjoint(n: nat, states: seq<State>, steps: seq<Step>, k: nat, t: nat, u: nat, i: nat, j: nat)
    requires Run(n, states, steps) && k < |states| && t < n && u < n
    requires |states[k].held| == n && i in states[k].held[t] && j in states[k].held[u] && (t != u || i != j)
    ensures i * 4096 + 4096 <= 32 * 4096 && j * 4096 + 4096 <= 32 * 4096
    ensures i * 4096 + 4096 <= j * 4096 || j * 4096 + 4096 <= i * 4096
    ensures (i * 4096) / 4096 == i && (j * 4096) / 4096 == j
  {
    RunKeepsInv(n, states, steps, k);
    if t != u { RunExclusive(n, states, steps, k, t, u, i); }
    ItemsApart(i, SLOTS, 4096);
    ItemsApart(j, SLOTS, 4096);
    if i < j { ItemsApart(i, j, 4096); } else { ItemsApart(j, i, 4096); }
  }
}
