/** The flow graph of a function, and the duplication of its blocks (bb-reorder.c). */
module FlowGraphs {
  const ENTRY_BLOCK: nat := 0
  const EXIT_BLOCK: nat := 1
  const NUM_FIXED_BLOCKS: nat := 2

  /** The destinations of the edges out of every block. */
  type Graph = seq<seq<nat>>

  ghost predicate Targets(edges: seq<nat>, n: nat) {
    forall k :: 0 <= k < |edges| ==> edges[k] < n && edges[k] != ENTRY_BLOCK
  }

  ghost predicate Edges(succs: Graph) {
    forall b :: 0 <= b < |succs| ==> Targets(succs[b], |succs|)
  }

  function WithDest(edges: seq<nat>, k: nat, b: nat): seq<nat>
    requires k < |edges|
  {
    edges[k := b]
  }

  /** Edge k out of src leads to a new block, which has the edges of old_bb. */
  function Redirected(succs: Graph, src: nat, k: nat, old_bb: nat): Graph
    requires src < |succs| && k < |succs[src]| && old_bb < |succs|
  {
    succs[src := WithDest(succs[src], k, |succs|)] + [succs[old_bb]]
  }

  lemma EdgesGrow(succs: Graph, src: nat, k: nat, old_bb: nat)
    requires Edges(succs) && src < |succs| && k < |succs[src]| && old_bb < |succs| && |succs| >= NUM_FIXED_BLOCKS
    ensures Edges(Redirected(succs, src, k, old_bb))
  {
    var s := Redirected(succs, src, k, old_bb);
    forall b | 0 <= b < |s| ensures Targets(s[b], |s|) {
      assert Targets(succs[if b < |succs| then b else old_bb], |succs|);
    }
  }

  // ---- what duplicates are duplicates of -------------------------------------------------------

  /** The edges t of an original block, after some of them have been redirected to duplicates. */
  ghost predicate SameEdges(orig: seq<nat>, s: seq<nat>, t: seq<nat>) {
    |s| == |t| && forall k :: 0 <= k < |s| ==> s[k] < |orig| && orig[s[k]] == t[k]
  }

  ghost predicate OriginalOf(orig: seq<nat>, succs: Graph, part: seq<nat>, succs0: Graph, part0: seq<nat>, b: nat)
    requires b < |orig| == |succs| == |part| && |succs0| == |part0|
  {
    && orig[b] < |succs0| && part[b] == part0[orig[b]] && SameEdges(orig, succs[b], succs0[orig[b]])
    && (b < |succs0| || b < NUM_FIXED_BLOCKS || orig[b] < NUM_FIXED_BLOCKS ==> orig[b] == b)
  }

  /** Every block is one of the given function, or a duplicate of one: orig names that block, which is in the
      same partition and has edges to the same blocks. */
  ghost predicate Originals(orig: seq<nat>, succs: Graph, part: seq<nat>, succs0: Graph, part0: seq<nat>) {
    && |orig| == |succs| == |part| && |succs0| == |part0|
    && forall b: nat :: b < |succs| ==> OriginalOf(orig, succs, part, succs0, part0, b)
  }

  lemma OriginalsStart(succs0: Graph, part0: seq<nat>, orig: seq<nat>)
    requires |part0| == |succs0| == |orig| && Edges(succs0) && forall b :: 0 <= b < |orig| ==> orig[b] == b
    ensures Originals(orig, succs0, part0, succs0, part0)
  {
    forall b: nat | b < |succs0| ensures OriginalOf(orig, succs0, part0, succs0, part0, b) {
      assert Targets(succs0[b], |succs0|);
    }
  }

  /** Duplicating a block and redirecting an edge from the block to the duplicate. */
  lemma OriginalsGrow(orig: seq<nat>, succs: Graph, part: seq<nat>, succs0: Graph, part0: seq<nat>, src: nat, k: nat,
                      old_bb: nat)
    requires Originals(orig, succs, part, succs0, part0) && NUM_FIXED_BLOCKS <= old_bb
    requires NUM_FIXED_BLOCKS <= |succs0| <= |succs|
    requires src < |succs| && k < |succs[src]| && succs[src][k] == old_bb < |succs|
    ensures Originals(orig + [orig[old_bb]], Redirected(succs, src, k, old_bb), part + [part[old_bb]], succs0, part0)
  {
    var orig', succs', part' := orig + [orig[old_bb]], Redirected(succs, src, k, old_bb), part + [part[old_bb]];
    forall b: nat | b < |succs'| ensures OriginalOf(orig', succs', part', succs0, part0, b) {
      assert OriginalOf(orig, succs, part, succs0, part0, if b < |succs| then b else old_bb);
    }
  }

  /** Where the route ks leads from b, taking edge ks[0] first; -1 if there is no such edge. */
  function Route(g: Graph, b: nat, ks: seq<nat>): int
    decreases |ks|
  {
    if ks == [] then b
    else if b < |g| && ks[0] < |g[b]| then Route(g, g[b][ks[0]], ks[1..])
    else -1
  }

  /** Duplication keeps all routes: the same edges, taken one after the other, lead to the same blocks. */
  lemma {:induction false} SameRoutes(orig: seq<nat>, succs: Graph, part: seq<nat>, succs0: Graph, part0: seq<nat>,
                                      b: nat, ks: seq<nat>)
    requires Originals(orig, succs, part, succs0, part0) && b < |succs|
    ensures var d := Route(succs, b, ks); d < |orig| && Route(succs0, orig[b], ks) == if d < 0 then -1 else orig[d]
    decreases |ks|
  {
    assert OriginalOf(orig, succs, part, succs0, part0, b);
    if ks != [] && ks[0] < |succs[b]| {
      SameRoutes(orig, succs, part, succs0, part0, succs[b][ks[0]], ks[1..]);
    }
  }
}
