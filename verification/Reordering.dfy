/** The whole pass: building the traces, connecting them, and checking the result (bb-reorder.c). */
module Reordering {
  import opened Chains
  import opened FlowGraphs
  import opened Traces
  import opened Connections

  ghost function PartAt(part: seq<nat>, c: seq<nat>, k: int): nat {
    if 0 <= k < |c| && c[k] < |part| then part[c[k]] else 0
  }

  ghost predicate SplitAt(part: seq<nat>, c: seq<nat>, m: int) {
    && (forall k :: 0 <= k < m ==> PartAt(part, c, k) == PartAt(part, c, 0))
    && (forall k :: m <= k < |c| ==> PartAt(part, c, k) == PartAt(part, c, |c| - 1))
  }

  /** At most one place in the chain where the partition changes. */
  ghost predicate Grouped(part: seq<nat>, c: seq<nat>) {
    exists m :: 0 <= m <= |c| && SplitAt(part, c, m)
  }

  lemma Follow(aux: seq<int>, part: seq<nat>, c: seq<nat>, k: nat)
    requires Chained(aux, c) && k < |c| && |part| == |aux|
    ensures c[k] < |aux| && aux[c[k]] == (if k + 1 < |c| then c[k + 1] else NONE) && PartAt(part, c, k) == part[c[k]]
  {
    assert LinkAt(aux, c, k);
  }

  lemma FirstLink(aux: seq<int>, c: seq<nat>)
    requires Chained(aux, c)
    ensures c != []
  {
  }

  /** A change of partition before block k that the check can see: the block before it has one. */
  ghost predicate Noticed(part: seq<nat>, c: seq<nat>, k: int) {
    0 < k < |c| && PartAt(part, c, k - 1) != 0 && PartAt(part, c, k) != PartAt(part, c, k - 1)
  }

  ghost predicate NoticedTwice(part: seq<nat>, c: seq<nat>) {
    exists j, k :: j < k && Noticed(part, c, j) && Noticed(part, c, k)
  }

  /** What has been found in the first k blocks: the switch, if any, is before block j. */
  ghost predicate Scan(part: seq<nat>, c: seq<nat>, k: int, j: int, current: nat, switched: bool, err: bool) {
    && (k == 0 ==> current == 0 && !switched)
    && if err then NoticedTwice(part, c)
       else
         && (k > 0 ==> current == PartAt(part, c, k - 1)) && (switched ==> j < k && Noticed(part, c, j))
         && forall i :: i < k && Noticed(part, c, i) ==> switched && i == j
  }

  lemma ScanStart(part: seq<nat>, c: seq<nat>)
    ensures Scan(part, c, 0, 0, 0, false, false)
  {
  }

  lemma ScanStep(part: seq<nat>, c: seq<nat>, k: int, j: int, current: nat, switched: bool, err: bool)
    requires Scan(part, c, k, j, current, switched, err) && 0 <= k < |c|
    ensures
      var p := PartAt(part, c, k);
      var cur := if current == 0 then p else current;
      if p == cur then Scan(part, c, k + 1, j, cur, switched, err)
      else if switched then Scan(part, c, k + 1, j, cur, switched, true)
      else Scan(part, c, k + 1, k, p, true, err)
  {
    hide PartAt;
    assert !err ==> (Noticed(part, c, k) <==> current != 0 && PartAt(part, c, k) != current);
  }

  lemma ScanDone(part: seq<nat>, c: seq<nat>, j: int, current: nat, switched: bool, err: bool)
    requires Scan(part, c, |c|, j, current, switched, err)
    ensures err <==> NoticedTwice(part, c)
  {
  }

  lemma {:induction false} Alike(part: seq<nat>, c: seq<nat>, i: int, k: int)
    requires 0 <= i <= k < |c| && forall l :: i < l <= k ==> !Noticed(part, c, l)
    requires forall l :: 0 <= l < |c| ==> PartAt(part, c, l) != 0
    ensures PartAt(part, c, k) == PartAt(part, c, i)
    decreases k - i
  {
    if i < k {
      assert !Noticed(part, c, k);
      Alike(part, c, i, k - 1);
    }
  }

  /** A chain that the check rejects is not grouped; if all blocks have partitions it rejects just those. */
  lemma RejectedIsUngrouped(part: seq<nat>, c: seq<nat>)
    ensures NoticedTwice(part, c) ==> !Grouped(part, c)
    ensures (forall k :: 0 <= k < |c| ==> PartAt(part, c, k) != 0) && !Grouped(part, c) ==> NoticedTwice(part, c)
  {
    if j, k :| j < k && Noticed(part, c, j) && Noticed(part, c, k) {
      forall m | 0 <= m <= |c| ensures !SplitAt(part, c, m) {
        var i := if m > j then j else k;
        var at := if m > j then 0 else |c| - 1;
        assert PartAt(part, c, i) != PartAt(part, c, at) || PartAt(part, c, i - 1) != PartAt(part, c, at);
      }
    } else if forall k :: 0 <= k < |c| ==> PartAt(part, c, k) != 0 {
      var m := if j :| Noticed(part, c, j) then j else |c|;
      forall k | 0 <= k < m ensures PartAt(part, c, k) == PartAt(part, c, 0) { Alike(part, c, 0, k); }
      forall k | m <= k < |c| ensures PartAt(part, c, k) == PartAt(part, c, |c| - 1) { Alike(part, c, k, |c| - 1); }
      assert SplitAt(part, c, m);
    }
  }

  /** verify_hot_cold_block_grouping: walk the chain from first and look for a second switch. */
  method VerifyGrouping(aux: seq<int>, part: seq<nat>, first: nat, ghost c: seq<nat>) returns (err: bool)
    requires Chained(aux, c) && first == c[0] && |aux| == |part|
    ensures err <==> NoticedTwice(part, c)
  {
    hide Chained, PartAt, Scan, NoticedTwice;
    var bb: int, current, switched := first, 0, false;
    err := false;
    ghost var k: nat, j := 0, 0;
    ScanStart(part, c);
    assert c != [] by { FirstLink(aux, c); }
    while bb != NONE
      invariant 0 <= k <= |c| && bb == (if k < |c| then c[k] else NONE)
      invariant Scan(part, c, k, j, current, switched, err)
      decreases |c| - k
    {
      Follow(aux, part, c, k);
      ScanStep(part, c, k, j, current, switched, err);
      if current == 0 {
        current := part[bb];
      }
      if part[bb] != current {
        if switched {
          err := true;
        } else {
          switched := true;
          current := part[bb];
          j := k;
        }
      }
      bb := aux[bb];
      k := k + 1;
    }
    ScanDone(part, c, j, current, switched, err);
  }

  lemma SplitTwo(part: seq<nat>, c: seq<nat>, d: seq<nat>, p: nat, q: nat)
    requires forall b :: b in c ==> b < |part| && part[b] == p
    requires forall b :: b in d ==> b < |part| && part[b] == q
    ensures Grouped(part, c + d)
  {
    forall k | 0 <= k < |c| ensures PartAt(part, c + d, k) == p { assert c[k] in c; }
    forall k | |c| <= k < |c + d|
      ensures PartAt(part, c + d, k) == q
    {
      assert (c + d)[k] == d[k - |c|] && d[k - |c|] in d;
    }
    assert SplitAt(part, c + d, |c|);
  }

  lemma InPart(part: seq<nat>, cs: seq<seq<nat>>, s: seq<nat>, p: nat)
    requires AllIn(part, cs, s, p)
    ensures forall b :: b in Flatten(cs, s) ==> b < |part| && part[b] == p
  {
    forall b | b in Flatten(cs, s) ensures b < |part| && part[b] == p {
      FlattenHas(cs, s, b);
      var k :| 0 <= k < |s| && s[k] < |cs| && b in cs[s[k]];
      assert s[k] in s && WithinOne(part, cs, s[k], p);
    }
  }

  /** Traces of one partition first, then those of the other: one switch at most. */
  lemma TwoPartsGrouped(part: seq<nat>, cs: seq<seq<nat>>, order: seq<nat>)
    requires TwoParts(part, cs, order)
    ensures Grouped(part, Flatten(cs, order))
  {
    var m, p :| 0 <= m <= |order| && AllIn(part, cs, order[..m], p) && AllIn(part, cs, order[m..], Other(p));
    assert order == order[..m] + order[m..];
    FlattenJoin(cs, order[..m], order[m..]);
    InPart(part, cs, order[..m], p);
    InPart(part, cs, order[m..], Other(p));
    SplitTwo(part, Flatten(cs, order[..m]), Flatten(cs, order[m..]), p, Other(p));
  }

  /** A visited block is on its trace. */
  lemma OnItsTrace(visited: seq<nat>, chains: seq<seq<nat>>, b: nat)
    requires Owned(visited, chains, []) && b < |visited| && visited[b] != 0
    ensures 0 < visited[b] <= |chains| && b in chains[visited[b] - 1]
  {
    assert Owner(visited, chains, [], b);
  }

  /** The blocks that the pass has to place: those reached from the entry, and its own duplicates. The exit
      only counts if the entry leads straight to it. */
  ghost predicate MustPlace(succs0: Graph, n: nat, b: nat) {
    if b < |succs0| then Reachable(succs0, b) && (b == EXIT_BLOCK ==> EXIT_BLOCK in succs0[ENTRY_BLOCK]) else b < n
  }

  /** b is in the partition of the first block, or in the one that comes after it. */
  ghost predicate WithFirst(part: seq<nat>, first: nat, b: nat) {
    b < |part| && first < |part| && (part[b] == part[first] || part[b] == Other(part[first]))
  }

  /** Every block but the entry and the exit is hot or cold. */
  ghost predicate Partitioned(part: seq<nat>) {
    forall b :: NUM_FIXED_BLOCKS <= b < |part| ==> part[b] == HOT_PARTITION || part[b] == COLD_PARTITION
  }

  /** In a partitioned function partitions leave out none of the blocks that the pass has to place, as long as
      the exit is not among them. */
  lemma HotOrColdPlaced(orig: seq<nat>, succs: Graph, part: seq<nat>, succs0: Graph, part0: seq<nat>, first: nat,
                        b: nat)
    requires Originals(orig, succs, part, succs0, part0) && Partitioned(part0) && |succs0| >= NUM_FIXED_BLOCKS
    requires NUM_FIXED_BLOCKS <= first < |part| && NUM_FIXED_BLOCKS <= b < |part|
    ensures WithFirst(part, first, b)
  {
    assert OriginalOf(orig, succs, part, succs0, part0, first) && OriginalOf(orig, succs, part, succs0, part0, b);
  }

  lemma SameFirst(l: Layout, k: Connector, cs0: seq<seq<nat>>, n0: nat)
    requires l.Inv([]) && l.Foremost() && l.traces != [] && l.succs0[ENTRY_BLOCK] == [l.entryNext] && cs0 == l.chains
    requires Heads(k.traces, k.cs) && Grown(cs0, k.cs, n0)
    ensures k.traces != [] && k.traces[0].first == l.entryNext
  {
    hide Chained, Seen, Heaps, AllUniform, Originals;
    assert GrownBy(cs0[0], k.cs[0], n0) && TraceEnds(k.traces, k.cs, 0) && TraceEnds(l.traces, l.chains, 0);
  }

  lemma IsVisited(visited: seq<nat>, chains: seq<seq<nat>>, t: nat, b: nat)
    requires Owned(visited, chains, []) && t < |chains| && b in chains[t]
    ensures b < |visited| && visited[b] != 0
  {
    assert InTrace(visited, chains[t], t + 1);
  }

  /** The blocks on the traces are those that the pass has to place. */
  lemma OnTraces(l: Layout, cs0: seq<seq<nat>>, cs: seq<seq<nat>>, n0: nat, n: nat, b: nat)
    requires l.Inv([]) && cs0 == l.chains && n0 == |l.aux| <= n && Grown(cs0, cs, n0) && Copies(cs, n0, n) && b < n
    requires forall b: nat :: b < |l.succs0| ==>
      (l.visited[b] != 0 <==> Reachable(l.succs0, b) && (b == EXIT_BLOCK ==> EXIT_BLOCK in l.succs0[ENTRY_BLOCK]))
    ensures On(cs, b) <==> MustPlace(l.succs0, n, b)
  {
    hide Reachable, AllChained, AllUniform, Ends, Heaps, Seen, Originals, Owned, Chained, Sourced;
    if MustPlace(l.succs0, n, b) && b < n0 {
      OnItsTrace(l.visited, l.chains, b);
      var t := l.visited[b] - 1;
      assert GrownBy(cs0[t], cs[t], n0);
      var i :| 0 <= i < |cs0[t]| && cs0[t][i] == b;
      assert cs[t][i] == b;
    }
    if t :| 0 <= t < |cs| && b in cs[t] {
      assert GrownBy(cs0[t], cs[t], n0);
      var i :| 0 <= i < |cs[t]| && cs[t][i] == b;
      if i < |cs0[t]| {
        assert cs0[t][i] == b;
        IsVisited(l.visited, l.chains, t, b);
      }
    }
  }

  lemma NotPlaced(succs0: Graph, n: nat, b: nat)
    requires |succs0| <= n <= b
    ensures !MustPlace(succs0, n, b)
  {
  }

  /** With partitioning, the chain has the blocks that are with the first. */
  lemma InChain(part: seq<nat>, traces: seq<Trace>, cs: seq<seq<nat>>, order: seq<nat>, flag: bool, b: nat)
    requires Heads(traces, cs) && cs != [] && (flag ==> AllUniform(part, cs))
    requires forall t: nat :: t < |cs| ==> (t in order <==> !flag || InTwo(part, cs, t))
    ensures b in Flatten(cs, order) <==> On(cs, b) && (flag ==> WithFirst(part, traces[0].first, b))
  {
    FlattenHas(cs, order, b);
    assert TraceEnds(traces, cs, 0);
    forall t: nat | t < |cs| && b in cs[t] && flag ensures InTwo(part, cs, t) <==> WithFirst(part, traces[0].first, b) {
      assert Uniform(part, cs[t]) && Uniform(part, cs[0]);
      assert cs[t][0] in cs[t] && cs[0][0] in cs[0];
    }
    if t: nat :| t < |cs| && b in cs[t] && t in order {
      var k :| 0 <= k < |order| && order[k] == t;
    }
  }

  /** find_traces, connect_traces and, with partitioning, verify_hot_cold_block_grouping. entryNext is the
      block that follows the entry. The blocks are linked from first on, in the order c; succs are their
      edges now, and orig names the block that each is a duplicate of. */
  method ReorderBasicBlocks(succs0: Graph, part0: seq<nat>, entryNext: nat, rounds: nat, flag: bool)
    returns (first: nat, aux: seq<int>, succs: Graph, part: seq<nat>, err: bool, ghost c: seq<nat>,
      ghost orig: seq<nat>)
    requires |succs0| >= NUM_FIXED_BLOCKS && Edges(succs0) && |part0| == |succs0| && rounds > 0
    requires succs0[ENTRY_BLOCK] != [] && succs0[EXIT_BLOCK] == []
    ensures Chained(aux, c) && first == c[0] && |aux| == |succs| >= |succs0|
    ensures forall b: nat :: b in c <==> MustPlace(succs0, |aux|, b) && (flag ==> WithFirst(part, first, b))
    ensures succs0[ENTRY_BLOCK] == [entryNext] ==> first == entryNext
    ensures Edges(succs) && Originals(orig, succs, part, succs0, part0)
    ensures flag ==> Grouped(part, c)
    ensures !err
  {
    hide Connector.Inv, Layout.InvWith, Grown, Copies, Reachable, Chained, Grouped, NoticedTwice, Seen, Originals,
      Edges, AllUniform,
      MustPlace, WithFirst, On;
    var l := new Layout(succs0, part0, entryNext);
    l.FindTraces(rounds);
    ghost var n := |l.aux|;
    l.InvFacts([]);
    var k := new Connector(l);
    ghost var cs0 := k.cs;
    ghost var order := k.ConnectTraces(flag);
    c := Flatten(k.cs, order);
    k.Result(order);
    first, aux, succs, part, err, orig := k.traces[0].first, k.aux, k.succs, k.part, false, k.orig;
    if succs0[ENTRY_BLOCK] == [entryNext] { SameFirst(l, k, cs0, n); }
    forall b: nat ensures b in c <==> MustPlace(succs0, |aux|, b) && (flag ==> WithFirst(part, first, b)) {
      InChain(part, k.traces, k.cs, order, flag, b);
      if b < |aux| { OnTraces(l, cs0, k.cs, n, |aux|, b); } else { NotPlaced(succs0, |aux|, b); }
    }
    if flag {
      TwoPartsGrouped(part, k.cs, order);
      RejectedIsUngrouped(part, c);
      err := VerifyGrouping(aux, part, first, c);
    }
  }
}
