/** Building traces of basic blocks (bb-reorder.c). Everything that only weighs frequencies and
    probabilities is an arbitrary choice here. */
module Traces {
  import opened Helpers
  import opened Chains
  import opened FlowGraphs

  /** struct trace. */
  datatype Trace = Trace(first: nat, last: nat, round: nat, length: nat)

  /** Only blocks that have not been visited are in a heap. */
  ghost predicate Heaps(heapOf: seq<nat>, visited: seq<nat>, n0: nat)
    requires |heapOf| == |visited|
  {
    forall b :: 0 <= b < |heapOf| && heapOf[b] != 0 ==> ENTRY_BLOCK < b < n0 && visited[b] == 0
  }

  /** The blocks that have not been visited are as the pass found them; duplicates are visited. */
  ghost predicate Untouched(visited: seq<nat>, aux: seq<int>, succs: Graph, succs0: Graph)
    requires |visited| == |aux| == |succs|
  {
    forall b :: ENTRY_BLOCK < b < |visited| && visited[b] == 0 ==>
      b < |succs0| && aux[b] == NONE && succs[b] == succs0[b]
  }

  ghost predicate InTrace(visited: seq<nat>, c: seq<nat>, v: nat) {
    forall b :: b in c ==> ENTRY_BLOCK < b < |visited| && visited[b] == v
  }

  ghost predicate Owner(visited: seq<nat>, chains: seq<seq<nat>>, cur: seq<nat>, b: nat)
    requires b < |visited|
  {
    visited[b] != 0 ==>
      if visited[b] <= |chains| then b in chains[visited[b] - 1] else visited[b] == |chains| + 1 && b in cur
  }

  /** visited names the trace of every block: chains are the finished traces, cur the one being built. */
  ghost predicate Owned(visited: seq<nat>, chains: seq<seq<nat>>, cur: seq<nat>) {
    && (forall b: nat :: b < |visited| ==> Owner(visited, chains, cur, b))
    && (forall t: nat :: t < |chains| ==> InTrace(visited, chains[t], t + 1))
    && InTrace(visited, cur, |chains| + 1)
  }

  ghost predicate AllChained(aux: seq<int>, chains: seq<seq<nat>>) {
    forall t :: 0 <= t < |chains| ==> Chained(aux, chains[t])
  }

  /** All blocks of c are in one partition. */
  ghost predicate Uniform(part: seq<nat>, c: seq<nat>) {
    c != [] && forall b :: b in c ==> b < |part| && c[0] < |part| && part[b] == part[c[0]]
  }

  ghost predicate AllUniform(part: seq<nat>, chains: seq<seq<nat>>) {
    forall t :: 0 <= t < |chains| ==> Uniform(part, chains[t])
  }

  ghost predicate TraceEnds(traces: seq<Trace>, chains: seq<seq<nat>>, t: nat)
    requires t < |traces| == |chains|
  {
    chains[t] != [] && traces[t].first == chains[t][0] && traces[t].last == Last(chains[t])
  }

  /** start_of_trace and end_of_trace are set just for the first and last blocks of the traces. */
  ghost predicate Ends(traces: seq<Trace>, chains: seq<seq<nat>>, startOf: seq<int>, endOf: seq<int>) {
    && |traces| == |chains|
    && (forall t: nat :: t < |traces| ==> TraceEnds(traces, chains, t))
    && (forall t: nat :: t < |traces| ==> traces[t].first < |startOf| && startOf[traces[t].first] == t)
    && (forall t: nat :: t < |traces| ==> traces[t].last < |endOf| && endOf[traces[t].last] == t)
    && (forall b :: 0 <= b < |startOf| ==>
       startOf[b] == -1 || (0 <= startOf[b] < |traces| && traces[startOf[b]].first == b))
    && (forall b :: 0 <= b < |endOf| ==> endOf[b] == -1 || (0 <= endOf[b] < |traces| && traces[endOf[b]].last == b))
  }

  /** The exit block can only come into a trace if the entry leads straight to it. */
  ghost predicate ExitLeft(succs0: Graph, visited: seq<nat>, heapOf: seq<nat>) {
    (|succs0| > EXIT_BLOCK && EXIT_BLOCK in succs0[ENTRY_BLOCK])
    || (|visited| > EXIT_BLOCK && |heapOf| > EXIT_BLOCK && visited[EXIT_BLOCK] == 0 && heapOf[EXIT_BLOCK] == 0)
  }

  /** The blocks of the original function that have been visited. */
  ghost function Seen(visited: seq<nat>, n0: nat): set<nat> {
    set b | ENTRY_BLOCK < b < n0 && b < |visited| && visited[b] != 0
  }

  // ---- visiting one more block -----------------------------------------------------------------

  lemma OwnedExtend(visited: seq<nat>, chains: seq<seq<nat>>, cur: seq<nat>, b: nat)
    requires Owned(visited, chains, cur) && ENTRY_BLOCK < b < |visited| && visited[b] == 0
    ensures Owned(visited[b := |chains| + 1], chains, cur + [b]) && b !in cur
  {
    var v := visited[b := |chains| + 1];
    forall x: nat | x < |v| ensures Owner(v, chains, cur + [b], x) {
      assert Owner(visited, chains, cur, x);
    }
    forall t: nat | t < |chains| ensures InTrace(v, chains[t], t + 1) {
      assert InTrace(visited, chains[t], t + 1);
    }
  }

  /** A block of the current trace or an unvisited one is on no finished trace. */
  lemma NotFinished(visited: seq<nat>, chains: seq<seq<nat>>, cur: seq<nat>, b: nat)
    requires Owned(visited, chains, cur) && b < |visited| && (visited[b] == 0 || visited[b] == |chains| + 1)
    ensures forall t :: 0 <= t < |chains| ==> b !in chains[t]
  {
    forall t: nat | t < |chains| ensures b !in chains[t] {
      assert InTrace(visited, chains[t], t + 1);
    }
  }

  lemma AllKept(aux: seq<int>, aux': seq<int>, chains: seq<seq<nat>>)
    requires AllChained(aux, chains) && |aux| <= |aux'|
    requires forall t, b :: 0 <= t < |chains| && b in chains[t] && b < |aux| ==> aux'[b] == aux[b]
    ensures AllChained(aux', chains)
  {
    hide Chained;
    forall t | 0 <= t < |chains| ensures Chained(aux', chains[t]) {
      ChainKept(aux, aux', chains[t]);
    }
  }

  lemma SeenMore(visited: seq<nat>, n0: nat, b: nat, v: nat)
    requires ENTRY_BLOCK < b < n0 && b < |visited| && visited[b] == 0 && v != 0
    ensures Seen(visited[b := v], n0) == Seen(visited, n0) + {b} && b !in Seen(visited, n0)
  {
  }

  lemma UntouchedKept(visited: seq<nat>, aux: seq<int>, succs: Graph, succs0: Graph, visited': seq<nat>, aux': seq<int>,
                      succs': Graph)
    requires |visited| == |aux| == |succs| && |visited'| == |aux'| == |succs'| && |visited'| >= |visited|
    requires Untouched(visited, aux, succs, succs0)
    requires forall b :: 0 <= b < |visited'| && visited'[b] == 0 ==>
      b < |visited| && visited[b] == 0 && aux'[b] == aux[b] && succs'[b] == succs[b]
    ensures Untouched(visited', aux', succs', succs0)
  {
  }

  lemma UntouchedAt(visited: seq<nat>, aux: seq<int>, succs: Graph, succs0: Graph, b: nat)
    requires |visited| == |aux| == |succs| && Untouched(visited, aux, succs, succs0) && ENTRY_BLOCK < b < |visited|
    requires visited[b] == 0
    ensures aux[b] == NONE
  {
  }

  lemma InCur(visited: seq<nat>, chains: seq<seq<nat>>, cur: seq<nat>, b: nat)
    requires Owned(visited, chains, cur) && b in cur
    ensures ENTRY_BLOCK < b < |visited| && visited[b] == |chains| + 1
  {
  }

  // ---- nothing is lost -------------------------------------------------------------------------

  /** A successor that needs no more care: it is the exit, or visited, or waiting in a heap. */
  ghost predicate Settled(visited: seq<nat>, heapOf: seq<nat>, s: nat) {
    s == EXIT_BLOCK || (s < |visited| && s < |heapOf| && (visited[s] != 0 || heapOf[s] != 0))
  }

  /** The successors of visited blocks, and of the entry, are settled; those of block but are not
      looked at, and those in extra are about to be reached. */
  ghost predicate Closed(succs0: Graph, visited: seq<nat>, heapOf: seq<nat>, extra: seq<nat>, but: int) {
    forall b, k ::
      0 <= b < |succs0| && b < |visited| && b != but && (b == ENTRY_BLOCK || visited[b] != 0) &&
      0 <= k < |succs0[b]| ==>
        Settled(visited, heapOf, succs0[b][k]) || succs0[b][k] in extra
  }

  /** Blocks only move from unvisited to a heap, and from there or directly to visited. */
  ghost predicate Progress(visited: seq<nat>, heapOf: seq<nat>, visited': seq<nat>, heapOf': seq<nat>) {
    && |visited| == |heapOf| <= |visited'| == |heapOf'|
    && forall b :: 0 <= b < |visited| ==>
         (visited[b] != 0 ==> visited'[b] != 0) && (heapOf[b] != 0 ==> heapOf'[b] != 0 || visited'[b] != 0)
  }

  lemma ProgressTrans(v: seq<nat>, h: seq<nat>, v1: seq<nat>, h1: seq<nat>, v2: seq<nat>, h2: seq<nat>)
    requires Progress(v, h, v1, h1) && Progress(v1, h1, v2, h2)
    ensures Progress(v, h, v2, h2) && |v1| <= |v2| && forall b :: 0 <= b < |v1| && v1[b] != 0 ==> v2[b] != 0
  {
  }

  lemma ProgressSame(visited: seq<nat>, heapOf: seq<nat>)
    requires |visited| == |heapOf|
    ensures Progress(visited, heapOf, visited, heapOf)
  {
  }

  lemma ProgressTo(visited: seq<nat>, heapOf: seq<nat>, b: nat, v: nat)
    requires |visited| == |heapOf| && b < |visited| && v != 0
    ensures Progress(visited, heapOf, visited[b := v], heapOf[b := 0])
  {
  }

  lemma ClosedKept(succs0: Graph, visited: seq<nat>, heapOf: seq<nat>, visited': seq<nat>, heapOf': seq<nat>,
                   extra: seq<nat>, but: int)
    requires Closed(succs0, visited, heapOf, extra, but) && Progress(visited, heapOf, visited', heapOf')
    requires forall b :: 0 <= b < |succs0| && b < |visited'| && visited'[b] != 0 && b != but ==>
      b < |visited| && visited[b] != 0
    requires ENTRY_BLOCK < |visited|
    ensures Closed(succs0, visited', heapOf', extra, but)
  {
  }

  /** All successors of block but, save perhaps those in extra, have been taken care of. */
  lemma ClosedStep(succs0: Graph, visited: seq<nat>, heapOf: seq<nat>, but: nat, best: int)
    requires but < |succs0| && Closed(succs0, visited, heapOf, succs0[but], but)
    requires forall k :: 0 <= k < |succs0[but]| && k != best ==> Settled(visited, heapOf, succs0[but][k])
    ensures Closed(succs0, visited, heapOf, if 0 <= best < |succs0[but]| then [succs0[but][best]] else [], -1)
  {
  }

  /** Moving on to block d: what was still open is d itself, or a successor of d. */
  lemma ClosedNext(succs0: Graph, visited: seq<nat>, heapOf: seq<nat>, c: nat, d: nat, v: nat)
    requires Closed(succs0, visited, heapOf, [c], -1) && d < |succs0| && d < |visited| == |heapOf| && v != 0
    requires c == d || c in succs0[d]
    ensures Closed(succs0, visited[d := v], heapOf[d := 0], succs0[d], d)
  {
  }

  lemma ClosedFull(succs0: Graph, visited: seq<nat>, heapOf: seq<nat>, c: nat)
    requires Closed(succs0, visited, heapOf, [c], -1) && Settled(visited, heapOf, c)
    ensures Closed(succs0, visited, heapOf, [], -1)
  {
  }

  /** In round number round the heaps hold blocks for this round, and for the next if there is one. */
  ghost predicate HeapRange(heapOf: seq<nat>, round: nat, rounds: nat) {
    forall b :: 0 <= b < |heapOf| ==>
      heapOf[b] == 0 || heapOf[b] == round + 1 || (heapOf[b] == round + 2 && round + 1 < rounds)
  }

  // ---- finishing a trace -----------------------------------------------------------------------

  lemma OwnedFinish(visited: seq<nat>, chains: seq<seq<nat>>, cur: seq<nat>)
    requires Owned(visited, chains, cur)
    ensures Owned(visited, chains + [cur], [])
  {
    var more := chains + [cur];
    forall b: nat | b < |visited| ensures Owner(visited, more, [], b) {
      assert Owner(visited, chains, cur, b);
    }
    forall t: nat | t < |more| ensures InTrace(visited, more[t], t + 1) {
      if t < |chains| { assert InTrace(visited, chains[t], t + 1); }
    }
  }

  lemma EndsFinish(traces: seq<Trace>, chains: seq<seq<nat>>, startOf: seq<int>, endOf: seq<int>, cur: seq<nat>,
                   tr: Trace)
    requires Ends(traces, chains, startOf, endOf) && cur != [] && tr.first == cur[0] && tr.last == Last(cur)
    requires tr.first < |startOf| && tr.last < |endOf|
    requires forall b, t :: b in cur && 0 <= t < |chains| ==> b !in chains[t]
    ensures Ends(traces + [tr], chains + [cur], startOf[tr.first := |traces|], endOf[tr.last := |traces|])
  {
    var traces', chains' := traces + [tr], chains + [cur];
    forall t: nat | t < |traces'| ensures TraceEnds(traces', chains', t) {
      if t < |traces| { assert TraceEnds(traces, chains, t); }
    }
    forall t: nat | t < |traces| ensures traces[t].first != tr.first && traces[t].last != tr.last {
      assert TraceEnds(traces, chains, t);
      assert chains[t][0] in chains[t] && Last(chains[t]) in chains[t];
      assert cur[0] in cur && Last(cur) in cur;
    }
    assert |chains'| == |chains| + 1 && chains'[|chains|] == cur;
  }

  // ---- duplicating a block ---------------------------------------------------------------------

  function Inserted(c: seq<nat>, i: nat, b: nat): seq<nat>
    requires i < |c|
  {
    c[..i + 1] + [b] + c[i + 1..]
  }

  lemma InsertedHas(c: seq<nat>, i: nat, b: nat)
    requires i < |c|
    ensures forall x :: x in Inserted(c, i, b) <==> x in c || x == b
    ensures Inserted(c, i, b)[0] == c[0] && |Inserted(c, i, b)| == |c| + 1
  {
    var r := Inserted(c, i, b);
    forall x | x in c ensures x in r {
      var k :| 0 <= k < |c| && c[k] == x;
      assert r[if k <= i then k else k + 1] == x;
    }
    assert r[i + 1] == b;
    forall x | x in r ensures x in c || x == b {
      var k :| 0 <= k < |r| && r[k] == x;
      if k != i + 1 { assert c[if k <= i then k else k - 1] == x; }
    }
  }

  lemma OwnedGrow(visited: seq<nat>, chains: seq<seq<nat>>, cur: seq<nat>, i: nat)
    requires Owned(visited, chains, cur) && i < |cur| && |visited| >= NUM_FIXED_BLOCKS
    ensures Owned(visited + [|chains| + 1], chains, Inserted(cur, i, |visited|)) && |visited| !in cur
  {
    var v, r := visited + [|chains| + 1], Inserted(cur, i, |visited|);
    InsertedHas(cur, i, |visited|);
    forall b: nat | b < |v| ensures Owner(v, chains, r, b) {
      if b < |visited| { assert Owner(visited, chains, cur, b); }
    }
    forall t: nat | t < |chains| ensures InTrace(v, chains[t], t + 1) {
      assert InTrace(visited, chains[t], t + 1);
    }
  }

  lemma UniformGrow(part: seq<nat>, chains: seq<seq<nat>>, cur: seq<nat>, i: nat, p: nat)
    requires AllUniform(part, chains) && Uniform(part, cur) && i < |cur| && (cur[0] < |part| ==> p == part[cur[0]])
    ensures AllUniform(part + [p], chains) && Uniform(part + [p], Inserted(cur, i, |part|))
  {
    InsertedHas(cur, i, |part|);
    assert cur[0] in cur;
  }

  lemma EndsGrow(traces: seq<Trace>, chains: seq<seq<nat>>, startOf: seq<int>, endOf: seq<int>)
    requires Ends(traces, chains, startOf, endOf)
    ensures Ends(traces, chains, startOf + [-1], endOf + [-1])
  {
    var st, en := startOf + [-1], endOf + [-1];
    assert forall b :: 0 <= b < |startOf| ==> st[b] == startOf[b];
    assert forall b :: 0 <= b < |endOf| ==> en[b] == endOf[b];
    forall b | 0 <= b < |st| ensures st[b] == -1 || (0 <= st[b] < |traces| && traces[st[b]].first == b) {
      if b < |startOf| { assert st[b] == startOf[b]; }
    }
    forall b | 0 <= b < |en| ensures en[b] == -1 || (0 <= en[b] < |traces| && traces[en[b]].last == b) {
      if b < |endOf| { assert en[b] == endOf[b]; }
    }
  }

  lemma SeenSame(visited: seq<nat>, n0: nat, v: nat)
    requires n0 <= |visited|
    ensures Seen(visited + [v], n0) == Seen(visited, n0)
  {
  }

  // ---- rotating a loop -------------------------------------------------------------------------

  lemma OwnedSame(visited: seq<nat>, chains: seq<seq<nat>>, cur: seq<nat>, r: seq<nat>)
    requires Owned(visited, chains, cur) && forall b :: b in r <==> b in cur
    ensures Owned(visited, chains, r)
  {
    forall b: nat | b < |visited| ensures Owner(visited, chains, r, b) {
      assert Owner(visited, chains, cur, b);
    }
  }

  lemma UniformSame(part: seq<nat>, cur: seq<nat>, r: seq<nat>)
    requires Uniform(part, cur) && r != [] && forall b :: b in r <==> b in cur
    ensures Uniform(part, r) && cur[0] < |part| && r[0] < |part| && part[r[0]] == part[cur[0]]
  {
    assert r[0] in r && cur[0] in cur;
  }

  /** Each block of the trace being built has an edge to the next. */
  ghost predicate Along(succs: Graph, cur: seq<nat>) {
    forall k {:trigger cur[k]} :: 0 <= k < |cur| ==> cur[k] < |succs| && (k + 1 < |cur| ==> cur[k + 1] in succs[cur[k]])
  }

  ghost function InHeap(heapOf: seq<nat>, h: nat): set<nat> {
    set b: nat | b < |heapOf| && heapOf[b] == h
  }

  lemma {:induction false} Smaller(x: set<nat>, y: set<nat>)
    requires x <= y
    ensures |x| <= |y| && (x != y ==> |x| < |y|)
  {
    assert y == x + (y - x);
  }

  lemma PutOff(succs0: Graph, visited: seq<nat>, heapOf: seq<nat>, bb: nat, round: nat, rounds: nat)
    requires bb < |heapOf| == |visited| && heapOf[bb] == round + 1 && round + 1 < rounds && ENTRY_BLOCK < |visited|
    requires Closed(succs0, visited, heapOf, [], -1) && HeapRange(heapOf, round, rounds)
    ensures Closed(succs0, visited, heapOf[bb := round + 2], [], -1)
    ensures HeapRange(heapOf[bb := round + 2], round, rounds)
    ensures |InHeap(heapOf[bb := round + 2], round + 1)| < |InHeap(heapOf, round + 1)|
  {
    ClosedKept(succs0, visited, heapOf, visited, heapOf[bb := round + 2], [], -1);
    Smaller(InHeap(heapOf[bb := round + 2], round + 1), InHeap(heapOf, round + 1));
    assert bb in InHeap(heapOf, round + 1);
  }

  lemma TakeOut(succs0: Graph, visited: seq<nat>, heapOf: seq<nat>, bb: nat, round: nat, rounds: nat)
    requires bb < |heapOf| == |visited| && Closed(succs0, visited, heapOf, [], -1) && HeapRange(heapOf, round, rounds)
    ensures Closed(succs0, visited, heapOf[bb := 0], [bb], -1) && HeapRange(heapOf[bb := 0], round, rounds)
  {
  }

  lemma EntryClosed(succs0: Graph, visited: seq<nat>, heapOf: seq<nat>)
    requires |succs0| >= NUM_FIXED_BLOCKS && |visited| == |heapOf| == |succs0| && Edges(succs0)
    requires forall b :: 0 <= b < |succs0| ==> visited[b] == 0
    requires forall k :: 0 <= k < |succs0[ENTRY_BLOCK]| ==>
      succs0[ENTRY_BLOCK][k] < |heapOf| && heapOf[succs0[ENTRY_BLOCK][k]] != 0
    ensures Closed(succs0, visited, heapOf, [], -1)
  {
  }

  lemma FirstRange(heapOf: seq<nat>, rounds: nat)
    requires forall b :: 0 <= b < |heapOf| ==> heapOf[b] == 0 || heapOf[b] == 1
    ensures HeapRange(heapOf, 0, rounds)
  {
  }

  lemma NextRange(heapOf: seq<nat>, i: nat, rounds: nat)
    requires HeapRange(heapOf, i, rounds) && i < rounds && forall b :: 0 <= b < |heapOf| ==> heapOf[b] != i + 1
    ensures i + 1 < rounds ==> HeapRange(heapOf, i + 1, rounds)
    ensures i + 1 == rounds ==> forall b :: 0 <= b < |heapOf| ==> heapOf[b] == 0
  {
  }

  ghost predicate FromEntry(succs0: Graph, p: seq<nat>) {
    && |p| >= 2 && p[0] == ENTRY_BLOCK
    && (forall k :: 0 <= k < |p| ==> p[k] < |succs0|)
    && (forall k :: 0 < k < |p| ==> p[k] in succs0[p[k - 1]])
  }

  /** b can be reached from the entry. */
  ghost predicate Reachable(succs0: Graph, b: nat) {
    exists p :: FromEntry(succs0, p) && p[|p| - 1] == b
  }

  /** Whatever is visited or in a heap can be reached. */
  ghost predicate Sourced(succs0: Graph, visited: seq<nat>, heapOf: seq<nat>) {
    forall b: nat :: b < |succs0| && b < |visited| && b < |heapOf| && (visited[b] != 0 || heapOf[b] != 0) ==>
      Reachable(succs0, b)
  }

  lemma ReachableFirst(succs0: Graph, k: nat)
    requires |succs0| > ENTRY_BLOCK && Edges(succs0) && k < |succs0[ENTRY_BLOCK]|
    ensures succs0[ENTRY_BLOCK][k] < |succs0| && Reachable(succs0, succs0[ENTRY_BLOCK][k])
  {
    assert Targets(succs0[ENTRY_BLOCK], |succs0|);
    assert FromEntry(succs0, [ENTRY_BLOCK, succs0[ENTRY_BLOCK][k]]);
  }

  lemma ReachableNext(succs0: Graph, visited: seq<nat>, heapOf: seq<nat>, b: nat, s: nat)
    requires Sourced(succs0, visited, heapOf) && Edges(succs0) && b < |succs0| && s in succs0[b]
    requires b < |visited| && b < |heapOf| && visited[b] != 0
    ensures s < |succs0| && Reachable(succs0, s)
  {
    assert Reachable(succs0, b);
    assert Targets(succs0[b], |succs0|);
    var p :| FromEntry(succs0, p) && p[|p| - 1] == b;
    var q := p + [s];
    assert (forall k :: 0 <= k < |p| ==> q[k] == p[k]) && q[|p|] == s;
    assert FromEntry(succs0, q);
  }

  lemma SourcedLess(succs0: Graph, visited: seq<nat>, heapOf: seq<nat>, b: nat)
    requires Sourced(succs0, visited, heapOf) && b < |visited| == |heapOf| && heapOf[b] != 0
    ensures b < |succs0| ==> Reachable(succs0, b)
    ensures Sourced(succs0, visited, heapOf[b := 0])
  {
  }

  lemma SourcedMore(succs0: Graph, visited: seq<nat>, heapOf: seq<nat>, b: nat, v: nat, h: nat)
    requires Sourced(succs0, visited, heapOf) && b < |visited| && b < |heapOf| && Reachable(succs0, b)
    ensures Sourced(succs0, visited[b := v], heapOf[b := h])
  {
  }

  lemma HeapsExtend(succs0: Graph, visited: seq<nat>, heapOf: seq<nat>, b: nat, v: nat)
    requires |heapOf| == |visited| && Heaps(heapOf, visited, |succs0|) && b < |visited|
    requires ExitLeft(succs0, visited, heapOf)
    requires b == EXIT_BLOCK ==> |succs0| > EXIT_BLOCK && EXIT_BLOCK in succs0[ENTRY_BLOCK]
    ensures Heaps(heapOf[b := 0], visited[b := v], |succs0|) && ExitLeft(succs0, visited[b := v], heapOf[b := 0])
  {
  }

  lemma UniformExtend(part: seq<nat>, cur: seq<nat>, b: nat)
    requires b < |part| && (cur != [] ==> Uniform(part, cur) && cur[0] < |part| && part[b] == part[cur[0]])
    ensures Uniform(part, cur + [b])
  {
    if cur != [] { assert cur[0] in cur; }
  }

  lemma {:induction false} PathVisited(succs0: Graph, visited: seq<nat>, heapOf: seq<nat>, p: seq<nat>, k: nat)
    requires FromEntry(succs0, p) && 0 < k < |p| && Closed(succs0, visited, heapOf, [], -1) && |succs0| <= |visited|
    requires |succs0| > EXIT_BLOCK && succs0[EXIT_BLOCK] == []
    requires forall b :: 0 <= b < |heapOf| ==> heapOf[b] == 0
    ensures p[k] < |visited| && (p[k] == EXIT_BLOCK || visited[p[k]] != 0)
  {
    if k > 1 { PathVisited(succs0, visited, heapOf, p, k - 1); }
    var a := p[k - 1];
    assert p[k] in succs0[p[k - 1]];
    var j :| 0 <= j < |succs0[a]| && succs0[a][j] == p[k];
    assert Settled(visited, heapOf, succs0[a][j]);
  }

  lemma AllReached(succs0: Graph, visited: seq<nat>, heapOf: seq<nat>, b: nat)
    requires Reachable(succs0, b) && Closed(succs0, visited, heapOf, [], -1) && |succs0| <= |visited|
    requires |succs0| > EXIT_BLOCK && succs0[EXIT_BLOCK] == []
    requires forall b :: 0 <= b < |heapOf| ==> heapOf[b] == 0
    ensures b < |visited| && (b == EXIT_BLOCK || visited[b] != 0)
  {
    var p :| FromEntry(succs0, p) && p[|p| - 1] == b;
    PathVisited(succs0, visited, heapOf, p, |p| - 1);
  }

  lemma SeenStart(visited: seq<nat>, n0: nat, b: nat, v: nat)
    requires ENTRY_BLOCK < b < n0 && b < |visited| && visited[b] == 0 && v != 0
    ensures Seen(visited, n0) < Seen(visited[b := v], n0)
  {
    SeenMore(visited, n0, b, v);
  }

  lemma {:induction false} SeenBound(visited: seq<nat>, n0: nat)
    ensures |Seen(visited, n0)| <= n0
  {
    if n0 > 0 {
      SeenBound(visited, n0 - 1);
      assert Seen(visited, n0) <= Seen(visited, n0 - 1) + {n0 - 1};
      Smaller(Seen(visited, n0), Seen(visited, n0 - 1) + {n0 - 1});
    } else {
      assert Seen(visited, 0) == {};
    }
  }

  lemma SeenLess(visited0: seq<nat>, visited: seq<nat>, n0: nat)
    requires Seen(visited0, n0) < Seen(visited, n0)
    ensures |Seen(visited0, n0)| < |Seen(visited, n0)| <= n0
  {
    Smaller(Seen(visited0, n0), Seen(visited, n0));
    SeenBound(visited, n0);
  }

  lemma RangeKept(heapOf: seq<nat>, b: nat, round: nat, rounds: nat)
    requires HeapRange(heapOf, round, rounds) && b < |heapOf|
    ensures HeapRange(heapOf[b := 0], round, rounds)
  {
  }

  lemma AlongStart(succs: Graph, b: nat)
    requires b < |succs|
    ensures Along(succs, [b])
  {
  }

  lemma AlongMore(succs: Graph, cur: seq<nat>, b: nat)
    requires Along(succs, cur) && cur != [] && b < |succs| && Last(cur) < |succs| && b in succs[Last(cur)]
    ensures Along(succs, cur + [b])
  {
  }

  lemma NotFixed(succs: Graph, b: nat, s: nat)
    requires Edges(succs) && b < |succs| && s in succs[b]
    ensures s != ENTRY_BLOCK && s < |succs|
  {
    assert Targets(succs[b], |succs|);
  }

  lemma CopyLast(cur: seq<nat>, b: nat)
    requires cur != []
    ensures Inserted(cur, |cur| - 1, b) == cur + [b]
  {
  }

  lemma LoopNext(aux: seq<int>, c: seq<nat>, h: nat, k: nat)
    requires Looped(aux, c, h) && h <= k < |c|
    ensures c[k] < |aux| && aux[c[k]] >= 0 && (aux[c[k]] == c[h] <==> k == |c| - 1)
    ensures k + 1 < |c| ==> aux[c[k]] == c[k + 1]
  {
    assert LoopAt(aux, c, h, k);
  }

  /** Without a rotation the link into the loop stays as it is. */
  lemma NoCut(aux: seq<int>, c: seq<nat>, h: nat)
    requires Looped(aux, c, h)
    ensures Last(c) < |aux| && (h > 0 ==> c[h - 1] < |aux| && aux[c[h - 1] := aux[Last(c)]] == aux)
    ensures h == 0 ==> Rotated(c, h, |c| - 1)[0] == c[0]
    ensures |Rotated(c, h, |c| - 1)| == |c|
  {
    assert LoopAt(aux, c, h, |c| - 1) && (h > 0 ==> LoopAt(aux, c, h, h - 1));
  }

  lemma RotatedHead(aux: seq<int>, c: seq<nat>, h: nat, j: nat)
    requires Looped(aux, c, h) && h <= j < |c|
    ensures |Rotated(c, h, j)| == |c|
    ensures h > 0 ==> Rotated(c, h, j)[0] == c[0] && c[h] != c[0] && Rotated(c, h, j)[h - 1] == c[h - 1]
    ensures forall b :: b in Rotated(c, h, j) <==> b in c
  {
    RotatedSame(c, h, j);
  }

  lemma SingleEdge(succs: Graph, cur: seq<nat>, h: nat)
    requires Along(succs, cur) && 0 < h < |cur| && cur[h - 1] < |succs| && |succs[cur[h - 1]]| == 1
    ensures succs[cur[h - 1]][0] == cur[h]
  {
  }

  lemma CopyEnds(r: seq<nat>, h: nat, b: nat, n: nat)
    requires 0 < h < |r| == n
    ensures Inserted(r, h - 1, b) != [] && Inserted(r, h - 1, b)[0] == r[0] && Last(Inserted(r, h - 1, b)) == Last(r)
  {
  }

  // ---- the shape of a trace --------------------------------------------------------------------

  /** Each block of the trace has an edge to the next, but perhaps the one at position at. */
  ghost predicate WovenAt(succs: Graph, c: seq<nat>, at: int) {
    forall k {:trigger c[k]} :: 0 <= k < |c| - 1 && k != at ==> c[k] < |succs| && c[k + 1] in succs[c[k]]
  }

  /** At one place at most, where a loop has been rotated, a block has no edge to the next. */
  ghost predicate Woven(succs: Graph, c: seq<nat>) {
    exists at :: WovenAt(succs, c, at)
  }

  /** length counts the blocks of c, save perhaps a duplicate. */
  ghost predicate Counts(length: nat, c: seq<nat>, n0: nat) {
    length == |c| || (2 <= length == |c| - 1 && exists k :: 0 <= k < |c| && c[k] >= n0)
  }

  /** The traces come in the order of the rounds that have made them, none of them later than round. */
  ghost predicate ByRounds(traces: seq<Trace>, round: int) {
    && (forall t :: 0 <= t < |traces| ==> traces[t].round <= round)
    && forall t, u :: 0 <= t < u < |traces| ==> traces[t].round <= traces[u].round
  }

  ghost predicate Shaped(succs: Graph, traces: seq<Trace>, chains: seq<seq<nat>>, n0: nat) {
    |traces| == |chains| && forall t :: 0 <= t < |chains| ==>
      Woven(succs, chains[t]) && Counts(traces[t].length, chains[t], n0)
  }

  lemma AlongWoven(succs: Graph, c: seq<nat>)
    requires Along(succs, c)
    ensures Woven(succs, c)
  {
    assert WovenAt(succs, c, -1);
  }

  lemma RotatedWoven(succs: Graph, c: seq<nat>, h: nat, j: nat)
    requires Along(succs, c) && h <= j < |c| && c[h] in succs[Last(c)] && Distinct(c)
    ensures |Rotated(c, h, j)| == |c| && WovenAt(succs, Rotated(c, h, j), h - 1)
  {
    hide Rotated;
    RotatedSame(c, h, j);
    var r := Rotated(c, h, j);
    forall k {:trigger r[k]} | 0 <= k < |r| - 1 && k != h - 1 ensures r[k] < |succs| && r[k + 1] in succs[r[k]] {
      var s := Source(c, h, j, k);
      assert r[k] == c[s] && r[k + 1] == c[Source(c, h, j, k + 1)];
    }
  }

  /** A duplicate of r[h] before the rotated loop r[h..]: its only predecessor on the trace leads to it. */
  lemma CopiedWoven(succs: Graph, r: seq<nat>, h: nat, header: nat)
    requires 0 < h <= |r| && WovenAt(succs, r, h - 1) && Distinct(r) && r[h - 1] < |succs| && header < |succs|
    requires succs[r[h - 1]] == [header] && forall b :: b in r ==> b < |succs|
    ensures WovenAt(Redirected(succs, r[h - 1], 0, header), Inserted(r, h - 1, |succs|), h)
  {
    var g, more := Redirected(succs, r[h - 1], 0, header), Inserted(r, h - 1, |succs|);
    forall k {:trigger more[k]} | 0 <= k < |more| - 1 && k != h ensures more[k] < |g| && more[k + 1] in g[more[k]] {
      var i := if k < h then k else k - 1;
      assert more[k] == r[i] && r[i] in r;
      if k == h - 1 {
        assert more[k + 1] == |succs| && g[r[h - 1]] == [|succs|];
      } else {
        assert more[k + 1] == r[i + 1] && r[i] != r[h - 1] && g[r[i]] == succs[r[i]];
      }
    }
  }

  lemma CopyAlong(succs: Graph, cur: seq<nat>, k: nat, header: nat)
    requires Along(succs, cur) && cur != [] && Distinct(cur) && k < |succs[Last(cur)]| && header < |succs|
    ensures Along(Redirected(succs, Last(cur), k, header), cur + [|succs|])
  {
    var g, more := Redirected(succs, Last(cur), k, header), cur + [|succs|];
    forall i {:trigger more[i]} | 0 <= i < |more|
      ensures more[i] < |g| && (i + 1 < |more| ==> more[i + 1] in g[more[i]])
    {
      assert g[Last(cur)][k] == |succs|;
      if i < |cur| - 1 { assert more[i] == cur[i] && more[i + 1] == cur[i + 1] && cur[i] != Last(cur); }
    }
  }

  lemma AllCounted(c: seq<nat>, n0: nat)
    ensures Counts(|c|, c, n0)
  {
  }

  lemma ByRoundsNone(round: nat)
    ensures ByRounds([], round)
  {
  }

  lemma ByRoundsMore(traces: seq<Trace>, more: seq<Trace>, round: nat)
    requires ByRounds(traces, round) && |more| == |traces| + 1 && more[..|traces|] == traces
    requires more[|traces|].round == round
    ensures ByRounds(more, round)
  {
    assert forall t :: 0 <= t < |traces| ==> more[t] == more[..|traces|][t];
  }

  lemma ByRoundsLater(traces: seq<Trace>, round: nat, later: nat)
    requires ByRounds(traces, round) && round <= later
    ensures ByRounds(traces, later)
  {
  }

  lemma IsWoven(succs: Graph, c: seq<nat>, at: int)
    requires WovenAt(succs, c, at)
    ensures Woven(succs, c)
  {
  }

  lemma CopyCounts(r: seq<nat>, i: nat, b: nat, n0: nat)
    requires i < |r| && n0 <= b && |r| >= 2
    ensures Counts(|r|, Inserted(r, i, b), n0)
  {
    assert Inserted(r, i, b)[i + 1] == b;
  }

  /** Redirecting an edge out of a block that is on no finished trace. */
  lemma ShapedCopied(succs: Graph, traces: seq<Trace>, chains: seq<seq<nat>>, n0: nat, src: nat, k: nat, old_bb: nat)
    requires Shaped(succs, traces, chains, n0) && src < |succs| && k < |succs[src]| && old_bb < |succs|
    requires forall t :: 0 <= t < |chains| ==> src !in chains[t]
    ensures Shaped(Redirected(succs, src, k, old_bb), traces, chains, n0)
  {
    var g := Redirected(succs, src, k, old_bb);
    forall t | 0 <= t < |chains| ensures Woven(g, chains[t]) {
      var at :| WovenAt(succs, chains[t], at);
      forall i {:trigger chains[t][i]} | 0 <= i < |chains[t]| - 1 && i != at
        ensures chains[t][i] < |g| && chains[t][i + 1] in g[chains[t][i]]
      {
        assert chains[t][i] in chains[t];
      }
      assert WovenAt(g, chains[t], at);
    }
  }

  lemma ShapedMore(succs: Graph, traces: seq<Trace>, chains: seq<seq<nat>>, n0: nat, tr: Trace, c: seq<nat>)
    requires Shaped(succs, traces, chains, n0) && Woven(succs, c) && Counts(tr.length, c, n0)
    ensures Shaped(succs, traces + [tr], chains + [c], n0)
  {
  }

  /** The blocks of a function with what the pass keeps for each: bb->succs, BB_PARTITION, bb->aux,
      visited, and heap, start_of_trace and end_of_trace of bbd. The blocks with the edges succs0 are
      those the pass was given; it adds duplicates. A heap is known by its round plus one. */
  class Layout {
    const succs0: Graph
    ghost const part0: seq<nat>
    const entryNext: nat
    var succs: Graph
    var part: seq<nat>
    var aux: seq<int>
    var visited: seq<nat>
    var heapOf: seq<nat>
    var startOf: seq<int>
    var endOf: seq<int>
    var traces: seq<Trace>
    ghost var orig: seq<nat>
    ghost var chains: seq<seq<nat>>

    constructor (succs0: Graph, part: seq<nat>, entryNext: nat)
      requires |succs0| >= NUM_FIXED_BLOCKS && Edges(succs0) && succs0[EXIT_BLOCK] == [] && |part| == |succs0|
      ensures this.succs0 == succs0 && this.part == part == part0 && Inv([]) && traces == []
      ensures this.entryNext == entryNext
      ensures |heapOf| == |visited| == |succs0| && forall b :: 0 <= b < |succs0| ==> heapOf[b] == 0 && visited[b] == 0
    {
      this.succs0, succs, this.part := succs0, succs0, part;
      part0, this.entryNext := part, entryNext;
      ghost var own := seq<nat>(|succs0|, (b: nat) => b);
      orig := own;
      OriginalsStart(succs0, part, own);
      aux := seq(|succs0|, _ => NONE);
      visited := seq(|succs0|, _ => 0);
      heapOf := seq(|succs0|, _ => 0);
      startOf := seq(|succs0|, _ => -1);
      endOf := seq(|succs0|, _ => -1);
      traces, chains := [], [];
    }

    ghost predicate SizesWith(n: nat)
      reads `succs, `part, `visited, `heapOf, `startOf, `endOf, `traces, `chains, `orig
    {
      && NUM_FIXED_BLOCKS <= |succs0| <= n && Edges(succs0) && succs0[EXIT_BLOCK] == []
      && |succs| == |part| == |visited| == |heapOf| == |startOf| == |endOf| == n && |traces| == |chains|
      && Originals(orig, succs, part, succs0, part0)
    }

    ghost predicate Sizes()
      reads this
    {
      SizesWith(|aux|)
    }

    ghost predicate InvWith(a: seq<int>, cur: seq<nat>)
      reads `succs, `part, `visited, `heapOf, `startOf, `endOf, `traces, `chains, `orig
    {
      && SizesWith(|a|) && Edges(succs)
      && Heaps(heapOf, visited, |succs0|)
      && Untouched(visited, a, succs, succs0)
      && Owned(visited, chains, cur)
      && AllChained(a, chains) && (cur != [] ==> Chained(a, cur))
      && AllUniform(part, chains) && (cur != [] ==> Uniform(part, cur))
      && Ends(traces, chains, startOf, endOf)
      && ExitLeft(succs0, visited, heapOf) && Sourced(succs0, visited, heapOf)
      && Shaped(succs, traces, chains, |succs0|)
      && |traces| + (if cur == [] then 0 else 1) <= |Seen(visited, |succs0|)|
    }

    /** What holds between any two steps; cur are the blocks of the trace being built. */
    ghost predicate Inv(cur: seq<nat>)
      reads this
    {
      InvWith(aux, cur)
    }

    /** Append bb to the trace: link it behind prev, if there is one, and mark_bb_visited. */
    method Extend(ghost cur: seq<nat>, prev: int, bb: nat)
      requires Inv(cur) && ENTRY_BLOCK < bb < |succs0| && visited[bb] == 0 && Reachable(succs0, bb)
      requires bb == EXIT_BLOCK ==> EXIT_BLOCK in succs0[ENTRY_BLOCK]
      requires if cur == [] then prev == NONE else prev == Last(cur) && cur[0] < |part| && part[bb] == part[cur[0]]
      modifies `aux, `visited, `heapOf
      ensures Inv(cur + [bb])
      ensures visited == old(visited)[bb := |traces| + 1] && heapOf == old(heapOf)[bb := 0] && |aux| == old(|aux|)
    {
      hide Chained, Edges, Owned, AllChained, AllUniform, Ends, Seen, InTrace, Originals, Untouched, Sourced, Reachable,
        Heaps, ExitLeft, Uniform, Shaped;
      SourcedMore(succs0, visited, heapOf, bb, |traces| + 1, 0);
      HeapsExtend(succs0, visited, heapOf, bb, |traces| + 1);
      UniformExtend(part, cur, bb);
      OwnedExtend(visited, chains, cur, bb);
      NotFinished(visited, chains, cur, bb);
      SeenMore(visited, |succs0|, bb, |traces| + 1);
      UntouchedAt(visited, aux, succs, succs0, bb);
      ChainOne(aux, bb);
      assert [] + [bb] == [bb];
      ghost var was := aux;
      if prev != NONE {
        InCur(visited, chains, cur, Last(cur));
        NotFinished(visited, chains, cur, Last(cur));
        ChainJoin(aux, cur, [bb]);
        aux := aux[prev := bb];
      }
      AllKept(was, aux, chains);
      ghost var before := visited;
      visited := visited[bb := |traces| + 1];
      UntouchedKept(before, was, succs, succs0, visited, aux, succs);
      if heapOf[bb] != 0 {
        heapOf := heapOf[bb := 0];
      }
      assert heapOf == old(heapOf)[bb := 0];
    }

    ghost predicate Selectable(bb: nat, dest: nat)
      reads `visited, `part, `traces
    {
      && dest != EXIT_BLOCK && dest < |visited| && (visited[dest] == 0 || visited[dest] == |traces| + 1)
      && bb < |part| && dest < |part| && part[dest] == part[bb]
    }

    /** The best edge to go on with from bb, or none. */
    method SelectBest(bb: nat) returns (best: int)
      requires Sizes() && Edges(succs) && bb < |succs|
      ensures best == NONE || (0 <= best < |succs[bb]| && Selectable(bb, succs[bb][best]))
    {
      best := NONE;
      var k := 0;
      while k < |succs[bb]|
        invariant 0 <= k <= |succs[bb]|
        invariant best == NONE || (0 <= best < |succs[bb]| && Selectable(bb, succs[bb][best]))
      {
        var dest := succs[bb][k];
        if dest != EXIT_BLOCK && (visited[dest] == 0 || visited[dest] == |traces| + 1) && part[dest] == part[bb] {
          // better_edge_p and the thresholds decide.
          if * {
            best := k;
          }
        }
        k := k + 1;
      }
      // A best block with other predecessors may be left for a later trace.
      if * {
        best := NONE;
      }
    }

    /** Put the successors that were not chosen into heaps. */
    method AddSuccessors(ghost cur: seq<nat>, bb: nat, best: int, round: nat, rounds: nat)
      requires Inv(cur) && bb < |succs0| && succs[bb] == succs0[bb] && visited[bb] != 0
      requires HeapRange(heapOf, round, rounds)
      modifies `heapOf
      ensures Inv(cur) && HeapRange(heapOf, round, rounds) && Progress(visited, old(heapOf), visited, heapOf)
      ensures forall k :: 0 <= k < |succs[bb]| && k != best ==> Settled(visited, heapOf, succs[bb][k])
    {
      hide Chained, Owned, AllChained, AllUniform, Uniform, Ends, Seen, Sourced, Reachable, Originals, Shaped;
      var k := 0;
      while k < |succs[bb]|
        invariant 0 <= k <= |succs[bb]|
        invariant Inv(cur) && HeapRange(heapOf, round, rounds) && Progress(visited, old(heapOf), visited, heapOf)
        invariant forall l :: 0 <= l < k && l != best ==> Settled(visited, heapOf, succs[bb][l])
      {
        var dest := succs[bb][k];
        if k != best && dest != EXIT_BLOCK && visited[dest] == 0 && heapOf[dest] == 0 {
          var which_heap := round + 1;
          if round + 1 < rounds {
            // push_to_next_round_p decides.
            if * {
              which_heap := round + 2;
            }
          }
          ReachableNext(succs0, visited, heapOf, bb, dest);
          SourcedMore(succs0, visited, heapOf, dest, 0, which_heap);
          assert visited[dest := 0] == visited;
          heapOf := heapOf[dest := which_heap];
        }
        k := k + 1;
      }
    }

    /** The diamond A, B, C: take B, whose only successor is the best one, C, before it. */
    method Diamond(bb: nat, best: nat) returns (dest: nat)
      requires Sizes() && Edges(succs) && bb < |succs| && best < |succs[bb]| && Selectable(bb, succs[bb][best])
      ensures dest < |succs| && dest in succs[bb] && (dest == succs[bb][best]
        || (dest != EXIT_BLOCK && dest != ENTRY_BLOCK && visited[dest] == 0 && part[dest] == part[bb] &&
          succs[dest] == [succs[bb][best]]))
    {
      dest := succs[bb][best];
      var k := 0;
      while k < |succs[bb]|
        invariant 0 <= k <= |succs[bb]|
      {
        var d := succs[bb][k];
        // The edge to d does not cross partitions.
        if k != best && d != EXIT_BLOCK && visited[d] == 0 && part[d] == part[bb] && |succs[d]| == 1 &&
          succs[d][0] == dest {
          // Edge flags and frequencies decide.
          if * {
            dest := d;
            break;
          }
        }
        k := k + 1;
      }
    }

    /** The end of a trace: record it, and that its ends are a start and an end. */
    method Finish(ghost cur: seq<nat>, first: nat, last: nat, round: nat, length: nat)
      requires Inv(cur) && cur != [] && first == cur[0] && last == Last(cur)
      requires Woven(succs, cur) && Counts(length, cur, |succs0|)
      modifies `traces, `startOf, `endOf, `chains
      ensures Inv([]) && chains == old(chains) + [cur] && traces == old(traces) + [Trace(first, last, round, length)]
    {
      hide Chained, Edges, Owned, Uniform, Ends, Seen, InTrace, Shaped, Woven, Counts, Originals, Reachable, Sourced;
      ShapedMore(succs, traces, chains, |succs0|, Trace(first, last, round, length), cur);
      OwnedFinish(visited, chains, cur);
      forall b | b in cur ensures b < |visited| && forall t :: 0 <= t < |chains| ==> b !in chains[t] {
        InCur(visited, chains, cur, b);
        NotFinished(visited, chains, cur, b);
      }
      assert cur[0] in cur && Last(cur) in cur;
      EndsFinish(traces, chains, startOf, endOf, cur, Trace(first, last, round, length));
      startOf := startOf[first := |traces|];
      endOf := endOf[last := |traces|];
      traces := traces + [Trace(first, last, round, length)];
      chains := chains + [cur];
    }

    /** duplicate_block and BB_COPY_PARTITION, and the fields of the new block, which follows bb. */
    method DuplicateBlock(old_bb: nat, src: nat, k: nat, bb: nat)
      requires src < |succs| && k < |succs[src]| && old_bb < |succs| && old_bb < |part| && old_bb < |orig| && bb < |aux|
      modifies `succs, `part, `aux, `visited, `heapOf, `startOf, `endOf, `orig
      ensures succs == Redirected(old(succs), src, k, old_bb)
      ensures part == old(part) + [old(part)[old_bb]] && orig == old(orig) + [old(orig)[old_bb]]
      ensures aux == (old(aux) + [old(aux)[bb]])[bb := |old(aux)|] && visited == old(visited) + [|traces| + 1]
      ensures heapOf == old(heapOf) + [0] && startOf == old(startOf) + [-1] && endOf == old(endOf) + [-1]
    {
      succs := Redirected(succs, src, k, old_bb);
      part := part + [part[old_bb]];
      orig := orig + [orig[old_bb]];
      visited := visited + [|traces| + 1];
      heapOf, startOf, endOf := heapOf + [0], startOf + [-1], endOf + [-1];
      aux := (aux + [aux[bb]])[bb := |aux|];
    }

    lemma AllInside(aux0: seq<int>, visited0: seq<nat>, chains: seq<seq<nat>>, cur: seq<nat>)
      requires Owned(visited0, chains, cur) && |aux0| == |visited0|
      ensures forall t, b :: 0 <= t < |chains| && b in chains[t] ==> b < |aux0|
    {
      forall t: nat, b | t < |chains| && b in chains[t] ensures b < |aux0| {
        assert InTrace(visited0, chains[t], t + 1);
      }
    }

    /** copy_bb: duplicate old_bb, the destination of edge k out of src, redirect that edge to the
        duplicate and enter it into the trace behind cur[i]. */
    method CopyBb(ghost cur: seq<nat>, ghost i: nat, old_bb: nat, src: nat, k: nat, bb: nat) returns (new_bb: nat)
      requires Inv(cur) && i < |cur| && bb == cur[i] && src < |succs| && src in cur
      requires k < |succs[src]| && succs[src][k] == old_bb && NUM_FIXED_BLOCKS <= old_bb
      requires cur[0] < |part| && old_bb < |part| && part[old_bb] == part[cur[0]]
      modifies `succs, `part, `aux, `visited, `heapOf, `startOf, `endOf, `orig
      ensures Inv(Inserted(cur, i, new_bb)) && new_bb == |old(aux)|
      ensures visited == old(visited) + [|traces| + 1] && heapOf == old(heapOf) + [0]
      ensures succs == Redirected(old(succs), src, k, old_bb) && part == old(part) + [old(part)[old_bb]]
      ensures orig == old(orig) + [old(orig)[old_bb]]
    {
      hide Chained, Distinct, Edges, Owned, AllChained, AllUniform, Uniform, Ends, Seen, InTrace, Originals, Reachable,
        Shaped;
      new_bb := |aux|;
      ghost var aux0, visited0, succs0 := aux, visited, succs;
      InCur(visited, chains, cur, bb);
      NotFinished(visited, chains, cur, bb);
      InCur(visited, chains, cur, src);
      NotFinished(visited, chains, cur, src);
      ShapedCopied(succs, traces, chains, |this.succs0|, src, k, old_bb);
      OwnedGrow(visited, chains, cur, i);
      UniformGrow(part, chains, cur, i, part[old_bb]);
      EndsGrow(traces, chains, startOf, endOf);
      EdgesGrow(succs, src, k, old_bb);
      OriginalsGrow(orig, succs, part, this.succs0, part0, src, k, old_bb);
      SeenSame(visited, |this.succs0|, |traces| + 1);
      ghost var longer := aux + [NONE];
      AllKept(aux, longer, chains);
      ChainKept(aux, longer, cur);
      ChainInsert(longer, cur, i, new_bb);
      DuplicateBlock(old_bb, src, k, bb);
      assert aux == longer[new_bb := longer[bb]][bb := new_bb];
      AllInside(aux0, visited0, chains, cur);
      AllKept(longer, aux, chains);
      UntouchedKept(visited0, aux0, succs0, this.succs0, visited, aux, succs);
    }

    /** What stays as it is while a trace is rotated: the state of all blocks but the duplicates. */
    ghost predicate Same(visited0: seq<nat>, heapOf0: seq<nat>)
      reads `visited, `heapOf
    {
      && |visited0| == |heapOf0| <= |visited| == |heapOf|
      && (forall b :: 0 <= b < |visited0| ==> visited[b] == visited0[b] && heapOf[b] == heapOf0[b])
      && (forall b :: |visited0| <= b < |visited| ==> heapOf[b] == 0)
    }

    /** The only edge out of prev leads to a duplicate of header now. */
    ghost predicate HeaderCopied(succs1: Graph, part1: seq<nat>, prev: nat, header: nat)
      reads `succs, `part
    {
      && prev < |succs1| && header < |succs1| && header < |part1| && succs1[prev] == [header]
      && succs == Redirected(succs1, prev, 0, header) && part == part1 + [part1[header]]
    }

    /** r is cur with its tail from position h on rotated, and perhaps the duplicate n of the header before it. */
    ghost predicate Turned(cur: seq<nat>, h: nat, r: seq<nat>, n: nat)
      requires h < |cur|
    {
      exists j :: h <= j < |cur| && |Rotated(cur, h, j)| == |cur| &&
        (r == Rotated(cur, h, j) || (h > 0 && r == Inserted(Rotated(cur, h, j), h - 1, n)))
    }

    lemma IsDistinct(cur: seq<nat>)
      requires Inv(cur) && cur != []
      ensures Distinct(cur)
    {
    }

    lemma TurnedOnly(cur: seq<nat>, h: nat, j: nat, n: nat)
      requires h <= j < |cur| && |Rotated(cur, h, j)| == |cur|
      ensures Turned(cur, h, Rotated(cur, h, j), n)
    {
    }

    lemma InvFacts(cur: seq<nat>)
      requires Inv(cur)
      ensures Sizes() && Edges(succs) && Sourced(succs0, visited, heapOf)
      ensures forall b :: ENTRY_BLOCK < b < |visited| && visited[b] == 0 ==> b < |succs0| && succs[b] == succs0[b]
      ensures cur != [] ==> cur[0] < |part|
      ensures cur != [] ==> forall b :: b in cur ==>
        ENTRY_BLOCK < b < |visited| && visited[b] == |traces| + 1 && part[b] == part[cur[0]]
      ensures forall b :: 0 <= b < |visited| && visited[b] == |traces| + 1 ==> b in cur
    {
      if cur != [] { assert cur[0] in cur; }
      forall b: nat | b < |visited| && visited[b] == |traces| + 1 ensures b in cur {
        assert Owner(visited, chains, cur, b);
      }
    }

    /** Duplicate the header, so that the block before the loop falls through. */
    method CopyHeader(ghost cur: seq<nat>, ghost h: nat, ghost j: nat, ghost r: seq<nat>, prev: nat,
                      header: nat) returns (ghost more: seq<nat>)
      requires Inv(r) && 0 < h <= j < |cur| && r == Rotated(cur, h, j) && |r| == |cur| && r[h - 1] == prev == cur[h - 1]
      requires header == cur[h]
      requires (forall b :: b in r <==> b in cur) && prev < |succs| && succs[prev] == [header] && header != EXIT_BLOCK
      requires WovenAt(succs, r, h - 1)
      modifies `succs, `part, `aux, `visited, `heapOf, `startOf, `endOf, `orig
      ensures Inv(more) && more != [] && more[0] == r[0] && Last(more) == Last(r) && Same(old(visited), old(heapOf))
      ensures Turned(cur, h, more, |old(aux)|) && |aux| == |old(aux)| + 1
      ensures HeaderCopied(old(succs), old(part), prev, header)
      ensures Woven(succs, more) && Counts(|cur|, more, |succs0|)
    {
      hide InvWith, Rotated, Inserted, WovenAt, Woven;
      InvFacts(r);
      IsDistinct(r);
      assert header in cur && prev in cur && r[0] in r;
      CopiedWoven(succs, r, h, header);
      var new_bb := CopyBb(r, h - 1, succs[prev][0], prev, 0, prev);
      CopyEnds(r, h, new_bb, |cur|);
      more := Inserted(r, h - 1, new_bb);
      IsWoven(succs, more, h);
      CopyCounts(r, h - 1, new_bb, |succs0|);
      InvFacts(more);
    }

    /** The block of the loop that the best edge out of the trace comes from. */
    method FindTail(ghost cur: seq<nat>, ghost h: nat, header: nat, bb: nat) returns (best: nat, found: bool,
                    ghost j: nat)
      requires Looped(aux, cur, h) && header == cur[h] && bb == Last(cur)
      ensures h <= j < |cur| && best == cur[j] && (!found ==> j == |cur| - 1)
    {
      var b := header;
      ghost var k: nat := h;
      best, found, j := bb, false, |cur| - 1;
      while true
        invariant h <= k < |cur| && b == cur[k] && h <= j < |cur| && best == cur[j] && (!found ==> j == |cur| - 1)
        decreases |cur| - k
      {
        if * {
          best, found, j := b, true, k;
        }
        LoopNext(aux, cur, h, k);
        b := aux[b];
        if b == header {
          break;
        }
        k := k + 1;
      }
    }

    /** The search for the block that leads into the loop. */
    method FindBefore(ghost cur: seq<nat>, ghost h: nat, first: nat, header: nat) returns (prev: nat)
      requires Looped(aux, cur, h) && 0 < h && first == cur[0] && header == cur[h]
      ensures prev == cur[h - 1]
    {
      prev := first;
      ghost var q := 0;
      assert LoopAt(aux, cur, h, 0);
      while aux[prev] != header
        invariant q < h && prev == cur[q] && prev < |aux| && aux[prev] == cur[q + 1]
        decreases h - q
      {
        prev := aux[prev];
        q := q + 1;
        assert LoopAt(aux, cur, h, q);
      }
    }

    /** Relinking the blocks of the current trace among themselves. */
    lemma Reordered(aux0: seq<int>, cur: seq<nat>, r: seq<nat>)
      requires InvWith(aux0, cur) && cur != [] && r != [] && |aux| == |aux0| && Chained(aux, r)
      requires forall b :: b in r <==> b in cur
      requires forall b :: 0 <= b < |aux| && b !in cur ==> aux[b] == aux0[b]
      ensures Inv(r)
    {
      hide Chained, Edges, Owned, AllChained, AllUniform, Uniform, Ends, Seen, InTrace, Untouched, Heaps, Shaped;
      OwnedSame(visited, chains, cur, r);
      UniformSame(part, cur, r);
      forall t, b | 0 <= t < |chains| && b in chains[t] && b < |aux0| ensures aux[b] == aux0[b] {
        if b in cur {
          InCur(visited, chains, cur, b);
          NotFinished(visited, chains, cur, b);
        }
      }
      AllKept(aux0, aux, chains);
      forall b | 0 <= b < |visited| && visited[b] == 0 ensures aux[b] == aux0[b] {
        if b in cur { InCur(visited, chains, cur, b); }
      }
      UntouchedKept(visited, aux0, succs, succs0, visited, aux, succs);
    }

    /** rotate_loop: the tail of the trace from header on is a loop, closed by the edge from bb. */
    method RotateLoop(ghost cur: seq<nat>, ghost h: nat, first: nat, header: nat, bb: nat)
      returns (newFirst: nat, last: nat, ghost r: seq<nat>)
      requires Inv(cur) && h < |cur| && header == cur[h] && first == cur[0] && bb == Last(cur) && Along(succs, cur)
      requires header != EXIT_BLOCK && bb < |succs| && header in succs[bb]
      modifies `succs, `part, `aux, `visited, `heapOf, `startOf, `endOf, `orig
      ensures Inv(r) && r != [] && newFirst == r[0] && last == Last(r) && Same(old(visited), old(heapOf))
      ensures Turned(cur, h, r, |old(aux)|) && (h > 0 ==> newFirst == first)
      ensures |aux| == |old(aux)| ==> succs == old(succs) && part == old(part)
      ensures |aux| != |old(aux)| ==> h > 0 && HeaderCopied(old(succs), old(part), cur[h - 1], header)
      ensures Woven(succs, r) && Counts(|cur|, r, |succs0|)
    {
      hide Chained, Looped, Distinct, Edges, Owned, AllChained, AllUniform, Uniform, Ends, Seen, InTrace, Untouched,
        Heaps, Along, Rotated, Inserted, Shaped, WovenAt, Woven, Counts, Sourced, Reachable, Originals, ExitLeft;
      ghost var aux0 := aux;
      IsDistinct(cur);
      CloseLoop(aux, cur, h);
      aux := aux[bb := header];
      ghost var looped := aux;
      var best, found;
      ghost var j;
      best, found, j := FindTail(cur, h, header, bb);
      newFirst, last := first, best;
      r := Rotated(cur, h, j);
      CutLoop(aux, cur, h, j);
      RotatedHead(aux, cur, h, j);
      var prev: int := NONE;
      if !found {
        // We have not found suitable loop tail so do no rotation.
        NoCut(aux, cur, h);
      } else if header == first {
        newFirst := aux[best];
      } else {
        prev := FindBefore(cur, h, first, header);
        aux := aux[prev := aux[best]];
      }
      aux := aux[best := NONE];
      Reordered(aux0, cur, r);
      TurnedOnly(cur, h, j, |aux0|);
      RotatedWoven(succs, cur, h, j);
      IsWoven(succs, r, h - 1);
      AllCounted(r, |succs0|);
      if prev != NONE && |succs[prev]| == 1 {
        // HEADER may be small enough to be duplicated.
        if * {
          SingleEdge(succs, cur, h);
          r := CopyHeader(cur, h, j, r, prev, header);
        }
      }
    }

    lemma SameFacts(visited0: seq<nat>, heapOf0: seq<nat>, extra: seq<nat>, round: nat, rounds: nat)
      requires Same(visited0, heapOf0) && |visited0| >= |succs0| >= NUM_FIXED_BLOCKS
      requires Closed(succs0, visited0, heapOf0, extra, -1) && HeapRange(heapOf0, round, rounds)
      ensures Closed(succs0, visited, heapOf, extra, -1) && HeapRange(heapOf, round, rounds)
      ensures Progress(visited0, heapOf0, visited, heapOf)
    {
      ClosedKept(succs0, visited0, heapOf0, visited, heapOf, extra, -1);
    }

    lemma FinishFacts(visited0: seq<nat>, n0: nat)
      requires n0 <= |visited0| <= |visited| && forall b :: 0 <= b < |visited0| ==> visited[b] == visited0[b]
      ensures Seen(visited, n0) == Seen(visited0, n0)
    {
    }

    /** Move on to the block chosen as the next of the trace. */
    method Advance(ghost cur: seq<nat>, bb: nat, next: nat, ghost dest: nat, ghost round: nat, ghost rounds: nat)
      returns (ghost more: seq<nat>)
      requires Inv(cur) && cur != [] && bb == Last(cur) && bb < |succs0| && succs[bb] == succs0[bb]
      requires next in succs[bb] && Along(succs, cur)
      requires Closed(succs0, visited, heapOf, [dest], -1) && HeapRange(heapOf, round, rounds)
      requires NUM_FIXED_BLOCKS <= next < |visited| && visited[next] == 0 && next < |part| && bb < |part|
      requires part[next] == part[bb]
      requires next == dest || (next < |succs| && succs[next] == [dest])
      modifies `aux, `visited, `heapOf
      ensures more == cur + [next] && Inv(more) && Along(succs, more)
      ensures next < |succs0| && succs[next] == succs0[next] && Progress(old(visited), old(heapOf), visited, heapOf)
      ensures Closed(succs0, visited, heapOf, succs0[next], next) && HeapRange(heapOf, round, rounds)
      ensures Seen(old(visited), |succs0|) < Seen(visited, |succs0|)
    {
      hide InvWith, Closed, HeapRange, Along, Seen;
      InvFacts(cur);
      assert bb in cur;
      SeenStart(visited, |succs0|, next, |traces| + 1);
      ClosedNext(succs0, visited, heapOf, dest, next, |traces| + 1);
      RangeKept(heapOf, next, round, rounds);
      ProgressTo(visited, heapOf, next, |traces| + 1);
      AlongMore(succs, cur, next);
      ReachableNext(succs0, visited, heapOf, bb, next);
      Extend(cur, bb, next);
      more := cur + [next];
    }

    /** The best successor is already in the trace: rotate the loop, or duplicate its header. */
    method CloseTrace(ghost cur: seq<nat>, first: nat, bb: nat, best: nat, length: nat, ghost round: nat,
                      ghost rounds: nat)
      returns (newFirst: nat, last: nat, newLength: nat, ghost r: seq<nat>)
      requires Inv(cur) && cur != [] && first == cur[0] && bb == Last(cur) && bb < |succs| && Along(succs, cur)
      requires best < |succs[bb]| && succs[bb][best] < |visited| && visited[succs[bb][best]] == |traces| + 1
      requires succs[bb][best] != EXIT_BLOCK && length == |cur|
      requires Closed(succs0, visited, heapOf, [], -1) && HeapRange(heapOf, round, rounds)
      modifies `succs, `part, `aux, `visited, `heapOf, `startOf, `endOf, `orig
      ensures Inv(r) && r != [] && newFirst == r[0] && last == Last(r)
      ensures Closed(succs0, visited, heapOf, [], -1) && HeapRange(heapOf, round, rounds)
      ensures Seen(visited, |succs0|) == Seen(old(visited), |succs0|)
      ensures Progress(old(visited), old(heapOf), visited, heapOf)
      ensures first == entryNext ==> newFirst == first
      ensures Woven(succs, r) && Counts(newLength, r, |succs0|)
    {
      hide InvWith, Closed, HeapRange, Along, Seen, Woven, Counts, Reachable, Edges, Originals, Inserted, Turned,
        Redirected, Sourced;
      InvFacts(cur);
      IsDistinct(cur);
      AlongWoven(succs, cur);
      AllCounted(cur, |succs0|);
      ghost var visited0, heap0 := visited, heapOf;
      newFirst, last, newLength, r := first, bb, length, cur;
      var header := succs[bb][best];
      assert bb in cur && header in cur;
      if header != bb {
        // The number of iterations of the loop decides.
        if * {
          if header != entryNext {
            ghost var h :| 0 <= h < |cur| && cur[h] == header;
            newFirst, last, r := RotateLoop(cur, h, first, header, bb);
          }
        } else if * {
          if |succs[bb]| == 1 {
            CopyAlong(succs, cur, best, header);
            last := CopyBb(cur, |cur| - 1, header, bb, best, bb);
            newLength := length + 1;
            CopyLast(cur, last);
            r := Inserted(cur, |cur| - 1, last);
            AlongWoven(succs, r);
            AllCounted(r, |succs0|);
          }
        }
      }
      SameFacts(visited0, heap0, [], round, rounds);
      FinishFacts(visited0, |succs0|);
    }

    /** Choose the successor to go on with, and take care of the others. */
    method Choose(ghost cur: seq<nat>, bb: nat, round: nat, rounds: nat) returns (best: int)
      requires Inv(cur) && Sizes() && cur != [] && bb == Last(cur) && bb < |succs0| && bb < |succs|
      requires succs[bb] == succs0[bb]
      requires Closed(succs0, visited, heapOf, succs0[bb], bb) && HeapRange(heapOf, round, rounds)
      modifies `heapOf
      ensures Inv(cur) && HeapRange(heapOf, round, rounds) && Progress(visited, old(heapOf), visited, heapOf)
      ensures best == NONE || (0 <= best < |succs[bb]| && Selectable(bb, succs[bb][best]))
      ensures if best != NONE && visited[succs[bb][best]] == 0 then
        Closed(succs0, visited, heapOf, [succs[bb][best]], -1)
              else Closed(succs0, visited, heapOf, [], -1)
    {
      hide InvWith, Closed, HeapRange, Seen;
      InvFacts(cur);
      assert bb in cur;
      best := SelectBest(bb);
      ghost var heap0 := heapOf;
      AddSuccessors(cur, bb, best, round, rounds);
      ClosedKept(succs0, visited, heap0, visited, heapOf, succs0[bb], bb);
      forall k | 0 <= k < |succs0[bb]| && k != best ensures Settled(visited, heapOf, succs0[bb][k]) {
        assert Settled(visited, heapOf, succs[bb][k]);
      }
      ClosedStep(succs0, visited, heapOf, bb, best);
      if best != NONE && visited[succs[bb][best]] != 0 {
        ClosedFull(succs0, visited, heapOf, succs[bb][best]);
      }
    }

    /** The first block of a trace. */
    method StartTrace(start: nat, ghost round: nat, ghost rounds: nat)
      requires Inv([]) && ENTRY_BLOCK < start < |succs0| && visited[start] == 0 && Reachable(succs0, start)
      requires start == EXIT_BLOCK ==> EXIT_BLOCK in succs0[ENTRY_BLOCK]
      requires Closed(succs0, visited, heapOf, [start], -1) && HeapRange(heapOf, round, rounds)
      modifies `aux, `visited, `heapOf
      ensures Inv([start]) && Sizes() && start < |succs| && succs[start] == succs0[start] && Along(succs, [start])
      ensures Closed(succs0, visited, heapOf, succs0[start], start) && HeapRange(heapOf, round, rounds)
      ensures Progress(old(visited), old(heapOf), visited, heapOf) && visited[start] != 0
      ensures Seen(old(visited), |succs0|) < Seen(visited, |succs0|)
    {
      hide InvWith, Closed, HeapRange, Along, Seen;
      InvFacts([]);
      SeenStart(visited, |succs0|, start, |traces| + 1);
      ClosedNext(succs0, visited, heapOf, start, start, |traces| + 1);
      RangeKept(heapOf, start, round, rounds);
      ProgressTo(visited, heapOf, start, |traces| + 1);
      Extend([], NONE, start);
      assert [] + [start] == [start];
      AlongStart(succs, start);
      InvFacts([start]);
    }

    /** The do-while loop of find_traces_1_round, begun with block start. */
    method GrowTrace(start: nat, round: nat, rounds: nat)
      returns (first: nat, last: nat, length: nat, ghost cur: seq<nat>)
      requires Inv([start]) && start < |succs0| && start < |succs| && succs[start] == succs0[start]
      requires Along(succs, [start])
      requires Closed(succs0, visited, heapOf, succs0[start], start) && HeapRange(heapOf, round, rounds)
      modifies `succs, `part, `aux, `visited, `heapOf, `startOf, `endOf, `orig
      ensures Inv(cur) && cur != [] && first == cur[0] && last == Last(cur) && (start == entryNext ==> first == start)
      ensures Woven(succs, cur) && Counts(length, cur, |succs0|)
      ensures Closed(succs0, visited, heapOf, [], -1) && HeapRange(heapOf, round, rounds)
      ensures Seen(old(visited), |succs0|) <= Seen(visited, |succs0|)
      ensures Progress(old(visited), old(heapOf), visited, heapOf)
    {
      hide InvWith, Closed, HeapRange, Along, Seen, Reachable, Originals, Progress, Edges, Targets, Woven, Counts,
        Shaped;
      var bb := start;
      first, last, length, cur := start, start, 1, [start];
      InvFacts(cur);
      ProgressSame(visited, heapOf);
      while true
        invariant Inv(cur) && Sizes() && cur != [] && first == cur[0] && bb == Last(cur) && bb < |succs0|
        invariant bb < |succs| && succs[bb] == succs0[bb]
        invariant Along(succs, cur) && Closed(succs0, visited, heapOf, succs0[bb], bb)
        invariant HeapRange(heapOf, round, rounds) && first == start && length == |cur|
        invariant Seen(old(visited), |succs0|) <= Seen(visited, |succs0|)
        invariant Progress(old(visited), old(heapOf), visited, heapOf)
        decreases |succs0| - |Seen(visited, |succs0|)|
      {
        label Turn:
        var best := Choose(cur, bb, round, rounds);
        ProgressTrans(old(visited), old(heapOf), visited, old@Turn(heapOf), visited, heapOf);
        ghost var heap1 := heapOf;
        InvFacts(cur);
        if best == NONE {
          AlongWoven(succs, cur);
          AllCounted(cur, |succs0|);
          last := bb;
          break;
        }
        var dest := succs[bb][best];
        if visited[dest] == |traces| + 1 {
          first, last, length, cur := CloseTrace(cur, first, bb, best, length, round, rounds);
          ProgressTrans(old(visited), old(heapOf), old@Turn(visited), heap1, visited, heapOf);
          break;
        }
        var next := Diamond(bb, best);
        NotFixed(succs, bb, next);
        SeenBound(visited, |succs0|);
        cur := Advance(cur, bb, next, dest, round, rounds);
        SeenLess(old@Turn(visited), visited, |succs0|);
        ProgressTrans(old(visited), old(heapOf), old@Turn(visited), heap1, visited, heapOf);
        InvFacts(cur);
        bb := next;
        length := length + 1;
      }
    }

    /** One turn of find_traces_1_round: build the trace that starts in block start. */
    method BuildTrace(start: nat, round: nat, rounds: nat)
      requires Inv([]) && ENTRY_BLOCK < start < |succs0| && visited[start] == 0 && Reachable(succs0, start)
      requires start == EXIT_BLOCK ==> EXIT_BLOCK in succs0[ENTRY_BLOCK]
      requires Closed(succs0, visited, heapOf, [start], -1) && HeapRange(heapOf, round, rounds)
      modifies this
      ensures Inv([]) && Closed(succs0, visited, heapOf, [], -1) && HeapRange(heapOf, round, rounds)
      ensures |traces| == |old(traces)| + 1 && Seen(old(visited), |succs0|) < Seen(visited, |succs0|)
      ensures start < |visited| && visited[start] != 0 && Progress(old(visited), old(heapOf), visited, heapOf)
      ensures traces[..|old(traces)|] == old(traces) && (start == entryNext ==> traces[|old(traces)|].first == start)
      ensures traces[|old(traces)|].round == round
    {
      hide InvWith, Closed, HeapRange, Along, Seen, Reachable, Originals, Progress, Edges, Woven, Counts, Shaped;
      StartTrace(start, round, rounds);
      ghost var visited1, heap1 := visited, heapOf;
      var first, last, length;
      ghost var cur;
      first, last, length, cur := GrowTrace(start, round, rounds);
      ProgressTrans(old(visited), old(heapOf), visited1, heap1, visited, heapOf);
      InvFacts(cur);
      Finish(cur, first, last, round, length);
    }

    /** If the entry leads to the block that follows it, and to no other, the first trace starts there. */
    ghost predicate Foremost()
      reads `heapOf, `traces
    {
      |succs0| > 0 && succs0[ENTRY_BLOCK] == [entryNext] ==>
        if traces == [] then forall b :: 0 <= b < |heapOf| && heapOf[b] != 0 ==> b == entryNext
        else traces[0].first == entryNext
    }

    /** Before the first trace some block waits in a heap, if the entry leads anywhere. */
    ghost predicate Waiting()
      reads `heapOf, `traces
    {
      |succs0| > 0 && succs0[ENTRY_BLOCK] != [] && traces == [] ==> exists b :: 0 <= b < |heapOf| && heapOf[b] != 0
    }

    /** The exit block waits for its turn like any other successor of the entry. */
    ghost predicate ExitComes()
      reads `visited, `heapOf
    {
      |succs0| > EXIT_BLOCK && EXIT_BLOCK in succs0[ENTRY_BLOCK] ==>
        EXIT_BLOCK < |visited| && EXIT_BLOCK < |heapOf| && (visited[EXIT_BLOCK] != 0 || heapOf[EXIT_BLOCK] != 0)
    }

    /** find_traces_1_round: empty the heap of this round. */
    method OneRound(round: nat, rounds: nat)
      requires Inv([]) && Closed(succs0, visited, heapOf, [], -1) && HeapRange(heapOf, round, rounds) && Foremost()
      requires Waiting() && ExitComes() && ByRounds(traces, round)
      modifies this
      ensures Inv([]) && Closed(succs0, visited, heapOf, [], -1) && HeapRange(heapOf, round, rounds) && Foremost()
      ensures Waiting() && ExitComes() && ByRounds(traces, round)
      ensures forall b :: 0 <= b < |heapOf| ==> heapOf[b] != round + 1
    {
      hide Closed, Seen, InHeap, Untouched, Owned, AllChained, AllUniform, Ends, Edges, HeapRange, Settled, Reachable,
        Shaped, Originals, Sourced, ByRounds;
      while exists b :: 0 <= b < |heapOf| && heapOf[b] == round + 1
        invariant Inv([]) && Closed(succs0, visited, heapOf, [], -1) && HeapRange(heapOf, round, rounds) && Foremost()
        invariant Waiting() && ExitComes() && ByRounds(traces, round)
        decreases |succs0| - |Seen(visited, |succs0|)|, |InHeap(heapOf, round + 1)|
      {
        label Turn:
        SeenBound(visited, |succs0|);
        // fibheap_extract_min
        var bb: nat :| bb < |heapOf| && heapOf[bb] == round + 1;
        ghost var heap0 := heapOf;
        if round + 1 < rounds {
          // push_to_next_round_p decides.
          if * {
            PutOff(succs0, visited, heapOf, bb, round, rounds);
            SourcedLess(succs0, visited, heapOf, bb);
            SourcedMore(succs0, visited, heapOf, bb, visited[bb], round + 2);
            assert visited[bb := visited[bb]] == visited;
            heapOf := heapOf[bb := round + 2];
            assert heapOf[bb] != 0;
            continue;
          }
        }
        TakeOut(succs0, visited, heapOf, bb, round, rounds);
        SourcedLess(succs0, visited, heapOf, bb);
        heapOf := heapOf[bb := 0];
        ghost var before := traces;
        BuildTrace(bb, round, rounds);
        ByRoundsMore(before, traces, round);
        SeenLess(old@Turn(visited), visited, |succs0|);
      }
    }

    /** find_traces. */
    method FindTraces(rounds: nat)
      requires rounds > 0 && Inv([]) && traces == [] && |heapOf| == |succs0|
      requires forall b :: 0 <= b < |succs0| ==> heapOf[b] == 0 && visited[b] == 0
      modifies this
      ensures Inv([]) && Foremost() && (succs0[ENTRY_BLOCK] != [] ==> traces != [])
      ensures |traces| <= |Seen(visited, |succs0|)| <= |succs0|
      ensures Shaped(succs, traces, chains, |succs0|) && ByRounds(traces, rounds - 1)
      ensures forall b: nat :: b < |succs0| ==>
        (visited[b] != 0 <==> Reachable(succs0, b) && (b == EXIT_BLOCK ==> EXIT_BLOCK in succs0[ENTRY_BLOCK]))
    {
      hide Closed, Seen, Untouched, Owned, AllChained, AllUniform, Ends, HeapRange, Settled, Shaped, Originals,
        ByRounds, Reachable;
      var k := 0;
      while k < |succs0[ENTRY_BLOCK]|
        invariant 0 <= k <= |succs0[ENTRY_BLOCK]| && Inv([]) && |heapOf| == |succs0|
        invariant forall b :: 0 <= b < |heapOf| ==> heapOf[b] == 0 || heapOf[b] == 1
        invariant forall l :: 0 <= l < k ==> heapOf[succs0[ENTRY_BLOCK][l]] != 0
        invariant forall b :: 0 <= b < |succs0| ==> visited[b] == 0
        invariant traces == [] && Foremost()
      {
        ReachableFirst(succs0, k);
        SourcedMore(succs0, visited, heapOf, succs0[ENTRY_BLOCK][k], 0, 1);
        heapOf := heapOf[succs0[ENTRY_BLOCK][k] := 1];
        k := k + 1;
      }
      EntryClosed(succs0, visited, heapOf);
      if succs0[ENTRY_BLOCK] != [] { assert heapOf[succs0[ENTRY_BLOCK][0]] != 0; }
      FirstRange(heapOf, rounds);
      ByRoundsNone(0);
      ByRoundsNone(rounds - 1);
      var i: nat := 0;
      while i < rounds
        invariant 0 <= i <= rounds && Inv([]) && Closed(succs0, visited, heapOf, [], -1) && Foremost() && Waiting()
        invariant ExitComes() && ByRounds(traces, i) && ByRounds(traces, rounds - 1)
        invariant i < rounds ==> HeapRange(heapOf, i, rounds)
        invariant i == rounds ==> forall b :: 0 <= b < |heapOf| ==> heapOf[b] == 0
      {
        OneRound(i, rounds);
        ByRoundsLater(traces, i, rounds - 1);
        ByRoundsLater(traces, i, i + 1);
        NextRange(heapOf, i, rounds);
        i := i + 1;
      }
      SeenBound(visited, |succs0|);
      forall b: nat | b < |succs0| && Reachable(succs0, b) ensures b == EXIT_BLOCK || visited[b] != 0 {
        AllReached(succs0, visited, heapOf, b);
      }
    }
  }
}
