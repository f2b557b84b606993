/** Connecting the traces into one chain (bb-reorder.c). */
module Connections {
  import opened Helpers
  import opened Chains
  import opened FlowGraphs
  import opened Traces

  /** The blocks of the traces in order, one trace after the other. */
  ghost function Flatten(cs: seq<seq<nat>>, order: seq<nat>): seq<nat> {
    if order == [] then [] else (if order[0] < |cs| then cs[order[0]] else []) + Flatten(cs, order[1..])
  }

  lemma {:induction false} FlattenJoin(cs: seq<seq<nat>>, s: seq<nat>, t: seq<nat>)
    ensures Flatten(cs, s + t) == Flatten(cs, s) + Flatten(cs, t)
  {
    if s == [] {
      assert s + t == t;
    } else {
      assert (s + t)[1..] == s[1..] + t;
      FlattenJoin(cs, s[1..], t);
    }
  }

  lemma FlattenOne(cs: seq<seq<nat>>, t: nat)
    requires t < |cs|
    ensures Flatten(cs, [t]) == cs[t]
  {
    assert Flatten(cs, [t][1..]) == [];
  }

  lemma {:induction false} FlattenHas(cs: seq<seq<nat>>, order: seq<nat>, b: nat)
    ensures b in Flatten(cs, order) <==> exists k :: 0 <= k < |order| && order[k] < |cs| && b in cs[order[k]]
  {
    if order != [] {
      FlattenHas(cs, order[1..], b);
      if k :| 0 <= k < |order| && order[k] < |cs| && b in cs[order[k]] {
        assert k > 0 ==> order[1..][k - 1] == order[k];
      }
      if k :| 0 <= k < |order[1..]| && order[1..][k] < |cs| && b in cs[order[1..][k]] {
        assert order[k + 1] == order[1..][k];
      }
    }
  }

  lemma {:induction false} FlattenSame(cs: seq<seq<nat>>, cs': seq<seq<nat>>, order: seq<nat>)
    requires |cs| == |cs'| && forall k :: 0 <= k < |order| && order[k] < |cs| ==> cs'[order[k]] == cs[order[k]]
    ensures Flatten(cs', order) == Flatten(cs, order)
  {
    if order != [] {
      FlattenSame(cs, cs', order[1..]);
    }
  }

  /** No block is on two traces. */
  ghost predicate Apart(cs: seq<seq<nat>>) {
    forall t, u, b :: 0 <= t < |cs| && 0 <= u < |cs| && t != u && b in cs[t] ==> b !in cs[u]
  }

  /** The traces in order make up one chain. */
  ghost predicate Whole(aux: seq<int>, cs: seq<seq<nat>>, order: seq<nat>) {
    order != [] ==> Chained(aux, Flatten(cs, order))
  }

  /** A trace that is not connected is still a chain of its own. */
  ghost predicate Free(aux: seq<int>, cs: seq<seq<nat>>, connected: seq<bool>) {
    |connected| == |cs| && forall t :: 0 <= t < |cs| && !connected[t] ==> Chained(aux, cs[t])
  }

  ghost predicate Heads(traces: seq<Trace>, cs: seq<seq<nat>>) {
    |traces| == |cs| && forall t: nat :: t < |cs| ==> TraceEnds(traces, cs, t)
  }

  ghost predicate Starts(startOf: seq<int>, traces: seq<Trace>) {
    forall b :: 0 <= b < |startOf| && startOf[b] >= 0 ==> startOf[b] < |traces| && traces[startOf[b]].first == b
  }

  ghost predicate Stops(endOf: seq<int>, traces: seq<Trace>, connected: seq<bool>) {
    |connected| == |traces| && forall b :: 0 <= b < |endOf| && endOf[b] >= 0 ==>
      endOf[b] < |traces| && (!connected[endOf[b]] ==> traces[endOf[b]].last == b)
  }

  /** order holds the connected traces, each once. */
  ghost predicate Members(connected: seq<bool>, order: seq<nat>) {
    && Distinct(order) && (forall t :: t in order ==> t < |connected|)
    && forall t: nat :: t < |connected| ==> (connected[t] <==> t in order)
  }

  /** Two groups of traces without a common one have no common block. */
  lemma FlattenApart(cs: seq<seq<nat>>, s: seq<nat>, t: seq<nat>)
    requires Apart(cs) && forall x :: x in s ==> x !in t
    ensures forall b :: b in Flatten(cs, s) ==> b !in Flatten(cs, t)
  {
    forall b | b in Flatten(cs, s) ensures b !in Flatten(cs, t) {
      FlattenHas(cs, s, b);
      FlattenHas(cs, t, b);
      var k :| 0 <= k < |s| && s[k] < |cs| && b in cs[s[k]];
      assert s[k] in s;
    }
  }

  lemma WholeKept(aux: seq<int>, aux': seq<int>, cs: seq<seq<nat>>, order: seq<nat>)
    requires Whole(aux, cs, order) && |aux| <= |aux'|
    requires forall b :: b in Flatten(cs, order) && b < |aux| ==> aux'[b] == aux[b]
    ensures Whole(aux', cs, order)
  {
    hide Chained;
    if order != [] { ChainKept(aux, aux', Flatten(cs, order)); }
  }

  lemma FreeKept(aux: seq<int>, aux': seq<int>, cs: seq<seq<nat>>, connected: seq<bool>)
    requires Free(aux, cs, connected) && |aux| <= |aux'|
    requires forall t, b :: 0 <= t < |cs| && !connected[t] && b in cs[t] && b < |aux| ==> aux'[b] == aux[b]
    ensures Free(aux', cs, connected)
  {
    hide Chained;
    forall t | 0 <= t < |cs| && !connected[t] ensures Chained(aux', cs[t]) {
      ChainKept(aux, aux', cs[t]);
    }
  }

  /** Linking the chain of s to the chain of t. */
  lemma LinkGroups(aux: seq<int>, cs: seq<seq<nat>>, s: seq<nat>, t: seq<nat>)
    requires Apart(cs) && s != [] && t != [] && Whole(aux, cs, s) && Whole(aux, cs, t) && forall x :: x in s ==> x !in t
    ensures Flatten(cs, s) != [] && Flatten(cs, t) != [] && Last(Flatten(cs, s)) < |aux|
    ensures Whole(aux[Last(Flatten(cs, s)) := Flatten(cs, t)[0]], cs, s + t)
  {
    var c, d := Flatten(cs, s), Flatten(cs, t);
    FlattenApart(cs, s, t);
    forall i, j | 0 <= i < |c| && 0 <= j < |d| ensures c[i] != d[j] {
      assert c[i] in c && d[j] in d;
    }
    ChainJoin(aux, c, d);
    FlattenJoin(cs, s, t);
  }

  /** The first block of a group is the first of its first trace, and the last that of its last. */
  lemma GroupEnds(traces: seq<Trace>, cs: seq<seq<nat>>, s: seq<nat>)
    requires Heads(traces, cs) && s != [] && forall x :: x in s ==> x < |cs|
    ensures Flatten(cs, s) != [] && Last(s) < |cs| && s[0] < |cs|
    ensures Flatten(cs, s)[0] == traces[s[0]].first && Last(Flatten(cs, s)) == traces[Last(s)].last
  {
    var l := Last(s);
    assert s[0] in s && l in s && TraceEnds(traces, cs, s[0]) && TraceEnds(traces, cs, l);
    assert s == s[..|s| - 1] + [l];
    FlattenJoin(cs, s[..|s| - 1], [l]);
    FlattenOne(cs, l);
  }

  ghost predicate Inside(n: nat, cs: seq<seq<nat>>) {
    forall t, b :: 0 <= t < |cs| && b in cs[t] ==> ENTRY_BLOCK < b < n
  }

  ghost predicate GrownBy(c0: seq<nat>, c: seq<nat>, n0: nat) {
    c0 <= c && forall k :: |c0| <= k < |c| ==> c[k] >= n0
  }

  /** cs are the traces cs0, some of them extended by blocks that did not exist before. */
  ghost predicate Grown(cs0: seq<seq<nat>>, cs: seq<seq<nat>>, n0: nat) {
    |cs| == |cs0| && forall t :: 0 <= t < |cs| ==> GrownBy(cs0[t], cs[t], n0)
  }

  ghost function Loose(connected: seq<bool>): set<nat> {
    set t: nat | t < |connected| && !connected[t]
  }

  lemma Tighter(connected: seq<bool>, t: nat)
    requires t < |connected| && !connected[t]
    ensures |Loose(connected[t := true])| < |Loose(connected)|
  {
    assert t in Loose(connected);
    assert Loose(connected[t := true]) == Loose(connected) - {t};
  }

  lemma MembersPut(connected: seq<bool>, w: seq<nat>, x: nat, u: seq<nat>)
    requires Members(connected, w) && x < |connected| && !connected[x] && Distinct(u)
    requires forall y :: y in u <==> y in w || y == x
    ensures Members(connected[x := true], u)
  {
  }

  lemma MembersMore(connected: seq<bool>, s: seq<nat>, t: seq<nat>, x: nat)
    requires Members(connected, s + t) && x < |connected| && !connected[x]
    ensures Members(connected[x := true], s + ([x] + t)) && Members(connected[x := true], s + t + [x])
    ensures x !in s && x !in t
  {
    var w, u, v := s + t, s + ([x] + t), s + t + [x];
    assert forall y :: y in w <==> y in s || y in t;
    assert x !in w;
    forall i | 0 <= i < |u| ensures u[i] == if i < |s| then w[i] else if i == |s| then x else w[i - 1] {
    }
    forall i, j | 0 <= i < j < |u| ensures u[i] != u[j] {
      var i', j' := if i < |s| then i else i - 1, if j < |s| then j else j - 1;
      if i == |s| {
        assert w[j'] in w;
      } else if j == |s| {
        assert w[i'] in w;
      } else {
        assert w[i'] != w[j'];
      }
    }
    assert forall i :: 0 <= i < |w| ==> w[i] in w;
    MembersPut(connected, w, x, u);
    MembersPut(connected, w, x, v);
  }

  lemma MembersMove(connected: seq<bool>, s: seq<nat>, t: seq<nat>)
    requires Members(connected, s + t)
    ensures Members(connected, (s + t) + [])
    ensures forall x :: x in s ==> x !in t
    ensures forall x :: x in s || x in t ==> x < |connected| && connected[x]
  {
    assert (s + t) + [] == s + t;
    var u := s + t;
    assert forall x :: x in u <==> x in s || x in t;
    forall x | x in s ensures x !in t {
      var i :| 0 <= i < |s| && s[i] == x;
      assert u[i] == x;
      forall j | 0 <= j < |t| ensures t[j] != x {
        assert u[|s| + j] == t[j];
      }
    }
  }

  const HOT_PARTITION: nat := 1
  const COLD_PARTITION: nat := 2

  function Other(p: nat): nat {
    if p == HOT_PARTITION then COLD_PARTITION else HOT_PARTITION
  }

  /** The partition of the first block of trace t. */
  ghost function PartOf(part: seq<nat>, cs: seq<seq<nat>>, t: int): nat {
    if 0 <= t < |cs| && cs[t] != [] && cs[t][0] < |part| then part[cs[t][0]] else 0
  }

  /** Trace t is in the partition of the first trace, or in the one that has its turn after it. */
  ghost predicate InTwo(part: seq<nat>, cs: seq<seq<nat>>, t: int) {
    PartOf(part, cs, t) == PartOf(part, cs, 0) || PartOf(part, cs, t) == Other(PartOf(part, cs, 0))
  }

  /** Whether trace t, of partition p, has had its turn. */
  ghost predicate Due(two: bool, pass: int, i: nat, t: nat, p: nat, p1: nat) {
    if !two then t < i else if p == p1 then pass == 2 || t < i else p == Other(p1) && pass == 2 && t < i
  }

  ghost predicate WithinOne(part: seq<nat>, cs: seq<seq<nat>>, t: nat, p: nat) {
    t < |cs| && forall b :: b in cs[t] ==> b < |part| && part[b] == p
  }

  /** All blocks of the traces in s are in the partition p. */
  ghost predicate AllIn(part: seq<nat>, cs: seq<seq<nat>>, s: seq<nat>, p: nat) {
    forall t :: t in s ==> WithinOne(part, cs, t, p)
  }

  /** The traces of one partition come first, then those of the other. */
  ghost predicate TwoParts(part: seq<nat>, cs: seq<seq<nat>>, order: seq<nat>) {
    exists m, p :: 0 <= m <= |order| && AllIn(part, cs, order[..m], p) && AllIn(part, cs, order[m..], Other(p))
  }

  lemma NoneIn(part: seq<nat>, cs: seq<seq<nat>>, p: nat)
    ensures AllIn(part, cs, [][..0], p) && AllIn(part, cs, [][0..], Other(p))
  {
  }

  lemma Both(part: seq<nat>, cs: seq<seq<nat>>, s: seq<nat>, t: seq<nat>, p: nat)
    requires AllIn(part, cs, s, p) && AllIn(part, cs, t, p)
    ensures AllIn(part, cs, s + t, p)
  {
    forall x | x in s + t ensures WithinOne(part, cs, x, p) {
      assert x in s || x in t;
    }
  }

  lemma Joined(part: seq<nat>, cs: seq<seq<nat>>, order0: seq<nat>, order: seq<nat>, m: nat, m': nat, p1: nat, p: nat)
    requires m <= |order0| <= |order| && order0 <= order && AllIn(part, cs, order[|order0|..], p)
    requires AllIn(part, cs, order0[..m], p1) && AllIn(part, cs, order0[m..], Other(p1))
    requires (m == |order0| && m' == |order| && p == p1) || (m' == m && p == Other(p1))
    ensures AllIn(part, cs, order[..m'], p1) && AllIn(part, cs, order[m'..], Other(p1))
  {
    var tail := order[|order0|..];
    assert order == order0 + tail && order0 == order0[..m] + order0[m..];
    if m' == |order| && p == p1 && m == |order0| {
      assert order[..m'] == order0[..m] + tail && order[m'..] == order0[m..];
      Both(part, cs, order0[..m], tail, p1);
    } else {
      assert order[..m] == order0[..m] && order[m..] == order0[m..] + tail;
      Both(part, cs, order0[m..], tail, p);
    }
  }

  /** Block b is on one of the traces. */
  ghost predicate On(cs: seq<seq<nat>>, b: nat) {
    exists t :: 0 <= t < |cs| && b in cs[t]
  }

  /** Every block made by connect_traces is on a trace. */
  ghost predicate Copies(cs: seq<seq<nat>>, n0: nat, n: nat) {
    forall b: nat :: n0 <= b < n ==> On(cs, b)
  }

  lemma GrownCopy(cs0: seq<seq<nat>>, cs: seq<seq<nat>>, n0: nat, t: nat, b: nat)
    requires Grown(cs0, cs, n0) && t < |cs| && n0 <= b && Copies(cs, n0, b)
    ensures Grown(cs0, cs[t := cs[t] + [b]], n0) && Copies(cs[t := cs[t] + [b]], n0, b + 1)
  {
    assert GrownBy(cs0[t], cs[t], n0);
    assert GrownBy(cs0[t], cs[t] + [b], n0);
    var more := cs[t := cs[t] + [b]];
    forall x: nat | n0 <= x < b + 1 ensures On(more, x) {
      if x < b {
        assert On(cs, x);
        var u :| 0 <= u < |cs| && x in cs[u];
        assert x in more[u];
      } else {
        assert more[t][|cs[t]|] == b;
      }
    }
  }

  lemma LastIsNone(aux: seq<int>, c: seq<nat>)
    requires Chained(aux, c)
    ensures Last(c) < |aux| && aux[Last(c)] == NONE
  {
    assert LinkAt(aux, c, |c| - 1);
  }

  lemma FlattenCopy(cs: seq<seq<nat>>, order: seq<nat>, t: nat, b: nat)
    requires Distinct(order) && order != [] && t == Last(order) && t < |cs|
    ensures Flatten(cs[t := cs[t] + [b]], order) == Flatten(cs, order) + [b]
  {
    var init, cs' := order[..|order| - 1], cs[t := cs[t] + [b]];
    assert order == init + [t];
    FlattenJoin(cs, init, [t]);
    FlattenJoin(cs', init, [t]);
    FlattenOne(cs, t);
    FlattenOne(cs', t);
    forall k | 0 <= k < |init| ensures init[k] != t { assert order[k] == init[k]; }
    FlattenSame(cs, cs', init);
  }

  /** The connected chain and the loose traces after a copy has been added behind the last trace t. */
  lemma CopyChain(aux: seq<int>, cs: seq<seq<nat>>, connected: seq<bool>, traces: seq<Trace>, order: seq<nat>, t: nat)
    requires Apart(cs) && Inside(|aux|, cs) && Free(aux, cs, connected) && Heads(traces, cs)
    requires Members(connected, order)
    requires Whole(aux, cs, order) && order != [] && t == Last(order) && t < |cs| && connected[t] && |connected| == |cs|
    ensures traces[t].last < |aux|
    ensures
      var b: nat := |aux|;
      var last := traces[t].last;
      var aux', cs' := (aux + [aux[last]])[last := b], cs[t := cs[t] + [b]];
      && Apart(cs') && Inside(|aux'|, cs') && Free(aux', cs', connected) && Whole(aux', cs', order)
  {
    hide Chained;
    assert TraceEnds(traces, cs, t);
    var b: nat := |aux|;
    var last := traces[t].last;
    assert last in cs[t];
    var aux', cs' := (aux + [aux[last]])[last := b], cs[t := cs[t] + [b]];
    GroupEnds(traces, cs, order);
    var c := Flatten(cs, order);
    var longer := aux + [NONE];
    ChainKept(aux, longer, c);
    forall x | x in c ensures x < b {
      FlattenHas(cs, order, x);
    }
    ChainOne(longer, b);
    forall i, j | 0 <= i < |c| && 0 <= j < 1 ensures c[i] != [b][j] { assert c[i] in c; }
    ChainJoin(longer, c, [b]);
    LastIsNone(aux, c);
    assert aux' == longer[last := b];
    FlattenCopy(cs, order, t, b);
    forall u | 0 <= u < |cs'| && !connected[u] ensures Chained(aux', cs'[u]) {
      ChainKept(aux, aux', cs[u]);
    }
  }

  lemma EndsCopied(startOf: seq<int>, endOf: seq<int>, traces: seq<Trace>, connected: seq<bool>, t: nat,
                   cs: seq<seq<nat>>, b: nat)
    requires Starts(startOf, traces) && Stops(endOf, traces, connected) && Heads(traces, cs) && t < |traces|
    requires connected[t]
    ensures
      var traces', cs' := traces[t := traces[t].(last := b)], cs[t := cs[t] + [b]];
      Starts(startOf + [-1], traces') && Stops(endOf + [-1], traces', connected) && Heads(traces', cs')
  {
    var traces', cs' := traces[t := traces[t].(last := b)], cs[t := cs[t] + [b]];
    forall u: nat | u < |cs'| ensures TraceEnds(traces', cs', u) { assert TraceEnds(traces, cs, u); }
  }

  // ---- what joins the traces -------------------------------------------------------------------

  /** What the joints between traces depend on. The pass was given succs0, and has made the blocks from n0 on. */
  datatype Picture = Picture(succs: Graph, part: seq<nat>, traces: seq<Trace>, cs: seq<seq<nat>>, orig: seq<nat>,
                             succs0: Graph, n0: nat)

  /** Trace t ends with an edge to the start of trace u. */
  ghost predicate Direct(p: Picture, t: nat, u: nat) {
    && t < |p.traces| && u < |p.traces| && p.traces[t].last < |p.succs|
    && p.traces[u].first in p.succs[p.traces[t].last]
  }

  /** Block o is a trace, or duplicates of it are. */
  ghost predicate OneBlock(p: Picture, o: nat) {
    exists s: nat :: s < |p.traces| && p.traces[s].length == 1 && p.traces[s].first < |p.orig| &&
      p.orig[p.traces[s].first] == o
  }

  ghost predicate Beyond(succs0: Graph, a: nat, w: nat, c: nat)
    requires a < |succs0|
  {
    w in succs0[a] && w < |succs0| && c in succs0[w]
  }

  /** Trace t ends with a duplicate, made here, of a block that is a trace by itself; trace u starts behind some
      successor of the block before the duplicate, be it the duplicated one or not. */
  ghost predicate Stale(p: Picture, t: nat, u: nat) {
    && t < |p.cs| && u < |p.traces| && |p.cs[t]| >= 2 && p.traces[u].first < |p.orig|
    && var a, b := p.cs[t][|p.cs[t]| - 2], p.cs[t][|p.cs[t]| - 1];
       && a < |p.orig| && p.n0 <= b < |p.orig| && p.orig[a] < |p.succs0|
       && p.orig[b] in p.succs0[p.orig[a]] && OneBlock(p, p.orig[b])
       && exists w :: Beyond(p.succs0, p.orig[a], w, p.orig[p.traces[u].first])
  }

  ghost function PassOf(p: Picture, t: nat, flag: bool): nat {
    if flag then PartOf(p.part, p.cs, t) else 0
  }

  /** t is the least trace that its pass has not placed yet; with partitioning there is one pass for the partition of
      the first trace, and then one for the other. */
  ghost predicate IsSeed(p: Picture, placed: seq<nat>, t: nat, flag: bool) {
    && t < |p.traces| && t !in placed
    && (forall u: nat :: u < |p.traces| && u !in placed && PassOf(p, u, flag) == PassOf(p, t, flag) ==> t <= u)
    && (PassOf(p, t, flag) != PassOf(p, 0, flag) ==>
         && PassOf(p, t, flag) == Other(PassOf(p, 0, flag))
         && forall u: nat :: u < |p.traces| && PassOf(p, u, flag) == PassOf(p, 0, flag) ==> u in placed)
  }

  /** A group begins at s: traces each with an edge to the next, up to a seed. */
  ghost predicate Leads(p: Picture, order: seq<nat>, s: nat, e: nat, flag: bool) {
    && s <= e < |order| && IsSeed(p, order[..s], order[e], flag)
    && forall j :: s <= j < e ==> Direct(p, order[j], order[j + 1])
  }

  ghost predicate Begins(p: Picture, order: seq<nat>, s: nat, flag: bool) {
    exists e: nat :: Leads(p, order, s, e, flag)
  }

  ghost predicate Joint(p: Picture, order: seq<nat>, k: nat, flag: bool)
    requires k + 1 < |order|
  {
    Direct(p, order[k], order[k + 1]) || Stale(p, order[k], order[k + 1]) || Begins(p, order, k + 1, flag)
  }

  /** Every trace in order has a reason to be where it is. */
  ghost predicate Sequenced(p: Picture, order: seq<nat>, flag: bool) {
    (order != [] ==> Begins(p, order, 0, flag)) && forall k: nat :: k + 1 < |order| ==> Joint(p, order, k, flag)
  }

  /** The traces collected in front of a seed. */
  ghost predicate Run(p: Picture, seg: seq<nat>) {
    forall j :: 0 <= j < |seg| - 1 ==> Direct(p, seg[j], seg[j + 1])
  }

  lemma LeadsMore(p: Picture, order: seq<nat>, s: nat, e: nat, flag: bool, tail: seq<nat>)
    requires Leads(p, order, s, e, flag)
    ensures Leads(p, order + tail, s, e, flag)
  {
    assert (order + tail)[..s] == order[..s];
  }

  lemma JointMore(p: Picture, order: seq<nat>, k: nat, flag: bool, tail: seq<nat>)
    requires k + 1 < |order| && Joint(p, order, k, flag)
    ensures Joint(p, order + tail, k, flag)
  {
    hide Direct, Stale, IsSeed;
    if Begins(p, order, k + 1, flag) {
      var e: nat :| Leads(p, order, k + 1, e, flag);
      LeadsMore(p, order, k + 1, e, flag, tail);
    }
  }

  lemma SequencedMore(p: Picture, order: seq<nat>, u: nat, flag: bool)
    requires Sequenced(p, order, flag) && order != [] && (Direct(p, Last(order), u) || Stale(p, Last(order), u))
    ensures Sequenced(p, order + [u], flag)
  {
    hide Direct, Stale, IsSeed, Leads;
    var more := order + [u];
    forall k: nat | k + 1 < |more| ensures Joint(p, more, k, flag) {
      if k + 1 < |order| { JointMore(p, order, k, flag, [u]); }
    }
    var e: nat :| Leads(p, order, 0, e, flag);
    LeadsMore(p, order, 0, e, flag, [u]);
  }

  lemma RunInside(p: Picture, order: seq<nat>, seg: seq<nat>)
    requires Run(p, seg)
    ensures forall j :: |order| <= j < |order + seg| - 1 ==> Direct(p, (order + seg)[j], (order + seg)[j + 1])
  {
    hide Direct;
    forall j | |order| <= j < |order + seg| - 1 ensures Direct(p, (order + seg)[j], (order + seg)[j + 1]) {
      var i := j - |order|;
      assert Direct(p, seg[i], seg[i + 1]);
    }
  }

  lemma SegLeads(p: Picture, order: seq<nat>, seg: seq<nat>, flag: bool)
    requires seg != [] && Run(p, seg) && IsSeed(p, order, Last(seg), flag)
    ensures Leads(p, order + seg, |order|, |order + seg| - 1, flag)
  {
    hide Direct, IsSeed;
    RunInside(p, order, seg);
    assert (order + seg)[..|order|] == order;
  }

  lemma SequencedJoin(p: Picture, order: seq<nat>, seg: seq<nat>, flag: bool)
    requires Sequenced(p, order, flag) && seg != [] && Run(p, seg) && IsSeed(p, order, Last(seg), flag)
    ensures Sequenced(p, order + seg, flag)
  {
    hide Direct, Stale, IsSeed, Leads;
    var more := order + seg;
    SegLeads(p, order, seg, flag);
    forall k: nat | k + 1 < |more| ensures Joint(p, more, k, flag) {
      if k + 1 < |order| { JointMore(p, order, k, flag, seg); }
    }
    if order != [] {
      var e: nat :| Leads(p, order, 0, e, flag);
      LeadsMore(p, order, 0, e, flag, seg);
    }
  }

  lemma SequencedNone(p: Picture, flag: bool)
    ensures Sequenced(p, [], flag)
  {
  }

  lemma RunOne(p: Picture, t: nat)
    ensures Run(p, [t])
  {
  }

  lemma RunMore(p: Picture, t: nat, seg: seq<nat>)
    requires Run(p, seg) && seg != [] && Direct(p, t, seg[0])
    ensures Run(p, [t] + seg)
  {
    hide Direct;
    var more := [t] + seg;
    forall j | 0 <= j < |more| - 1 ensures Direct(p, more[j], more[j + 1]) {
      var i := j - 1;
      if i >= 0 { assert Direct(p, seg[i], seg[i + 1]); }
    }
  }

  /** The picture once the destination of edge k out of the last block of trace t has been duplicated. */
  ghost predicate CanCopy(p: Picture, t: nat, k: nat) {
    && t < |p.traces| && t < |p.cs| && |p.succs| == |p.part| == |p.orig| && p.traces[t].last < |p.succs|
    && k < |p.succs[p.traces[t].last]| && p.succs[p.traces[t].last][k] < |p.succs|
  }

  ghost function AfterCopy(p: Picture, t: nat, k: nat): Picture
    requires CanCopy(p, t, k)
  {
    var last := p.traces[t].last;
    var old_bb := p.succs[last][k];
    p.(succs := Redirected(p.succs, last, k, old_bb), part := p.part + [p.part[old_bb]],
       traces := p.traces[t := p.traces[t].(last := |p.succs|)], cs := p.cs[t := p.cs[t] + [|p.succs|]],
       orig := p.orig + [p.orig[old_bb]])
  }

  lemma DirectCopied(p: Picture, t: nat, k: nat, a: nat, b: nat)
    requires CanCopy(p, t, k) && Direct(p, a, b) && a != t && p.traces[a].last != p.traces[t].last
    ensures Direct(AfterCopy(p, t, k), a, b)
  {
  }

  lemma OneBlockCopied(p: Picture, t: nat, k: nat, o: nat)
    requires CanCopy(p, t, k) && OneBlock(p, o)
    ensures OneBlock(AfterCopy(p, t, k), o)
  {
    var s: nat :| s < |p.traces| && p.traces[s].length == 1 && p.traces[s].first < |p.orig| &&
      p.orig[p.traces[s].first] == o;
    assert AfterCopy(p, t, k).traces[s].length == 1;
  }

  lemma StaleCopied(p: Picture, t: nat, k: nat, a: nat, b: nat)
    requires CanCopy(p, t, k) && Stale(p, a, b) && a != t
    ensures Stale(AfterCopy(p, t, k), a, b)
  {
    hide OneBlock;
    OneBlockCopied(p, t, k, p.orig[p.cs[a][|p.cs[a]| - 1]]);
    var q := AfterCopy(p, t, k);
    assert q.cs[a] == p.cs[a] && q.traces[b].first == p.traces[b].first && q.succs0 == p.succs0 && q.n0 == p.n0;
    var w :| Beyond(p.succs0, p.orig[p.cs[a][|p.cs[a]| - 2]], w, p.orig[p.traces[b].first]);
    assert Beyond(q.succs0, q.orig[q.cs[a][|q.cs[a]| - 2]], w, q.orig[q.traces[b].first]);
  }

  lemma SeedCopied(p: Picture, t: nat, k: nat, placed: seq<nat>, e: nat)
    requires CanCopy(p, t, k) && IsSeed(p, placed, e, false)
    ensures IsSeed(AfterCopy(p, t, k), placed, e, false)
  {
  }

  lemma LeadsCopied(p: Picture, t: nat, k: nat, order: seq<nat>, s: nat, e: nat)
    requires CanCopy(p, t, k) && Leads(p, order, s, e, false)
    requires forall j :: 0 <= j < |order| - 1 ==>
      order[j] != t && order[j] < |p.traces| && p.traces[order[j]].last != p.traces[t].last
    ensures Leads(AfterCopy(p, t, k), order, s, e, false)
  {
    hide Direct, IsSeed;
    SeedCopied(p, t, k, order[..s], order[e]);
    forall j | s <= j < e ensures Direct(AfterCopy(p, t, k), order[j], order[j + 1]) {
      DirectCopied(p, t, k, order[j], order[j + 1]);
    }
  }

  lemma SequencedCopied(p: Picture, t: nat, k: nat, order: seq<nat>)
    requires CanCopy(p, t, k) && Sequenced(p, order, false)
    requires forall j :: 0 <= j < |order| - 1 ==>
      order[j] != t && order[j] < |p.traces| && p.traces[order[j]].last != p.traces[t].last
    ensures Sequenced(AfterCopy(p, t, k), order, false)
  {
    hide Direct, Stale, Leads;
    var q := AfterCopy(p, t, k);
    if order != [] {
      var e: nat :| Leads(p, order, 0, e, false);
      LeadsCopied(p, t, k, order, 0, e);
    }
    forall j: nat | j + 1 < |order| ensures Joint(q, order, j, false) {
      assert Joint(p, order, j, false);
      if Direct(p, order[j], order[j + 1]) {
        DirectCopied(p, t, k, order[j], order[j + 1]);
      } else if Stale(p, order[j], order[j + 1]) {
        StaleCopied(p, t, k, order[j], order[j + 1]);
      } else {
        var e: nat :| Leads(p, order, j + 1, e, false);
        LeadsCopied(p, t, k, order, j + 1, e);
      }
    }
  }

  lemma OriginalEdge(orig: seq<nat>, s: seq<nat>, t: seq<nat>, b: nat)
    requires SameEdges(orig, s, t) && b in s
    ensures b < |orig| && orig[b] in t
  {
  }

  /** The next trace after a duplicate. */
  lemma CopyJoins(p: Picture, t: nat, k: nat, u: nat, w: nat, part0: seq<nat>)
    requires CanCopy(p, t, k) && u < |p.traces| && p.traces[u].first < |p.succs| && p.n0 <= |p.succs|
    requires Originals(p.orig, p.succs, p.part, p.succs0, part0) && p.cs[t] != [] && Last(p.cs[t]) == p.traces[t].last
    requires var src, old_bb := p.traces[t].last, p.succs[p.traces[t].last][k];
      && w in p.succs[src] && w < |p.succs| && p.traces[u].first in p.succs[w]
      && (p.traces[u].first in p.succs[old_bb] || OneBlock(p, p.orig[old_bb]))
    ensures Direct(AfterCopy(p, t, k), t, u) || Stale(AfterCopy(p, t, k), t, u)
  {
    var src, old_bb := p.traces[t].last, p.succs[p.traces[t].last][k];
    if p.traces[u].first !in p.succs[old_bb] {
      OneBlockCopied(p, t, k, p.orig[old_bb]);
      assert OriginalOf(p.orig, p.succs, p.part, p.succs0, part0, src);
      assert OriginalOf(p.orig, p.succs, p.part, p.succs0, part0, w);
      OriginalEdge(p.orig, p.succs[src], p.succs0[p.orig[src]], w);
      OriginalEdge(p.orig, p.succs[src], p.succs0[p.orig[src]], old_bb);
      OriginalEdge(p.orig, p.succs[w], p.succs0[p.orig[w]], p.traces[u].first);
      assert Beyond(p.succs0, p.orig[src], p.orig[w], p.orig[p.traces[u].first]);
      var q := AfterCopy(p, t, k);
      assert q.cs[t][|q.cs[t]| - 2] == src && q.cs[t][|q.cs[t]| - 1] == |p.succs| &&
        q.orig[|p.succs|] == p.orig[old_bb];
      assert q.orig[src] == p.orig[src] && q.traces[u].first == p.traces[u].first && q.succs0 == p.succs0;
      assert q.orig[q.traces[u].first] == p.orig[p.traces[u].first] && q.n0 == p.n0;
      assert Beyond(q.succs0, q.orig[src], p.orig[w], q.orig[q.traces[u].first]);
      assert Stale(q, t, u);
    }
  }

  /** connect_traces at work: the fields of bbd and the traces, and which traces are connected. order
      are the traces that follow traces[0] so far, seg those collected in front of the present one. */
  class Connector {
    var succs: Graph
    var part: seq<nat>
    var aux: seq<int>
    var startOf: seq<int>
    var endOf: seq<int>
    var traces: seq<Trace>
    var connected: seq<bool>
    ghost var cs: seq<seq<nat>>
    // As in Layout.
    ghost const succs0: Graph
    ghost const part0: seq<nat>
    ghost var orig: seq<nat>
    // The number of blocks that the traces were found with.
    ghost const blocks0: nat

    constructor (l: Layout)
      requires l.Inv([])
      ensures Inv([], []) && cs == l.chains && part == l.part && |traces| == |l.traces| && |aux| == |l.aux|
      ensures succs0 == l.succs0 && part0 == l.part0 && blocks0 == |l.aux|
      ensures AllUniform(part, cs) && traces == l.traces && forall t :: 0 <= t < |connected| ==> !connected[t]
    {
      succs, part, aux, startOf, endOf, traces := l.succs, l.part, l.aux, l.startOf, l.endOf, l.traces;
      connected := seq(|l.traces|, _ => false);
      cs, succs0, part0, orig, blocks0 := l.chains, l.succs0, l.part0, l.orig, |l.aux|;
      new;
      StartFacts(l);
    }

    ghost function Now(): Picture
      reads `succs, `part, `traces, `cs, `orig
    {
      Picture(succs, part, traces, cs, orig, succs0, blocks0)
    }

    ghost predicate Inv(order: seq<nat>, seg: seq<nat>)
      reads this
    {
      && NUM_FIXED_BLOCKS <= |aux| && |succs| == |part| == |startOf| == |endOf| == |aux| && Edges(succs)
      && NUM_FIXED_BLOCKS <= |succs0| <= |succs| && Originals(orig, succs, part, succs0, part0)
      && |cs| == |traces| == |connected| && blocks0 <= |aux|
      && Apart(cs) && Inside(|aux|, cs) && Heads(traces, cs) && Free(aux, cs, connected)
      && Starts(startOf, traces) && Stops(endOf, traces, connected)
      && Members(connected, order + seg) && Whole(aux, cs, order) && Whole(aux, cs, seg)
    }

    lemma StartFacts(l: Layout)
      requires l.Inv([]) && cs == l.chains && part == l.part && aux == l.aux && startOf == l.startOf && endOf == l.endOf
      requires succs0 == l.succs0 && part0 == l.part0 && orig == l.orig && traces == l.traces && succs == l.succs
      requires |connected| == |traces| && blocks0 == |l.aux|
      requires forall t :: 0 <= t < |connected| ==> !connected[t]
      ensures Inv([], [])
    {
      hide Chained;
      forall t, b | 0 <= t < |cs| && b in cs[t] ensures ENTRY_BLOCK < b < |l.visited| && l.visited[b] == t + 1 {
        assert InTrace(l.visited, l.chains[t], t + 1);
      }
    }

    /** Start collecting with trace t. */
    method Seed(ghost order: seq<nat>, t: nat)
      requires Inv(order, []) && t < |connected| && !connected[t]
      modifies `connected
      ensures Inv(order, [t]) && connected == old(connected)[t := true]
    {
      hide Chained, Apart, Inside, Heads, Starts, Edges, Originals, Distinct;
      MembersMore(connected, order, [], t);
      assert [t] + [] == [t];
      FlattenOne(cs, t);
      connected := connected[t := true];
    }

    /** A write to the last block of trace t disturbs no group without t, and no unconnected trace. */
    lemma Elsewhere(aux0: seq<int>, aux1: seq<int>, order: seq<nat>, t: nat, b: nat)
      requires Apart(cs) && Heads(traces, cs) && t < |cs| && t !in order && |connected| == |cs| && connected[t]
      requires b < |aux0| == |aux1| && b == traces[t].last
      requires forall x :: 0 <= x < |aux0| && x != b ==> aux1[x] == aux0[x]
      ensures Whole(aux0, cs, order) ==> Whole(aux1, cs, order)
      ensures Free(aux0, cs, connected) ==> Free(aux1, cs, connected)
    {
      hide Chained, Whole, Free;
      assert TraceEnds(traces, cs, t);
      assert b in cs[t];
      FlattenHas(cs, order, b);
      assert b !in Flatten(cs, order) by {
        if k :| 0 <= k < |order| && order[k] < |cs| && b in cs[order[k]] { assert order[k] in order; }
      }
      if Whole(aux0, cs, order) { WholeKept(aux0, aux1, cs, order); }
      if Free(aux0, cs, connected) { FreeKept(aux0, aux1, cs, connected); }
    }

    /** The trace that ends in src comes before the collected ones. */
    method AttachBefore(ghost order: seq<nat>, ghost seg: seq<nat>, src: nat, dest: nat) returns (t2: nat)
      requires Inv(order, seg) && seg != [] && seg[0] < |traces| && dest == traces[seg[0]].first
      requires src < |endOf| && endOf[src] >= 0 && endOf[src] < |connected| && !connected[endOf[src]]
      modifies `aux, `connected
      ensures t2 == old(endOf)[src] && Inv(order, [t2] + seg) && connected == old(connected)[t2 := true]
      ensures |aux| == |old(aux)|
    {
      hide Chained, Inside, Edges, Originals, Distinct, Apart, Starts, Flatten;
      t2 := endOf[src];
      ghost var aux0 := aux;
      MembersMove(connected, order, seg);
      MembersMore(connected, order, seg, t2);
      assert TraceEnds(traces, cs, t2);
      FlattenOne(cs, t2);
      GroupEnds(traces, cs, seg);
      LinkGroups(aux, cs, [t2], seg);
      aux := aux[src := dest];
      connected := connected[t2 := true];
      Elsewhere(aux0, aux, order, t2, src);
    }

    lemma TraceLast(t: nat)
      requires Inside(|aux|, cs) && Heads(traces, cs) && t < |cs|
      ensures traces[t].last < |aux| && traces[t].last in cs[t] && traces[t].first in cs[t] && traces[t].first < |aux|
    {
      assert TraceEnds(traces, cs, t);
      assert cs[t][0] in cs[t] && Last(cs[t]) in cs[t];
    }

    /** What has been collected joins the chain. */
    method Append(ghost order: seq<nat>, ghost seg: seq<nat>, lastTrace: int, t2: nat) returns (ghost more: seq<nat>)
      requires Inv(order, seg) && seg != [] && t2 == seg[0] && t2 < |traces|
      requires if order == [] then lastTrace == NONE else lastTrace == Last(order)
      modifies `aux
      ensures more == order + seg && Inv(more, []) && |aux| == |old(aux)|
    {
      hide Chained, Inside, Edges, Originals, Distinct, Flatten;
      ghost var aux0 := aux;
      more := order + seg;
      MembersMove(connected, order, seg);
      GroupEnds(traces, cs, seg);
      if lastTrace >= 0 {
        assert lastTrace in order;
        GroupEnds(traces, cs, order);
        LinkGroups(aux, cs, order, seg);
        TraceLast(lastTrace);
        aux := aux[traces[lastTrace].last := traces[t2].first];
        Elsewhere(aux0, aux, [], lastTrace, traces[lastTrace].last);
      } else {
        assert [] + seg == seg;
      }
    }

    /** Trace t follows. */
    method AttachAfter(ghost order: seq<nat>, lastTrace: nat, t: nat) returns (ghost more: seq<nat>)
      requires Inv(order, []) && order != [] && lastTrace == Last(order) && t < |connected| && !connected[t]
      modifies `aux, `connected
      ensures more == order + [t] && Inv(more, []) && connected == old(connected)[t := true] && |aux| == |old(aux)|
    {
      hide Chained, Apart, Inside, Heads, Starts, Edges, Originals, Distinct, Free, Whole;
      Seed(order, t);
      more := Append(order, [t], lastTrace, t);
    }

    lemma CopyFacts(order: seq<nat>, t: nat)
      requires Inv(order, []) && order != [] && t == Last(order) && t < |traces|
      ensures connected[t] && order + [] == order && traces[t].last < |aux|
    {
      assert t in order + [];
      TraceLast(t);
    }

    lemma EdgeInside(b: nat, k: nat)
      requires Edges(succs) && b < |succs| && k < |succs[b]|
      ensures succs[b][k] < |succs| && succs[b][k] != ENTRY_BLOCK
    {
      assert Targets(succs[b], |succs|);
    }

    lemma EdgesAre(order: seq<nat>, t: nat, k: nat)
      requires Inv(order, []) && t < |traces| && traces[t].last < |succs| && k < |succs[traces[t].last]|
      ensures CanCopy(Now(), t, k) && Starts(startOf, traces)
    {
      EdgeInside(traces[t].last, k);
    }

    /** copy_bb at the end of the last trace: a new block, with the edges of old_bb, follows it. */
    method CopyAfter(ghost order: seq<nat>, t: nat, k: nat)
      requires Inv(order, []) && order != [] && t == Last(order) && t < |traces|
      requires traces[t].last < |succs| && k < |succs[traces[t].last]| && succs[traces[t].last][k] != EXIT_BLOCK
      modifies `succs, `part, `aux, `startOf, `endOf, `traces, `cs, `orig
      ensures Inv(order, []) && |traces| == |old(traces)| && |aux| == |old(aux)| + 1
      ensures cs == old(cs)[t := old(cs)[t] + [|old(aux)|]]
      ensures part[..|old(part)|] == old(part)
      ensures forall u :: 0 <= u < |traces| ==> traces[u].first == old(traces)[u].first
      ensures startOf == old(startOf) + [-1] && endOf == old(endOf) + [-1]
      ensures succs == Redirected(old(succs), old(traces)[t].last, k, old(succs)[old(traces)[t].last][k])
      ensures CanCopy(old(Now()), t, k) && Now() == AfterCopy(old(Now()), t, k)
    {
      hide Chained, Apart, Inside, Heads, Starts, Stops, Edges, Originals, Distinct, Free, Members, Flatten;
      var last := traces[t].last;
      var old_bb := succs[last][k];
      var new_bb := |aux|;
      CopyFacts(order, t);
      EdgesAre(order, t, k);
      EdgeInside(last, k);
      EdgesGrow(succs, last, k, old_bb);
      OriginalsGrow(orig, succs, part, succs0, part0, last, k, old_bb);
      CopyChain(aux, cs, connected, traces, order, t);
      EndsCopied(startOf, endOf, traces, connected, t, cs, |aux|);
      succs := Redirected(succs, last, k, old_bb);
      part := part + [part[old_bb]];
      orig := orig + [orig[old_bb]];
      startOf, endOf := startOf + [-1], endOf + [-1];
      aux := (aux + [aux[last]])[last := new_bb];
      traces := traces[t := traces[t].(last := new_bb)];
      cs := cs[t := cs[t] + [new_bb]];
    }

    ghost predicate IsLooseEnd(b: int, partition: nat)
      reads `endOf, `connected, `part, `traces
    {
      && 0 <= b < |endOf| && 0 <= endOf[b] < |connected| && !connected[endOf[b]] && endOf[b] < |traces|
      && b < |part| && part[b] == partition && traces[endOf[b]].last == b
    }

    /** A predecessor: an end of a loose trace that has an edge to the first block. */
    method FindPredecessor(ghost order: seq<nat>, ghost seg: seq<nat>, t2: nat, partition: nat) returns (src: int)
      requires Inv(order, seg) && t2 < |traces|
      ensures src == NONE || (IsLooseEnd(src, partition) && src < |succs| && traces[t2].first in succs[src])
    {
      src := NONE;
      var e := NUM_FIXED_BLOCKS;
      while e < |aux|
        invariant src == NONE || (IsLooseEnd(src, partition) && src < |succs| && traces[t2].first in succs[src])
      {
        if traces[t2].first in succs[e] && endOf[e] >= 0 && !connected[endOf[e]] && part[e] == partition {
          // Edge flags decide, and among several edges probabilities and trace lengths.
          if * {
            src := e;
          }
        }
        e := e + 1;
      }
    }

    ghost predicate IsLooseStart(b: int, partition: nat)
      reads `startOf, `connected, `part, `traces
    {
      && 0 <= b < |startOf| && 0 <= startOf[b] < |connected| && !connected[startOf[b]] && startOf[b] < |traces|
      && b < |part| && part[b] == partition && traces[startOf[b]].first == b
    }

    /** A successor: the start of a loose trace that the last block has an edge to. */
    method FindSuccessor(ghost order: seq<nat>, t: nat, partition: nat) returns (dest: int)
      requires Inv(order, []) && t < |traces| && traces[t].last < |succs|
      ensures dest == NONE || (IsLooseStart(dest, partition) && dest in succs[traces[t].last])
    {
      dest := NONE;
      var edges := succs[traces[t].last];
      assert Targets(edges, |succs|);
      var k := 0;
      while k < |edges|
        invariant 0 <= k && (dest == NONE || (IsLooseStart(dest, partition) && dest in edges))
      {
        var di := edges[k];
        if di != EXIT_BLOCK && startOf[di] >= 0 && !connected[startOf[di]] && part[di] == partition {
          if * {
            dest := di;
          }
        }
        k := k + 1;
      }
    }

    /** c starts behind a successor of the last block; and behind block d, unless that is a trace by itself. */
    ghost predicate GoesOn(edges: seq<nat>, d: nat, c: nat)
      reads `succs, `startOf, `traces
    {
      && (exists w :: w in edges && w < |succs| && c in succs[w]) && d < |succs|
      && (c in succs[d] || (d < |startOf| && 0 <= startOf[d] < |traces| && traces[startOf[d]].length == 1))
    }

    /** The search among the successors of the destination of edge k. */
    method SearchBehind(ghost order: seq<nat>, edges: seq<nat>, k: nat, partition: nat, best0: int, next0: int)
      returns (best: int, next_bb: int)
      requires Inv(order, []) && Targets(edges, |succs|) && k < |edges| && edges[k] != EXIT_BLOCK
      requires best0 == NONE || (0 <= best0 < |edges| && edges[best0] != EXIT_BLOCK)
      requires next0 == NONE || next0 == EXIT_BLOCK ||
        (IsLooseStart(next0, partition) && best0 != NONE && GoesOn(edges, edges[best0], next0))
      ensures best == NONE || (0 <= best < |edges| && edges[best] != EXIT_BLOCK)
      ensures next_bb == NONE || next_bb == EXIT_BLOCK ||
        (IsLooseStart(next_bb, partition) && best != NONE && GoesOn(edges, edges[best], next_bb))
    {
      hide Members, Whole, Free, Heads, Apart, Originals, Distinct;
      best, next_bb := best0, next0;
      var dest := edges[k];
      assert dest in edges && Targets(succs[dest], |succs|);
      var l := 0;
      while l < |succs[dest]|
        invariant 0 <= l && (best == NONE || (0 <= best < |edges| && edges[best] != EXIT_BLOCK))
        invariant next_bb == NONE || next_bb == EXIT_BLOCK ||
          (IsLooseStart(next_bb, partition) && best != NONE && GoesOn(edges, edges[best], next_bb))
      {
        var di := succs[dest][l];
        if di == EXIT_BLOCK || (startOf[di] >= 0 && !connected[startOf[di]] && part[di] == partition) {
          if * {
            best, next_bb := k, di;
          }
        }
        l := l + 1;
      }
    }

    /** A connection by way of one duplicate: the edge whose destination to copy, and the block to go on with, which
        may be the exit or none. It need not be a successor of the duplicate: one found for another edge stays. */
    method FindCopy(ghost order: seq<nat>, t: nat, partition: nat) returns (best: int, next_bb: int)
      requires Inv(order, []) && t < |traces| && traces[t].last < |succs|
      ensures best == NONE || (0 <= best < |succs[traces[t].last]| && succs[traces[t].last][best] != EXIT_BLOCK)
      ensures next_bb == NONE || next_bb == EXIT_BLOCK || (IsLooseStart(next_bb, partition) && best != NONE &&
        GoesOn(succs[traces[t].last], succs[traces[t].last][best], next_bb))
    {
      hide Members, Whole, Free, Heads, Apart, Originals;
      best, next_bb := NONE, NONE;
      var edges := succs[traces[t].last];
      assert Targets(edges, |succs|);
      var k := 0;
      while k < |edges|
        invariant 0 <= k <= |edges| && (best == NONE || (0 <= best < |edges| && edges[best] != EXIT_BLOCK))
        invariant next_bb == NONE || next_bb == EXIT_BLOCK ||
          (IsLooseStart(next_bb, partition) && best != NONE && GoesOn(edges, edges[best], next_bb))
      {
        var dest := edges[k];
        if dest != EXIT_BLOCK {
          // Edge flags decide, and probabilities whether this edge may replace the best one.
          if * {
            if startOf[dest] >= 0 && traces[startOf[dest]].length == 1 {
              best := k;
            } else {
              best, next_bb := SearchBehind(order, edges, k, partition, best, next_bb);
            }
          }
        }
        k := k + 1;
      }
    }

    /** What has become of the traces cs0, given n0 blocks with the partitions part0: they are all there,
        and with partitioning nothing has been duplicated. */
    ghost predicate Since(flag: bool, cs0: seq<seq<nat>>, part0: seq<nat>, n0: nat)
      reads `aux, `part, `cs
    {
      n0 <= |aux| && |cs| == |cs0| && Grown(cs0, cs, n0) && Copies(cs, n0, |aux|) &&
        (flag ==> part == part0 && cs == cs0)
    }

    lemma InvSizes(order: seq<nat>, seg: seq<nat>)
      requires Inv(order, seg)
      ensures |cs| == |traces| == |connected| && |succs| == |part| == |startOf| == |endOf| == |aux|
      ensures forall t :: t in order || t in seg ==> t < |traces| && connected[t]
      ensures forall t :: 0 <= t < |traces| ==> traces[t].first < |aux| && traces[t].last < |aux|
    {
      hide Chained, Apart, Free, Starts, Stops, Edges, Originals, Distinct, Whole;
      assert forall t :: t in order + seg <==> t in order || t in seg;
      forall t | 0 <= t < |traces| ensures traces[t].first < |aux| && traces[t].last < |aux| { TraceLast(t); }
    }

    lemma MoreBefore(order: seq<nat>, seg: seq<nat>, t: nat, partition: nat, b: nat)
      requires Inv(order, seg) && AllUniform(part, cs) && AllIn(part, cs, seg, partition)
      requires t < |traces| && (traces[t].last == b || traces[t].first == b) && b < |part| && part[b] == partition
      ensures AllIn(part, cs, [t] + seg, partition) && AllIn(part, cs, seg + [t], partition)
    {
      hide Chained, Apart, Free, Starts, Stops, Edges, Originals, Distinct, Members, Whole;
      TraceLast(t);
      assert TraceEnds(traces, cs, t) && Uniform(part, cs[t]);
    }

    /** Collect predecessors in front of trace t0. */
    method Collect(ghost order: seq<nat>, t0: nat, partition: nat, flag: bool) returns (t2: nat, ghost seg: seq<nat>)
      requires Inv(order, []) && t0 < |connected| && !connected[t0]
      requires flag ==> AllUniform(part, cs) && AllIn(part, cs, [t0], partition)
      modifies `aux, `connected
      ensures Inv(order, seg) && seg != [] && Last(seg) == t0 && t2 == seg[0] && |aux| == |old(aux)|
      ensures (t0 == 0 ==> seg == [0]) && (flag ==> AllIn(part, cs, seg, partition)) && Run(Now(), seg)
    {
      hide Inv, AllUniform, AllIn, Run;
      Seed(order, t0);
      t2, seg := t0, [t0];
      RunOne(Now(), t0);
      InvSizes(order, seg);
      while t2 > 0
        invariant Inv(order, seg) && seg != [] && Last(seg) == t0 && t2 == seg[0] && |aux| == |old(aux)|
        invariant t2 < |traces| == |connected| && |endOf| == |aux|
        invariant (t0 == 0 ==> seg == [0]) && (flag ==> AllIn(part, cs, seg, partition)) && Run(Now(), seg)
        decreases |Loose(connected)|
      {
        var src := FindPredecessor(order, seg, t2, partition);
        if src == NONE {
          break;
        }
        ghost var connected0 := connected;
        Tighter(connected, endOf[src]);
        if flag { MoreBefore(order, seg, endOf[src], partition, src); }
        t2 := AttachBefore(order, seg, src, traces[t2].first);
        RunMore(Now(), t2, seg);
        seg := [t2] + seg;
        InvSizes(order, seg);
      }
    }

    lemma MoreAfter(more: seq<nat>, start: nat, t: nat, partition: nat, b: nat)
      requires Inv(more, []) && AllUniform(part, cs) && start <= |more| && AllIn(part, cs, more[start..], partition)
      requires t < |traces| && traces[t].first == b && b < |part| && part[b] == partition
      ensures AllIn(part, cs, (more + [t])[start..], partition)
    {
      hide Chained, Apart, Free, Starts, Stops, Edges, Originals, Distinct, Members, Whole;
      TraceLast(t);
      assert TraceEnds(traces, cs, t) && Uniform(part, cs[t]);
      assert (more + [t])[start..] == more[start..] + [t];
    }

    /** What SequencedCopied needs: only the last trace is given a new last block. */
    lemma OthersEnd(order: seq<nat>, t: nat)
      requires Inv(order, []) && order != [] && t == Last(order)
      ensures t < |traces| && cs[t] != [] && Last(cs[t]) == traces[t].last
      ensures forall j :: 0 <= j < |order| - 1 ==>
        order[j] != t && order[j] < |traces| && traces[order[j]].last != traces[t].last
    {
      assert order + [] == order;
      assert t in order && TraceEnds(traces, cs, t);
      forall j | 0 <= j < |order| - 1
        ensures order[j] != t && order[j] < |traces| && traces[order[j]].last != traces[t].last
      {
        assert order[j] in order && TraceEnds(traces, cs, order[j]);
        assert Last(cs[order[j]]) in cs[order[j]] && Last(cs[t]) in cs[t];
      }
    }

    lemma LooseOneBlock(d: nat)
      requires Starts(startOf, traces) && d < |startOf| && |orig| == |startOf|
      requires startOf[d] >= 0 && startOf[d] < |traces| && traces[startOf[d]].length == 1
      ensures OneBlock(Now(), orig[d])
    {
      assert traces[startOf[d]].first == d;
    }

    lemma IsDirect(t: nat, u: nat, dest: nat)
      requires t < |traces| && u < |traces| && traces[t].last < |succs|
      requires traces[u].first == dest && dest in succs[traces[t].last]
      ensures Direct(Now(), t, u)
    {
    }

    /** The next trace is joined to the duplicate to come. */
    lemma GoesOnJoins(order: seq<nat>, t: nat, k: nat, c: nat)
      requires Inv(order, []) && order != [] && t == Last(order) && t < |traces| && traces[t].last < |succs|
      requires k < |succs[traces[t].last]| && c < |startOf| && 0 <= startOf[c] < |traces|
      requires GoesOn(succs[traces[t].last], succs[traces[t].last][k], c)
      ensures CanCopy(Now(), t, k)
      ensures Direct(AfterCopy(Now(), t, k), t, startOf[c]) || Stale(AfterCopy(Now(), t, k), t, startOf[c])
    {
      hide Direct, Stale, AfterCopy, Originals, Members, Whole, Free, Apart;
      EdgesAre(order, t, k);
      OthersEnd(order, t);
      var edges, d := succs[traces[t].last], succs[traces[t].last][k];
      var w :| w in edges && w < |succs| && c in succs[w];
      assert traces[startOf[c]].first == c;
      if c !in succs[d] { LooseOneBlock(d); }
      CopyJoins(Now(), t, k, startOf[c], w, part0);
    }

    /** The chain goes on by way of a duplicate. */
    method CopyAndGo(ghost order: seq<nat>, t: nat, best: nat, next_bb: int, ghost partition: nat,
                     ghost cs0: seq<seq<nat>>,
                     ghost part1: seq<nat>, ghost n0: nat)
      requires Inv(order, []) && order != [] && t == Last(order) && t < |traces| && traces[t].last < |succs|
      requires best < |succs[traces[t].last]| && succs[traces[t].last][best] != EXIT_BLOCK
      requires next_bb == NONE || next_bb == EXIT_BLOCK || (IsLooseStart(next_bb, partition) &&
        GoesOn(succs[traces[t].last], succs[traces[t].last][best], next_bb))
      requires Since(false, cs0, part1, n0) && Sequenced(Now(), order, false)
      modifies `succs, `part, `aux, `startOf, `endOf, `traces, `cs, `orig
      ensures Inv(order, []) && Since(false, cs0, part1, n0) && Sequenced(Now(), order, false)
      ensures |traces| == |old(traces)|
      ensures next_bb == NONE || next_bb == EXIT_BLOCK || (IsLooseStart(next_bb, partition) &&
        (Direct(Now(), t, startOf[next_bb]) || Stale(Now(), t, startOf[next_bb])))
    {
      hide Inv, Grown, Copies, Sequenced, Direct, Stale, Originals, AfterCopy;
      InvSizes(order, []);
      assert t in order;
      GrownCopy(cs0, cs, n0, t, |aux|);
      OthersEnd(order, t);
      EdgesAre(order, t, best);
      ghost var p := Now();
      if next_bb >= 0 && next_bb != EXIT_BLOCK { GoesOnJoins(order, t, best, next_bb); }
      ghost var before := part;
      CopyAfter(order, t, best);
      InvSizes(order, []);
      assert forall b :: 0 <= b < |before| ==> part[b] == part[..|before|][b];
      SequencedCopied(p, t, best, order);
    }

    /** Go on from trace t0 with its successors. */
    method Continue(ghost order: seq<nat>, t0: nat, partition: nat, flag: bool, ghost start: nat,
                    ghost cs0: seq<seq<nat>>, ghost part0: seq<nat>, ghost n0: nat)
      returns (lastTrace: nat, ghost more: seq<nat>)
      requires Inv(order, []) && order != [] && t0 == Last(order) && Since(flag, cs0, part0, n0) && start <= |order|
      requires flag ==> AllUniform(part, cs) && AllIn(part, cs, order[start..], partition)
      requires Sequenced(Now(), order, flag)
      modifies this
      ensures Inv(more, []) && order <= more && lastTrace == Last(more) && Since(flag, cs0, part0, n0)
      ensures flag ==> AllIn(part, cs, more[start..], partition)
      ensures Sequenced(Now(), more, flag) && |traces| == |old(traces)|
    {
      hide Inv, AllUniform, AllIn, Grown, Copies, Sequenced, Direct, Stale;
      more := order;
      lastTrace := t0;
      while true
        invariant Inv(more, []) && order <= more && lastTrace == Last(more) && Since(flag, cs0, part0, n0)
        invariant flag ==> AllUniform(part, cs) && AllIn(part, cs, more[start..], partition)
        invariant Sequenced(Now(), more, flag) && |traces| == |old(traces)|
        decreases |Loose(connected)|
      {
        InvSizes(more, []);
        var t := lastTrace;
        assert t in more;
        var dest := FindSuccessor(more, t, partition);
        if dest != NONE {
          IsDirect(t, startOf[dest], dest);
        } else {
          var best, next_bb := FindCopy(more, t, partition);
          // Partitioning forbids copies; elsewhere copy_bb_p decides.
          if flag || best == NONE {
            break;
          }
          if * {
            break;
          }
          CopyAndGo(more, t, best, next_bb, partition, cs0, part0, n0);
          InvSizes(more, []);
          if next_bb == NONE || next_bb == EXIT_BLOCK {
            break;
          }
          dest := next_bb;
        }
        t := startOf[dest];
        Tighter(connected, t);
        if flag { MoreAfter(more, start, t, partition, dest); }
        SequencedMore(Now(), more, t, flag);
        more := AttachAfter(more, lastTrace, t);
        lastTrace := t;
      }
    }

    /** The body of the main loop, for a trace t0 that is not connected yet. */
    method ConnectFrom(ghost order: seq<nat>, lastTrace0: int, t0: nat, partition: nat, flag: bool,
                       ghost cs0: seq<seq<nat>>, ghost part0: seq<nat>, ghost n0: nat)
      returns (lastTrace: nat, ghost more: seq<nat>)
      requires Inv(order, []) && t0 < |connected| && !connected[t0] && Since(flag, cs0, part0, n0)
      requires if order == [] then lastTrace0 == NONE && t0 == 0 else lastTrace0 == Last(order)
      requires flag ==> AllUniform(part, cs) && AllIn(part, cs, [t0], partition)
      requires Sequenced(Now(), order, flag) && IsSeed(Now(), order, t0, flag)
      modifies this
      ensures Sequenced(Now(), more, flag) && |traces| == |old(traces)|
      ensures Inv(more, []) && order < more && lastTrace == Last(more) && t0 in more && Since(flag, cs0, part0, n0)
      ensures order == [] ==> more[0] == 0
      ensures flag ==> AllIn(part, cs, more[|order|..], partition)
    {
      hide Inv, AllUniform, AllIn, Grown, Copies, Sequenced, IsSeed, Run;
      ghost var seg;
      var t2;
      t2, seg := Collect(order, t0, partition, flag);
      SequencedJoin(Now(), order, seg, flag);
      InvSizes(order, seg);
      assert seg[0] in seg;
      more := Append(order, seg, lastTrace0, t2);
      assert more[|order|..] == seg;
      ghost var joined := more;
      lastTrace, more := Continue(joined, t0, partition, flag, |order|, cs0, part0, n0);
    }

    /** The chain of all traces that are in order. */
    lemma Result(order: seq<nat>)
      requires Inv(order, []) && order != []
      ensures Chained(aux, Flatten(cs, order))
      ensures order[0] < |traces| && Flatten(cs, order) != [] && Flatten(cs, order)[0] == traces[order[0]].first
      ensures forall b :: b in Flatten(cs, order) ==> b < |aux|
      ensures |succs| == |aux| == |part| >= |succs0| && |traces| == |cs|
      ensures Edges(succs) && Originals(orig, succs, part, succs0, part0) && Heads(traces, cs)
    {
      hide Chained, Apart, Free, Starts, Stops, Edges, Originals, Distinct;
      InvSizes(order, []);
      GroupEnds(traces, cs, order);
      forall b | b in Flatten(cs, order) ensures b < |aux| { FlattenHas(cs, order, b); }
    }

    /** Whether to go over the traces twice, once for each partition. */
    method TwoPasses(flag: bool) returns (two: bool)
      requires Inv([], []) && traces != []
      ensures two <==> flag && exists t :: 0 <= t < |traces| && PartOf(part, cs, t) != PartOf(part, cs, 0)
    {
      hide Chained, Apart, Free, Starts, Stops, Edges, Originals, Distinct, Members, Whole;
      two := false;
      if flag {
        var i := 0;
        TraceLast(0);
        assert TraceEnds(traces, cs, 0);
        while i < |traces| && !two
          invariant 0 <= i <= |traces|
          invariant two ==> exists t :: 0 <= t < |traces| && PartOf(part, cs, t) != PartOf(part, cs, 0)
          invariant !two ==> forall t :: 0 <= t < i ==> PartOf(part, cs, t) == PartOf(part, cs, 0)
        {
          TraceLast(i);
          assert TraceEnds(traces, cs, i);
          two := part[traces[0].first] != part[traces[i].first];
          assert two <==> PartOf(part, cs, i) != PartOf(part, cs, 0);
          i := i + 1;
        }
      }
    }

    lemma StartSince(flag: bool)
      ensures Since(flag, cs, part, |aux|)
    {
    }

    lemma ConnectedIn(order: seq<nat>, t: nat)
      requires Inv(order, []) && t < |connected| && connected[t]
      ensures t in order
    {
      assert order + [] == order;
    }

    lemma PartIs(order: seq<nat>, t: nat)
      requires Inv(order, []) && t < |traces|
      ensures traces[t].first < |part| && PartOf(part, cs, t) == part[traces[t].first]
    {
      TraceLast(t);
      assert TraceEnds(traces, cs, t);
    }

    lemma AllOfOne(order: seq<nat>, t: nat, p: nat)
      requires Inv(order, []) && t < |traces| && AllUniform(part, cs) && PartOf(part, cs, t) == p
      ensures AllIn(part, cs, [t], p)
    {
      TraceLast(t);
      assert TraceEnds(traces, cs, t);
      assert Uniform(part, cs[t]);
    }

    /** The traces in order are of one of the two partitions. */
    lemma OnlyTwo(order: seq<nat>, m: nat, p: nat)
      requires Inv(order, []) && m <= |order| && traces != [] && p == PartOf(part, cs, 0)
      requires AllIn(part, cs, order[..m], p) && AllIn(part, cs, order[m..], Other(p))
      ensures forall t: nat :: t in order ==> InTwo(part, cs, t)
    {
      forall t: nat | t in order ensures InTwo(part, cs, t) {
        assert t in order[..m] || t in order[m..];
        assert t in order + [];
        assert TraceEnds(traces, cs, t);
      }
    }

    lemma SeedFor(order: seq<nat>, i: nat, flag: bool, two: bool, pass: int, p1: nat)
      requires Inv(order, []) && i < |traces| && !connected[i] && 1 <= pass <= 2 && (!two ==> pass == 1)
      requires (two ==> flag)
      requires flag ==> p1 == PartOf(part, cs, 0)
      requires flag && !two ==> forall u :: 0 <= u < |traces| ==> PartOf(part, cs, u) == p1
      requires two ==> PartOf(part, cs, i) == if pass == 1 then p1 else Other(p1)
      requires forall u: nat :: u < |traces| && Due(two, pass, i, u, PartOf(part, cs, u), p1) ==> u in order
      ensures IsSeed(Now(), order, i, flag)
    {
      hide PartOf, Inv;
      InvSizes(order, []);
    }

    /** connect_traces: all traces are put in one chain; with partitioning, all that are in one of two partitions. */
    method ConnectTraces(flag: bool) returns (ghost order: seq<nat>)
      requires Inv([], []) && traces != [] && forall t :: 0 <= t < |connected| ==> !connected[t]
      requires flag ==> AllUniform(part, cs)
      modifies this
      ensures Inv(order, []) && Since(flag, old(cs), old(part), old(|aux|))
      ensures order != [] && order[0] == 0
      ensures forall t: nat :: t < |traces| ==> (t in order <==> !flag || InTwo(part, cs, t))
      ensures flag ==> TwoParts(part, cs, order)
      ensures Sequenced(Now(), order, flag)
    {
      hide Inv, Chained, AllUniform, AllIn, Grown, Copies, PartOf, Sequenced, IsSeed;
      ghost var cs0, part0, n0 := cs, part, |aux|;
      InvSizes([], []);
      StartSince(flag);
      var n := |traces|;
      var two := TwoPasses(flag);
      PartIs([], 0);
      var pass, partition, lastTrace := 1, part[traces[0].first], NONE;
      ghost var p1 := partition;
      var i := 0;
      order := [];
      ghost var m: nat := 0;
      NoneIn(part, cs, p1);
      assert Sequenced(Now(), order, flag) by { SequencedNone(Now(), flag); }
      while i < n || (two && pass == 1)
        invariant Inv(order, []) && Since(flag, cs0, part0, n0) && |traces| == |connected| == n
        invariant 0 <= i <= n && 1 <= pass <= 2 && (!two ==> pass == 1) && (two ==> flag)
        invariant partition == (if pass == 1 then p1 else Other(p1))
        invariant if order == [] then lastTrace == NONE && i == 0 && pass == 1
          else lastTrace == Last(order) && order[0] == 0
        invariant Sequenced(Now(), order, flag)
        invariant forall t: nat :: t < n && Due(two, pass, i, t, PartOf(part0, cs0, t), p1) ==> t in order
        invariant m <= |order| && (pass == 1 ==> m == |order|)
        invariant flag ==> AllIn(part, cs, order[..m], p1) && AllIn(part, cs, order[m..], Other(p1))
        decreases 2 - pass, n - i
      {
        if i >= n {
          i := 0;
          pass := 2;
          partition := if partition == HOT_PARTITION then COLD_PARTITION else HOT_PARTITION;
        }
        InvSizes(order, []);
        if flag { PartIs(order, i); }
        if !connected[i] && (!two || part[traces[i].first] == partition) {
          ghost var order0, cs1 := order, cs;
          if flag { AllOfOne(order, i, partition); }
          SeedFor(order, i, flag, two, pass, p1);
          lastTrace, order := ConnectFrom(order, lastTrace, i, partition, flag, cs0, part0, n0);
          InvSizes(order, []);
          if flag { Joined(part, cs, order0, order, m, if pass == 1 then |order| else m, p1, partition); }
          if pass == 1 { m := |order|; }
        } else if connected[i] {
          ConnectedIn(order, i);
        }
        i := i + 1;
      }
      if flag { OnlyTwo(order, m, p1); }
    }
  }
}
