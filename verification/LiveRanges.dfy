/** Growing the live range of a branch target register definition (bt-load.c). */
module LiveRanges {
  import opened Helpers
  import opened Dataflow

  /** Blocks and edges of a whole function; every predecessor is a block. */
  ghost predicate Graph(preds: Preds) {
    forall b, k :: 0 <= b < |preds| && 0 <= k < |preds[b]| ==> preds[b][k] < |preds|
  }

  /** p is a path of the graph. */
  ghost predicate Walks(p: seq<nat>, preds: Preds) {
    && p != []
    && (forall k :: 0 <= k < |p| ==> p[k] < |preds|)
    && (forall k :: 0 < k < |p| ==> p[k - 1] in preds[p[k]])
  }

  /** Every path from the entry to b goes through a. */
  ghost predicate Dominates(a: nat, b: nat, preds: Preds) {
    forall p :: Walks(p, preds) && p[0] == ENTRY_BLOCK && p[|p| - 1] == b ==> a in p
  }

  /** live is closed under predecessors, except at head. */
  ghost predicate Closed(live: set<nat>, head: nat, preds: Preds) {
    forall b, p :: b in live && b != head && b < |preds| && p in preds[b] ==> p in live
  }

  /** The target registers live in, or at the end of, a block added as a whole. */
  ghost predicate LiveIn(r: nat, blocks: set<nat>, btrsLive: seq<set<nat>>, atEnd: seq<set<nat>>)
    requires |btrsLive| == |atEnd|
  {
    exists b :: b in blocks && b < |btrsLive| && (r in btrsLive[b] || r in atEnd[b])
  }

  /** A path into b from start that stays outside live, apart from perhaps b itself. */
  ghost predicate Outside(p: seq<nat>, live: set<nat>, preds: Preds) {
    Walks(p, preds) && forall k :: 0 <= k < |p| ==> p[k] !in live
  }

  /** b is outside live and leads to one of targets without touching live. */
  ghost predicate LeadsTo(b: nat, targets: set<nat>, live: set<nat>, preds: Preds) {
    exists p :: Outside(p, live, preds) && p[0] == b && p[|p| - 1] in targets
  }

  lemma LeadsOne(b: nat, targets: set<nat>, live: set<nat>, preds: Preds)
    requires b < |preds| && b in targets && b !in live
    ensures LeadsTo(b, targets, live, preds)
  {
    assert Outside([b], live, preds);
  }

  lemma LeadsMore(a: nat, b: nat, targets: set<nat>, live: set<nat>, preds: Preds)
    requires a < |preds| && a !in live && LeadsTo(b, targets, live, preds) && b < |preds| && a in preds[b]
    ensures LeadsTo(a, targets, live, preds)
  {
    var p :| Outside(p, live, preds) && p[0] == b && p[|p| - 1] in targets;
    var q := [a] + p;
    assert forall k :: 0 < k < |q| ==> q[k] == p[k - 1];
    assert Outside(q, live, preds);
  }

  /** The state of the backward walk from targets: what has been added to live0, and what is still
      on the worklist. */
  ghost predicate Growing(live0: set<nat>, live: set<nat>, work: seq<nat>, targets: set<nat>, preds: Preds) {
    && live0 <= live
    && (forall k :: 0 <= k < |work| ==> work[k] < |preds|)
    && (forall b :: b in live - live0 ==> b < |preds| && LeadsTo(b, targets, live0, preds))
    && (forall k :: 0 <= k < |work| && work[k] !in live0 ==> LeadsTo(work[k], targets, live0, preds))
    && (forall b, p :: b in live - live0 && p in preds[b] ==> p in live || p in work)
    && (forall t :: t in targets ==> t in live || t in work)
  }

  ghost function Elems(s: seq<nat>): set<nat> {
    set x | x in s
  }

  ghost function Blocks(n: nat): (s: set<nat>)
    ensures forall b: nat :: b in s <==> b < n
  {
    if n == 0 then {} else Blocks(n - 1) + {n - 1}
  }

  lemma GrowingTop(live0: set<nat>, live: set<nat>, work: seq<nat>, targets: set<nat>, preds: Preds)
    requires Growing(live0, live, work, targets, preds) && work != []
    ensures work[|work| - 1] < |preds| && live0 <= live
  {
  }

  lemma LiveInNone(r: nat, btrsLive: seq<set<nat>>, atEnd: seq<set<nat>>)
    requires |btrsLive| == |atEnd|
    ensures !LiveIn(r, {}, btrsLive, atEnd)
  {
  }

  lemma LiveInMore(r: nat, added: set<nat>, bb: nat, btrsLive: seq<set<nat>>, atEnd: seq<set<nat>>)
    requires |btrsLive| == |atEnd| && bb < |btrsLive|
    ensures LiveIn(r, added + {bb}, btrsLive, atEnd) <==>
      LiveIn(r, added, btrsLive, atEnd) || r in btrsLive[bb] || r in atEnd[bb]
  {
  }

  /** Push the predecessors of a block that are not in the live range yet. */
  method PushPreds(worklist0: seq<nat>, edges: seq<nat>, live: set<nat>) returns (worklist: seq<nat>)
    ensures forall x :: x in worklist <==> x in worklist0 || (x in edges && x !in live)
  {
    worklist := worklist0;
    var k := 0;
    while k < |edges|
      invariant k <= |edges|
      invariant forall x :: x in worklist <==> x in worklist0 || (x in edges[..k] && x !in live)
    {
      var pred := edges[k];
      if pred !in live {
        worklist := worklist + [pred];
      }
      k := k + 1;
    }
    assert edges[..|edges|] == edges;
  }

  lemma GrowingPop(live0: set<nat>, live: set<nat>, rest: seq<nat>, bb: nat, targets: set<nat>, preds: Preds)
    requires Growing(live0, live, rest + [bb], targets, preds) && bb in live
    ensures Growing(live0, live, rest, targets, preds)
  {
    hide LeadsTo;
    var work := rest + [bb];
    assert forall k :: 0 <= k < |rest| ==> work[k] == rest[k];
    assert forall x :: x in work ==> x in rest || x == bb;
  }

  lemma GrowingAdd(live0: set<nat>, live: set<nat>, rest: seq<nat>, bb: nat, work': seq<nat>, targets: set<nat>,
                   preds: Preds)
    requires Graph(preds) && Growing(live0, live, rest + [bb], targets, preds) && bb !in live && bb < |preds|
    requires forall x :: x in work' <==> x in rest || (x in preds[bb] && x !in live + {bb})
    ensures Growing(live0, live + {bb}, work', targets, preds)
  {
    hide LeadsTo;
    var work := rest + [bb];
    assert work[|rest|] == bb && bb !in live0;
    assert forall x :: x in work ==> x in rest || x == bb;
    forall k | 0 <= k < |work'|
      ensures work'[k] < |preds| && (work'[k] !in live0 ==> LeadsTo(work'[k], targets, live0, preds))
    {
      var x := work'[k];
      assert x in work';
      if x in rest {
        var j :| 0 <= j < |rest| && rest[j] == x;
        assert work[j] == x;
      } else {
        var j :| 0 <= j < |preds[bb]| && preds[bb][j] == x;
        if x !in live0 { LeadsMore(x, bb, targets, live0, preds); }
      }
    }
    assert LeadsTo(work[|rest|], targets, live0, preds);
    forall b | b in live + {bb} - live0
      ensures b < |preds| && LeadsTo(b, targets, live0, preds)
      ensures forall p :: p in preds[b] ==> p in live + {bb} || p in work'
    {
      if b != bb {
        assert b in live - live0;
        assert forall p :: p in preds[b] ==> p in live || p in work;
      }
    }
    forall t | t in targets ensures t in live + {bb} || t in work' {
      assert t in live || t in work;
    }
  }

  lemma {:induction false} PathInside(p: seq<nat>, live0: set<nat>, live: set<nat>, targets: set<nat>, preds: Preds)
    requires Growing(live0, live, [], targets, preds) && Outside(p, live0, preds) && p[|p| - 1] in targets
    ensures p[0] in live
    decreases |p|
  {
    if |p| > 1 {
      var q := p[1..];
      assert forall k :: 0 <= k < |q| ==> q[k] == p[k + 1];
      assert forall k :: 0 < k < |q| ==> q[k - 1] in preds[q[k]] by {
        forall k | 0 < k < |q| ensures q[k - 1] in preds[q[k]] { assert p[k] in preds[p[k + 1]]; }
      }
      PathInside(q, live0, live, targets, preds);
      assert p[0] in preds[p[1]];
    }
  }

  /** When the worklist is empty, everything that leads to a target outside live0 has been added. */
  lemma GrowingDone(live0: set<nat>, live: set<nat>, targets: set<nat>, preds: Preds)
    requires Graph(preds) && Growing(live0, live, [], targets, preds)
    ensures live0 <= live && targets <= live
    ensures forall b: nat :: b in live - live0 <==> b < |preds| && LeadsTo(b, targets, live0, preds)
    ensures forall b, p :: b in live && b !in live0 && b < |preds| && p in preds[b] ==> p in live
  {
    forall b: nat | b < |preds| && LeadsTo(b, targets, live0, preds) ensures b in live - live0 {
      var p :| Outside(p, live0, preds) && p[0] == b && p[|p| - 1] in targets;
      PathInside(p, live0, live, targets, preds);
    }
  }

  lemma GrowingStart(live0: set<nat>, work0: seq<nat>, targets: set<nat>, preds: Preds)
    requires targets == Elems(work0) && forall k :: 0 <= k < |work0| ==> work0[k] < |preds|
    ensures Growing(live0, live0, work0, targets, preds)
  {
    forall k | 0 <= k < |work0| && work0[k] !in live0 ensures LeadsTo(work0[k], targets, live0, preds) {
      LeadsOne(work0[k], targets, live0, preds);
    }
  }

  /** The worklist loop of augment_live_range. */
  method Grow(live0: set<nat>, work0: seq<nat>, btrs0: set<nat>, preds: Preds, btrsLive: seq<set<nat>>,
              atEnd: seq<set<nat>>)
    returns (live: set<nat>, btrs: set<nat>)
    requires Graph(preds) && |btrsLive| == |atEnd| == |preds|
    requires forall k :: 0 <= k < |work0| ==> work0[k] < |preds|
    ensures live0 <= live && forall k :: 0 <= k < |work0| ==> work0[k] in live
    ensures forall b, p :: b in live && b !in live0 && b < |preds| && p in preds[b] ==> p in live
    ensures forall b: nat :: b in live - live0 <==> b < |preds| && LeadsTo(b, Elems(work0), live0, preds)
    ensures forall r :: r in btrs <==> r in btrs0 || LiveIn(r, live - live0, btrsLive, atEnd)
  {
    hide Growing, LiveIn, LeadsTo, Graph;
    ghost var targets := Elems(work0);
    var worklist := work0;
    live, btrs := live0, btrs0;
    GrowingStart(live0, work0, targets, preds);
    assert live0 - live0 == {};
    forall r ensures !LiveIn(r, {}, btrsLive, atEnd) { LiveInNone(r, btrsLive, atEnd); }
    while worklist != []
      invariant Growing(live0, live, worklist, targets, preds)
      invariant forall r :: r in btrs <==> r in btrs0 || LiveIn(r, live - live0, btrsLive, atEnd)
      decreases Blocks(|preds|) - live, |worklist|
    {
      GrowingTop(live0, live, worklist, targets, preds);
      var bb := worklist[|worklist| - 1];
      ghost var rest := worklist[..|worklist| - 1];
      assert worklist == rest + [bb];
      worklist := worklist[..|worklist| - 1];
      if bb !in live {
        ghost var before := live;
        live := live + {bb};
        assert bb !in live0;
        assert live - live0 == (before - live0) + {bb};
        forall r ensures LiveIn(r, live - live0, btrsLive, atEnd) <==>
          LiveIn(r, before - live0, btrsLive, atEnd) || r in btrsLive[bb] || r in atEnd[bb]
        {
          LiveInMore(r, before - live0, bb, btrsLive, atEnd);
        }
        assert bb in Blocks(|preds|) - before;
        btrs := btrs + btrsLive[bb];
        btrs := btrs + atEnd[bb];
        worklist := PushPreds(worklist, preds[bb], live);
        GrowingAdd(live0, before, rest, bb, worklist, targets, preds);
      } else {
        GrowingPop(live0, live, rest, bb, targets, preds);
      }
    }
    GrowingDone(live0, live, targets, preds);
    assert forall k :: 0 <= k < |work0| ==> work0[k] in targets;
  }

  // ---- augment_live_range ----------------------------------------------------------------------

  /** What every live range is kept to be: head is in it, dominates all of it, and it is closed under
      predecessors but at head. */
  ghost predicate LiveRange(live: set<nat>, head: nat, preds: Preds) {
    && head in live && Closed(live, head, preds)
    && forall b :: b in live ==> b < |preds| && Dominates(head, b, preds)
  }

  /** Which blocks augment_live_range takes in. base is what it starts its walk from. */
  ghost predicate Augmented(live0: set<nat>, live: set<nat>, head: nat, new_bb: nat, headDom: bool, preds: Preds)
    requires head < |preds|
  {
    if headDom then
      live0 <= live && forall b: nat :: b in live - live0 <==> b < |preds| && LeadsTo(b, {new_bb}, live0, preds)
    else
      && live0 + {new_bb} <= live
      && forall b: nat :: b in live - (live0 + {new_bb}) <==>
         b < |preds| && LeadsTo(b, Elems(preds[head]), live0 + {new_bb}, preds)
  }

  lemma EdgesInside(preds: Preds, b: nat)
    requires Graph(preds) && b < |preds|
    ensures forall k :: 0 <= k < |preds[b]| ==> preds[b][k] < |preds|
  {
  }

  /** A block already in the live range leads nowhere. */
  lemma NothingNew(live0: set<nat>, t: nat, preds: Preds)
    requires t in live0
    ensures forall b :: !LeadsTo(b, {t}, live0, preds)
  {
  }

  lemma DominatesTrans(a: nat, b: nat, c: nat, preds: Preds)
    requires Dominates(a, b, preds) && Dominates(b, c, preds)
    ensures Dominates(a, c, preds)
  {
    forall p | Walks(p, preds) && p[0] == ENTRY_BLOCK && p[|p| - 1] == c ensures a in p {
      assert b in p;
      var k :| 0 <= k < |p| && p[k] == b;
      var q := p[..k + 1];
      assert Walks(q, preds) && q[|q| - 1] == b;
      assert a in q;
    }
  }

  lemma DominatesSelf(b: nat, preds: Preds)
    ensures Dominates(b, b, preds)
  {
  }

  /** Concatenating a path to b with one from b. */
  lemma Joined(p: seq<nat>, q: seq<nat>, preds: Preds)
    requires Walks(p, preds) && Walks(q, preds) && p[|p| - 1] == q[0]
    ensures Walks(p + q[1..], preds)
  {
    var r := p + q[1..];
    forall k | 0 <= k < |r| ensures r[k] == if k < |p| then p[k] else q[k - |p| + 1] {
    }
    forall k | 0 < k < |r| ensures r[k - 1] in preds[r[k]] {
      if k >= |p| {
        var j := k - |p| + 1;
        assert r[k] == q[j] && r[k - 1] == q[j - 1];
      }
    }
  }

  /** If a dominates the end of a path from b that does not pass through a, then a dominates b. */
  lemma DominatesSource(a: nat, b: nat, q: seq<nat>, preds: Preds)
    requires Walks(q, preds) && q[0] == b && a !in q && Dominates(a, q[|q| - 1], preds)
    ensures Dominates(a, b, preds)
  {
    forall p | Walks(p, preds) && p[0] == ENTRY_BLOCK && p[|p| - 1] == b ensures a in p {
      Joined(p, q, preds);
      var r := p + q[1..];
      assert a in r;
      assert forall x :: x in q[1..] ==> x in q;
    }
  }

  lemma AddedBelow(live0: set<nat>, b: nat, head: nat, new_bb: nat, preds: Preds)
    requires head in live0 && LeadsTo(b, {new_bb}, live0, preds) && Dominates(head, new_bb, preds)
    ensures Dominates(head, b, preds)
  {
    hide Dominates;
    var q :| Outside(q, live0, preds) && q[0] == b && q[|q| - 1] in {new_bb};
    assert forall k :: 0 <= k < |q| ==> q[k] != head;
    DominatesSource(head, b, q, preds);
  }

  lemma AddedAbove(base: set<nat>, b: nat, head: nat, new_bb: nat, preds: Preds)
    requires head < |preds| && new_bb in base && new_bb != head && Dominates(new_bb, head, preds)
    requires LeadsTo(b, Elems(preds[head]), base, preds)
    ensures Dominates(new_bb, b, preds)
  {
    hide Dominates;
    var q :| Outside(q, base, preds) && q[0] == b && q[|q| - 1] in Elems(preds[head]);
    assert forall k :: 0 <= k < |q| ==> q[k] != new_bb;
    Joined(q, [q[|q| - 1], head], preds);
    var r := q + [q[|q| - 1], head][1..];
    assert r == q + [head];
    DominatesSource(new_bb, b, r, preds);
  }

  lemma StillLiveRange(live0: set<nat>, live: set<nat>, head: nat, new_bb: nat, headDom: bool, preds: Preds)
    requires Graph(preds) && head < |preds| && new_bb < |preds| && new_bb in live
    requires LiveRange(live0, head, preds) && Augmented(live0, live, head, new_bb, headDom, preds)
    requires headDom ==> Dominates(head, new_bb, preds)
    requires !headDom ==> Dominates(new_bb, head, preds) && new_bb != head && forall p :: p in preds[head] ==> p in live
    requires forall b, p :: b in live && b !in live0 && b != new_bb && b < |preds| && p in preds[b] ==> p in live
    requires headDom ==> forall b, p :: b in live && b !in live0 && b < |preds| && p in preds[b] ==> p in live
    ensures LiveRange(live, if headDom then head else new_bb, preds)
  {
    hide Dominates, LeadsTo;
    var h := if headDom then head else new_bb;
    forall b | b in live ensures b < |preds| && Dominates(h, b, preds) {
      if b in live0 {
        if !headDom { DominatesTrans(new_bb, head, b, preds); }
      } else if headDom {
        AddedBelow(live0, b, head, new_bb, preds);
      } else if b != new_bb {
        AddedAbove(live0 + {new_bb}, b, head, new_bb, preds);
      } else {
        DominatesSelf(b, preds);
      }
    }
  }

  lemma AddedLive(added: set<nat>, btrs: set<nat>, btrsLive: seq<set<nat>>, atEnd: seq<set<nat>>)
    requires |btrsLive| == |atEnd| && forall r :: LiveIn(r, added, btrsLive, atEnd) ==> r in btrs
    ensures forall b :: b in added && b < |atEnd| ==> btrsLive[b] <= btrs && atEnd[b] <= btrs
  {
    forall b | b in added && b < |atEnd| ensures btrsLive[b] <= btrs && atEnd[b] <= btrs {
      forall r | r in btrsLive[b] || r in atEnd[b] ensures r in btrs { assert LiveIn(r, added, btrsLive, atEnd); }
    }
  }

  /** augment_live_range. headDom is what dominated_by_p says of new_bb and head_bb. */
  method AugmentLiveRange(live0: set<nat>, btrs0: set<nat>, head: nat, new_bb: nat, headDom: bool, fullRange: bool,
                          preds: Preds, btrsLive: seq<set<nat>>, atEnd: seq<set<nat>>)
    returns (live: set<nat>, btrs: set<nat>)
    requires Graph(preds) && |btrsLive| == |atEnd| == |preds| && head < |preds| && new_bb < |preds|
    requires headDom <==> Dominates(head, new_bb, preds)
    requires headDom || Dominates(new_bb, head, preds)
    requires head in live0
    ensures Augmented(live0, live, head, new_bb, headDom, preds) && new_bb in live
    ensures headDom ==> forall r :: r in btrs <==>
      || r in btrs0 || (new_bb == head && fullRange && r in btrsLive[head]) || LiveIn(r, live - live0, btrsLive, atEnd)
    ensures !headDom ==> forall r :: r in btrs <==>
      || r in btrs0 || r in btrsLive[head] || r in atEnd[new_bb] || (fullRange && r in btrsLive[new_bb])
      || LiveIn(r, live - live0 - {new_bb}, btrsLive, atEnd)
    ensures btrs0 <= btrs && forall b :: b in live - live0 - {new_bb} ==>
      b < |atEnd| && btrsLive[b] <= btrs && atEnd[b] <= btrs
    ensures LiveRange(live0, head, preds) ==> LiveRange(live, if headDom then head else new_bb, preds)
  {
    hide LiveIn, LeadsTo, Graph, Dominates;
    live, btrs := live0, btrs0;
    ghost var base := if headDom then live0 else live0 + {new_bb};
    forall r ensures !LiveIn(r, {}, btrsLive, atEnd) { LiveInNone(r, btrsLive, atEnd); }
    if headDom {
      if new_bb == head {
        if fullRange {
          btrs := btrs + btrsLive[new_bb];
        }
        NothingNew(live0, new_bb, preds);
        assert live - live0 == {};
        return;
      }
      live, btrs := Grow(live, [new_bb], btrs, preds, btrsLive, atEnd);
      assert Elems([new_bb]) == {new_bb};
      assert [new_bb][0] in live;
    } else {
      btrs := btrs + btrsLive[head];
      live := live + {new_bb};
      btrs := btrs + atEnd[new_bb];
      if fullRange {
        btrs := btrs + btrsLive[new_bb];
      }
      EdgesInside(preds, head);
      live, btrs := Grow(live, preds[head], btrs, preds, btrsLive, atEnd);
      assert live - live0 - {new_bb} == live - base;
    }
    AddedLive(if headDom then live - live0 else live - live0 - {new_bb}, btrs, btrsLive, atEnd);
    if LiveRange(live0, head, preds) {
      StillLiveRange(live0, live, head, new_bb, headDom, preds);
    }
  }

  /** A live range holds every block of every path from its head to any of its blocks. */
  lemma {:induction false} HoldsPaths(live: set<nat>, head: nat, p: seq<nat>, k: nat, preds: Preds)
    requires LiveRange(live, head, preds) && Walks(p, preds) && p[|p| - 1] in live
    requires forall j :: 0 < j < |p| ==> p[j] != head
    requires k < |p|
    ensures p[k] in live
    decreases |p| - k
  {
    if k + 1 < |p| {
      HoldsPaths(live, head, p, k + 1, preds);
      assert p[k] in preds[p[k + 1]];
    }
  }

  // ---- btr_def_live_range ----------------------------------------------------------------------

  /** A use of the definition: its block, whether its insn is the jump that ends the block of the
      definition, and what dominated_by_p says of the two blocks. */
  datatype Use = Use(bb: nat, endJump: bool, below: bool)

  /** The blocks at which the range may be entered: that of the definition, and those of uses above it. */
  ghost function Entries(defBb: nat, uses: seq<Use>): set<nat> {
    {defBb} + set k | 0 <= k < |uses| && !uses[k].below :: uses[k].bb
  }

  /** live is closed under predecessors, except at the given blocks. */
  ghost predicate ClosedBut(live: set<nat>, heads: set<nat>, preds: Preds) {
    forall b, p :: b in live && b !in heads && b < |preds| && p in preds[b] ==> p in live
  }

  ghost predicate AllBelow(uses: seq<Use>) {
    forall k :: 0 <= k < |uses| ==> uses[k].below
  }

  lemma EntriesMore(defBb: nat, uses: seq<Use>, u: Use)
    ensures Entries(defBb, uses + [u]) == Entries(defBb, uses) + (if u.below then {} else {u.bb})
    ensures AllBelow(uses + [u]) <==> AllBelow(uses) && u.below
  {
    var more := uses + [u];
    assert more[|uses|] == u && forall k :: 0 <= k < |uses| ==> more[k] == uses[k];
    forall b ensures b in Entries(defBb, more) <==> b in Entries(defBb, uses) || (!u.below && b == u.bb) {
      if k :| 0 <= k < |uses| && !uses[k].below && uses[k].bb == b { assert !more[k].below && more[k].bb == b; }
    }
  }

  /** Taking in one more use keeps the range closed. */
  lemma ClosedMore(live0: set<nat>, live: set<nat>, defBb: nat, uses: seq<Use>, u: Use, preds: Preds)
    requires Graph(preds) && defBb < |preds| && Augmented(live0, live, defBb, u.bb, u.below, preds)
    requires defBb in live0 && ClosedBut(live0, Entries(defBb, uses), preds)
    ensures live0 <= live && ClosedBut(live, Entries(defBb, uses + [u]), preds)
  {
    hide LeadsTo;
    EntriesMore(defBb, uses, u);
    var base := if u.below then live0 else live0 + {u.bb};
    var targets := if u.below then {u.bb} else Elems(preds[defBb]);
    forall b, p | b in live && b !in Entries(defBb, uses + [u]) && b < |preds| && p in preds[b] ensures p in live {
      if b !in live0 && p !in base { LeadsMore(p, b, targets, base, preds); }
    }
  }

  ghost function UseBlocks(uses: seq<Use>): set<nat> {
    set k | 0 <= k < |uses| :: uses[k].bb
  }

  /** live is the block of the definition and all blocks that lead to a use without coming through it. */
  ghost predicate UpTo(live: set<nat>, defBb: nat, uses: seq<Use>, preds: Preds) {
    forall b: nat :: b in live <==> b == defBb || LeadsTo(b, UseBlocks(uses), {defBb}, preds)
  }

  /** Some use in the block of the definition needs that block in full. */
  ghost predicate FullUse(defBb: nat, uses: seq<Use>, exclusive: bool) {
    exists k :: 0 <= k < |uses| && uses[k].bb == defBb && (exclusive || !uses[k].endJump)
  }

  /** The registers live where the web is: at its definition, and in the other blocks of its range. */
  ghost predicate LiveAlong(r: nat, live: set<nat>, defBb: nat, uses: seq<Use>, exclusive: bool,
                            btrsLive: seq<set<nat>>, atEnd: seq<set<nat>>)
    requires |btrsLive| == |atEnd| && defBb < |atEnd|
  {
    || r in (if exclusive then btrsLive else atEnd)[defBb]
    || (FullUse(defBb, uses, exclusive) && r in btrsLive[defBb])
    || LiveIn(r, live - {defBb}, btrsLive, atEnd)
  }

  lemma LeadsMono(b: nat, targets: set<nat>, live: set<nat>, targets': set<nat>, live': set<nat>, preds: Preds)
    requires LeadsTo(b, targets, live, preds) && targets <= targets' && live' <= live
    ensures LeadsTo(b, targets', live', preds)
  {
    var p :| Outside(p, live, preds) && p[0] == b && p[|p| - 1] in targets;
    assert Outside(p, live', preds);
  }

  /** Every block that leads to a use is in a live range that holds the uses. */
  lemma LeadingIsIn(b: nat, live: set<nat>, defBb: nat, uses: seq<Use>, preds: Preds)
    requires LiveRange(live, defBb, preds) && (forall k :: 0 <= k < |uses| ==> uses[k].bb in live)
    requires LeadsTo(b, UseBlocks(uses), {defBb}, preds)
    ensures b in live
  {
    var p :| Outside(p, {defBb}, preds) && p[0] == b && p[|p| - 1] in UseBlocks(uses);
    HoldsPaths(live, defBb, p, 0, preds);
  }

  /** One more use has been taken in. */
  lemma UpToMore(live: set<nat>, live': set<nat>, defBb: nat, uses: seq<Use>, u: Use, preds: Preds)
    requires UpTo(live, defBb, uses, preds) && LiveRange(live', defBb, preds) && defBb < |preds|
    requires Augmented(live, live', defBb, u.bb, true, preds)
    requires forall k :: 0 <= k < |uses + [u]| ==> (uses + [u])[k].bb in live'
    ensures UpTo(live', defBb, uses + [u], preds)
  {
    hide LeadsTo;
    var more := uses + [u];
    assert forall k :: 0 <= k < |uses| ==> more[k] == uses[k];
    assert more[|uses|] == u;
    forall b: nat ensures b in live' <==> b == defBb || LeadsTo(b, UseBlocks(more), {defBb}, preds) {
      if LeadsTo(b, UseBlocks(more), {defBb}, preds) { LeadingIsIn(b, live', defBb, more, preds); }
      if b in live && b != defBb { LeadsMono(b, UseBlocks(uses), {defBb}, UseBlocks(more), {defBb}, preds); }
      if b in live' && b !in live { LeadsMono(b, {u.bb}, live, UseBlocks(more), {defBb}, preds); }
    }
  }

  lemma UpToNone(defBb: nat, preds: Preds)
    ensures UpTo({defBb}, defBb, [], preds)
  {
  }

  lemma LiveAlongMore(r: nat, live: set<nat>, live': set<nat>, defBb: nat, uses: seq<Use>, u: Use, exclusive: bool,
                      btrsLive: seq<set<nat>>, atEnd: seq<set<nat>>)
    requires |btrsLive| == |atEnd| && defBb < |atEnd| && u.bb < |atEnd| && live <= live' && defBb in live
    ensures LiveAlong(r, live', defBb, uses + [u], exclusive, btrsLive, atEnd) <==>
      || LiveAlong(r, live, defBb, uses, exclusive, btrsLive, atEnd)
      || (u.bb == defBb && (exclusive || !u.endJump) && r in btrsLive[defBb])
      || LiveIn(r, live' - live, btrsLive, atEnd)
  {
    var more := uses + [u];
    assert more[|uses|] == u && forall k :: 0 <= k < |uses| ==> more[k] == uses[k];
    if k :| 0 <= k < |uses| && uses[k].bb == defBb && (exclusive || !uses[k].endJump) {
      assert more[k].bb == defBb && (exclusive || !more[k].endJump);
    }
    if k :| 0 <= k < |more| && more[k].bb == defBb && (exclusive || !more[k].endJump) {
      assert k < |uses| ==> uses[k].bb == defBb && (exclusive || !uses[k].endJump);
    }
    assert FullUse(defBb, more, exclusive) <==>
      FullUse(defBb, uses, exclusive) || (u.bb == defBb && (exclusive || !u.endJump));
    assert LiveIn(r, live' - {defBb}, btrsLive, atEnd) <==>
      LiveIn(r, live - {defBb}, btrsLive, atEnd) || LiveIn(r, live' - live, btrsLive, atEnd) by {
      if b :| b in live' - {defBb} && b < |btrsLive| && (r in btrsLive[b] || r in atEnd[b]) {
        assert b in live - {defBb} || b in live' - live;
      }
      if b :| b in live - {defBb} && b < |btrsLive| && (r in btrsLive[b] || r in atEnd[b]) {
        assert b in live' - {defBb};
      }
      if b :| b in live' - live && b < |btrsLive| && (r in btrsLive[b] || r in atEnd[b]) {
        assert b in live' - {defBb};
      }
    }
  }

  lemma LiveAlongNone(r: nat, defBb: nat, exclusive: bool, btrsLive: seq<set<nat>>, atEnd: seq<set<nat>>)
    requires |btrsLive| == |atEnd| && defBb < |atEnd|
    ensures LiveAlong(r, {defBb}, defBb, [], exclusive, btrsLive, atEnd) <==>
      r in (if exclusive then btrsLive else atEnd)[defBb]
  {
  }

  /** btrs holds what is live in the blocks of the range, save perhaps at those where it is entered, and
      nothing that is live in none of them. */
  ghost predicate Covers(btrs: set<nat>, live: set<nat>, heads: set<nat>, btrsLive: seq<set<nat>>, atEnd: seq<set<nat>>)
    requires |btrsLive| == |atEnd|
  {
    && (forall b :: b in live && b !in heads && b < |atEnd| ==> btrsLive[b] <= btrs && atEnd[b] <= btrs)
    && forall r :: r in btrs ==> LiveIn(r, live, btrsLive, atEnd)
  }

  lemma AllLiveIn(b: nat, added: set<nat>, btrsLive: seq<set<nat>>, atEnd: seq<set<nat>>)
    requires |btrsLive| == |atEnd| && b < |btrsLive| && b in added
    ensures forall r :: r in btrsLive[b] || r in atEnd[b] ==> LiveIn(r, added, btrsLive, atEnd)
  {
  }

  lemma LiveInLarger(r: nat, blocks: set<nat>, more: set<nat>, btrsLive: seq<set<nat>>, atEnd: seq<set<nat>>)
    requires |btrsLive| == |atEnd| && blocks <= more && LiveIn(r, blocks, btrsLive, atEnd)
    ensures LiveIn(r, more, btrsLive, atEnd)
  {
  }

  lemma CoversMore(btrs0: set<nat>, btrs: set<nat>, live0: set<nat>, live: set<nat>, defBb: nat, heads: set<nat>,
                   u: Use, fullRange: bool,
                   btrsLive: seq<set<nat>>, atEnd: seq<set<nat>>)
    requires |btrsLive| == |atEnd| && defBb < |atEnd| && u.bb < |atEnd| && defBb in live0 && live0 <= live
    requires u.bb in live
    requires Covers(btrs0, live0, heads, btrsLive, atEnd)
    requires u.below ==> forall r :: r in btrs <==>
      || r in btrs0 || (u.bb == defBb && fullRange && r in btrsLive[defBb]) || LiveIn(r, live - live0, btrsLive, atEnd)
    requires !u.below ==> forall r :: r in btrs <==>
      || r in btrs0 || r in btrsLive[defBb] || r in atEnd[u.bb] || (fullRange && r in btrsLive[u.bb])
      || LiveIn(r, live - live0 - {u.bb}, btrsLive, atEnd)
    ensures Covers(btrs, live, heads + (if u.below then {} else {u.bb}), btrsLive, atEnd)
  {
    var added := live - live0 - (if u.below then {} else {u.bb});
    forall b | b in live && b !in heads + (if u.below then {} else {u.bb}) && b < |atEnd|
      ensures btrsLive[b] <= btrs && atEnd[b] <= btrs
    {
      if b !in live0 { AllLiveIn(b, added, btrsLive, atEnd); }
    }
    forall r | r in btrs ensures LiveIn(r, live, btrsLive, atEnd) {
      if r in btrs0 {
        LiveInLarger(r, live0, live, btrsLive, atEnd);
      } else if LiveIn(r, added, btrsLive, atEnd) {
        LiveInLarger(r, added, live, btrsLive, atEnd);
      }
    }
  }

  /** btrs holds what is live where the range is entered, at the definition and at the uses above it: there the
      register is needed from the use on, or from the start of its block, through the end of the block, and in the
      block of the definition up to the definition. */
  ghost predicate Entered(btrs: set<nat>, defBb: nat, uses: seq<Use>, exclusive: bool, btrsLive: seq<set<nat>>,
                          atEnd: seq<set<nat>>)
    requires |btrsLive| == |atEnd| && defBb < |atEnd|
  {
    && (if exclusive then btrsLive else atEnd)[defBb] <= btrs
    && (forall k :: 0 <= k < |uses| && !uses[k].below && uses[k].bb < |atEnd| ==>
          btrsLive[defBb] <= btrs && atEnd[uses[k].bb] <= btrs)
    && (forall k :: 0 <= k < |uses| && !uses[k].below && uses[k].bb < |atEnd| && (exclusive || !uses[k].endJump) ==>
          btrsLive[uses[k].bb] <= btrs)
    && (FullUse(defBb, uses, exclusive) ==> btrsLive[defBb] <= btrs)
  }

  lemma EnteredMore(btrs0: set<nat>, btrs: set<nat>, defBb: nat, uses: seq<Use>, u: Use, exclusive: bool,
                    btrsLive: seq<set<nat>>, atEnd: seq<set<nat>>)
    requires |btrsLive| == |atEnd| && defBb < |atEnd| && u.bb < |atEnd|
    requires Entered(btrs0, defBb, uses, exclusive, btrsLive, atEnd) && btrs0 <= btrs
    requires u.below && u.bb == defBb && (exclusive || !u.endJump) ==> btrsLive[defBb] <= btrs
    requires !u.below ==> btrsLive[defBb] <= btrs && atEnd[u.bb] <= btrs
    requires !u.below && (exclusive || !u.endJump) ==> btrsLive[u.bb] <= btrs
    ensures Entered(btrs, defBb, uses + [u], exclusive, btrsLive, atEnd)
  {
    var more := uses + [u];
    assert more[|uses|] == u && forall k :: 0 <= k < |uses| ==> more[k] == uses[k];
    if k :| 0 <= k < |more| && more[k].bb == defBb && (exclusive || !more[k].endJump) {
      if k < |uses| { assert uses[k].bb == defBb && (exclusive || !uses[k].endJump); }
    }
  }

  lemma CollectStart(defBb: nat, exclusive: bool, preds: Preds, btrsLive: seq<set<nat>>, atEnd: seq<set<nat>>)
    requires |btrsLive| == |atEnd| && defBb < |atEnd| == |preds|
    ensures
      var btrs := (if exclusive then btrsLive else atEnd)[defBb];
      && ClosedBut({defBb}, Entries(defBb, []), preds) && Covers(btrs, {defBb}, Entries(defBb, []), btrsLive, atEnd)
      && LiveRange({defBb}, defBb, preds) && UpTo({defBb}, defBb, [], preds) && AllBelow([])
      && Entered(btrs, defBb, [], exclusive, btrsLive, atEnd)
      && forall r :: r in btrs <==> LiveAlong(r, {defBb}, defBb, [], exclusive, btrsLive, atEnd)
  {
    hide Dominates, UpTo, LiveAlong;
    DominatesSelf(defBb, preds);
    UpToNone(defBb, preds);
    var btrs := (if exclusive then btrsLive else atEnd)[defBb];
    forall r ensures LiveAlong(r, {defBb}, defBb, [], exclusive, btrsLive, atEnd) <==> r in btrs {
      LiveAlongNone(r, defBb, exclusive, btrsLive, atEnd);
    }
    forall r | r in btrs ensures LiveIn(r, {defBb}, btrsLive, atEnd) { assert defBb in {defBb}; }
  }

  /** The first part of btr_def_live_range: collect the blocks of a web, and the registers live in them. */
  method CollectRange(defBb: nat, uses: seq<Use>, exclusive: bool, preds: Preds, btrsLive: seq<set<nat>>,
                      atEnd: seq<set<nat>>)
    returns (live: set<nat>, btrs: set<nat>)
    requires Graph(preds) && |btrsLive| == |atEnd| == |preds| && defBb < |preds|
    requires forall k :: 0 <= k < |uses| ==>
      uses[k].bb < |preds| && (uses[k].below <==> Dominates(defBb, uses[k].bb, preds))
    requires forall k :: 0 <= k < |uses| ==> uses[k].below || Dominates(uses[k].bb, defBb, preds)
    ensures defBb in live && (forall k :: 0 <= k < |uses| ==> uses[k].bb in live)
    ensures ClosedBut(live, Entries(defBb, uses), preds) && Covers(btrs, live, Entries(defBb, uses), btrsLive, atEnd)
    ensures Entered(btrs, defBb, uses, exclusive, btrsLive, atEnd)
    ensures AllBelow(uses) ==> LiveRange(live, defBb, preds) && UpTo(live, defBb, uses, preds)
    ensures AllBelow(uses) ==> forall r :: r in btrs <==> LiveAlong(r, live, defBb, uses, exclusive, btrsLive, atEnd)
  {
    hide Dominates, LeadsTo, LiveIn, Graph, UpTo, LiveAlong, Augmented, Covers, Entries, ClosedBut, AllBelow, Entered;
    live := {defBb};
    btrs := (if exclusive then btrsLive else atEnd)[defBb];
    CollectStart(defBb, exclusive, preds, btrsLive, atEnd);
    var k := 0;
    assert uses[..0] == [];
    while k < |uses|
      invariant k <= |uses| && defBb in live && forall i :: 0 <= i < k ==> uses[i].bb in live
      invariant ClosedBut(live, Entries(defBb, uses[..k]), preds)
      invariant Covers(btrs, live, Entries(defBb, uses[..k]), btrsLive, atEnd)
      invariant Entered(btrs, defBb, uses[..k], exclusive, btrsLive, atEnd)
      invariant AllBelow(uses[..k]) ==> LiveRange(live, defBb, preds) && UpTo(live, defBb, uses[..k], preds)
      invariant AllBelow(uses[..k]) ==> forall r :: r in btrs <==>
        LiveAlong(r, live, defBb, uses[..k], exclusive, btrsLive, atEnd)
    {
      ghost var live0, btrs0 := live, btrs;
      var u := uses[k];
      live, btrs := AugmentLiveRange(live, btrs, defBb, u.bb, u.below, exclusive || !u.endJump, preds, btrsLive, atEnd);
      assert uses[..k + 1] == uses[..k] + [u];
      EntriesMore(defBb, uses[..k], u);
      ClosedMore(live0, live, defBb, uses[..k], u, preds);
      CoversMore(btrs0, btrs, live0, live, defBb, Entries(defBb, uses[..k]), u, exclusive || !u.endJump, btrsLive,
                 atEnd);
      EnteredMore(btrs0, btrs, defBb, uses[..k], u, exclusive, btrsLive, atEnd);
      if AllBelow(uses[..k + 1]) {
        UpToMore(live0, live, defBb, uses[..k], u, preds);
        forall r ensures r in btrs <==> LiveAlong(r, live, defBb, uses[..k + 1], exclusive, btrsLive, atEnd) {
          LiveAlongMore(r, live0, live, defBb, uses[..k], u, exclusive, btrsLive, atEnd);
        }
      }
      k := k + 1;
    }
    assert uses[..k] == uses;
  }

  /** btr_def_live_range. own is def->btr, to be left out unless it has other uses in the blocks of the
      definition or of a use. */
  method DefLiveRange(known: Option<set<nat>>, defBb: nat, uses: seq<Use>, exclusive: bool, own: nat, otherUses: bool,
                      preds: Preds, btrsLive: seq<set<nat>>, atEnd: seq<set<nat>>)
    returns (live: set<nat>, btrs: set<nat>, ghost all: set<nat>)
    requires Graph(preds) && |btrsLive| == |atEnd| == |preds| && defBb < |preds|
    requires forall k :: 0 <= k < |uses| ==>
      uses[k].bb < |preds| && (uses[k].below <==> Dominates(defBb, uses[k].bb, preds))
    requires forall k :: 0 <= k < |uses| ==> uses[k].below || Dominates(uses[k].bb, defBb, preds)
    requires known.Some? ==> forall b :: b in known.value ==> b < |preds|
    ensures btrs == if otherUses then all else all - {own}
    ensures known.Some? ==> live == known.value
    ensures known.Some? ==> forall r :: r in all <==>
      exists b :: b in live && r in (if b == defBb && !exclusive then atEnd else btrsLive)[b]
    ensures known.None? ==> defBb in live && (forall k :: 0 <= k < |uses| ==> uses[k].bb in live)
    ensures known.None? ==>
      ClosedBut(live, Entries(defBb, uses), preds) && Covers(all, live, Entries(defBb, uses), btrsLive, atEnd)
    ensures known.None? ==> Entered(all, defBb, uses, exclusive, btrsLive, atEnd)
    ensures known.None? && AllBelow(uses) ==> LiveRange(live, defBb, preds) && UpTo(live, defBb, uses, preds)
    ensures known.None? && AllBelow(uses) ==> forall r :: r in all <==>
      LiveAlong(r, live, defBb, uses, exclusive, btrsLive, atEnd)
  {
    hide Dominates, LeadsTo, LiveIn, Graph, UpTo, LiveAlong, Augmented, Covers, Entries, ClosedBut, AllBelow, Entered;
    match known {
      case None =>
        live, btrs := CollectRange(defBb, uses, exclusive, preds, btrsLive, atEnd);
      case Some(blocks) =>
        live := blocks;
        btrs := {};
        var bb := 0;
        while bb < |preds|
          invariant bb <= |preds|
          invariant forall r :: r in btrs <==>
            exists b :: b in live && b < bb && r in (if b == defBb && !exclusive then atEnd else btrsLive)[b]
        {
          if bb in live {
            btrs := btrs + (if bb == defBb && !exclusive then atEnd else btrsLive)[bb];
          }
          bb := bb + 1;
        }
    }
    all := btrs;
    if !otherUses {
      btrs := btrs - {own};
    }
  }
}
