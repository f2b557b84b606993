/** The reaching-definitions problem of bt-load.c. */
module Dataflow {
  const ENTRY_BLOCK: nat := 0
  const NUM_FIXED_BLOCKS: nat := 2

  /** The control flow graph: preds[b] are the source blocks of the edges into b. */
  type Preds = seq<seq<nat>>

  ghost predicate WellFormed(preds: Preds) {
    forall b, k :: NUM_FIXED_BLOCKS <= b < |preds| && 0 <= k < |preds[b]| ==>
      preds[b][k] == ENTRY_BLOCK || NUM_FIXED_BLOCKS <= preds[b][k] < |preds|
  }

  /** The definitions of the allocatable registers below limit that a block writes. */
  ghost predicate Killed(d: nat, firstBtr: nat, limit: nat, allBtrs: set<nat>, written: set<nat>, defset: seq<set<nat>>)
    requires limit <= firstBtr + |defset|
  {
    exists r :: firstBtr <= r < limit && r in allBtrs && r in written && d in defset[r - firstBtr]
  }

  /** compute_kill: a block kills the definitions of every allocatable register it writes. */
  method ComputeKill(n: nat, firstBtr: nat, lastBtr: nat, allBtrs: set<nat>, written: seq<set<nat>>,
                     defset: seq<set<nat>>)
    returns (kill: seq<set<nat>>)
    requires |written| == n && |defset| + firstBtr == lastBtr + 1
    ensures |kill| == n
    ensures forall i, d :: NUM_FIXED_BLOCKS <= i < n ==>
      (d in kill[i] <==> Killed(d, firstBtr, lastBtr + 1, allBtrs, written[i], defset))
  {
    kill := seq(n, _ => {});
    var i := NUM_FIXED_BLOCKS;
    while i < n
      invariant |kill| == n && i >= NUM_FIXED_BLOCKS
      invariant forall j :: i <= j < n ==> kill[j] == {}
      invariant forall j, d :: NUM_FIXED_BLOCKS <= j < i && j < n ==>
        (d in kill[j] <==> Killed(d, firstBtr, lastBtr + 1, allBtrs, written[j], defset))
    {
      ghost var before := kill;
      var regno := firstBtr;
      while regno <= lastBtr
        invariant firstBtr <= regno <= lastBtr + 1
        invariant |kill| == n && kill == before[i := kill[i]]
        invariant forall d :: d in kill[i] <==> Killed(d, firstBtr, regno, allBtrs, written[i], defset)
      {
        if regno in allBtrs && regno in written[i] {
          kill := kill[i := kill[i] + defset[regno - firstBtr]];
        }
        regno := regno + 1;
      }
      i := i + 1;
    }
  }

  /** A definition is in the union over the predecessors of b, leaving out the entry block. */
  ghost predicate FromPred(d: nat, out: seq<set<nat>>, preds: Preds, b: nat)
    requires WellFormed(preds) && |out| == |preds| && NUM_FIXED_BLOCKS <= b < |preds|
  {
    exists k :: 0 <= k < |preds[b]| && preds[b][k] != ENTRY_BLOCK && d in out[preds[b][k]]
  }

  /** sbitmap_union_of_preds. */
  method UnionOfPreds(out: array<set<nat>>, preds: Preds, b: nat) returns (dst: set<nat>)
    requires WellFormed(preds) && out.Length == |preds| && NUM_FIXED_BLOCKS <= b < |preds|
    ensures forall d :: d in dst <==> FromPred(d, out[..], preds, b)
  {
    dst := {};
    var ix := 0;
    while ix < |preds[b]| && preds[b][ix] == ENTRY_BLOCK
      invariant 0 <= ix <= |preds[b]|
      invariant forall k :: 0 <= k < ix ==> preds[b][k] == ENTRY_BLOCK
    {
      ix := ix + 1;
    }
    if ix < |preds[b]| {
      dst := out[preds[b][ix]];
      ix := ix + 1;
      while ix < |preds[b]|
        invariant 0 < ix <= |preds[b]|
        invariant forall d :: d in dst <==>
          exists k :: 0 <= k < ix && preds[b][k] != ENTRY_BLOCK && d in out[preds[b][k]]
      {
        if preds[b][ix] != ENTRY_BLOCK {
          dst := dst + out[preds[b][ix]];
        }
        ix := ix + 1;
      }
    }
  }

  /** The right-hand side of the dataflow equation at block b. */
  ghost predicate Flows(d: nat, out: seq<set<nat>>, gen: seq<set<nat>>, kill: seq<set<nat>>, preds: Preds, b: nat)
    requires WellFormed(preds) && |out| == |gen| == |kill| == |preds| && NUM_FIXED_BLOCKS <= b < |preds|
  {
    d in gen[b] || (FromPred(d, out, preds, b) && d !in kill[b])
  }

  /** out solves the dataflow equations. */
  ghost predicate Fixpoint(out: seq<set<nat>>, gen: seq<set<nat>>, kill: seq<set<nat>>, preds: Preds)
    requires WellFormed(preds) && |out| == |gen| == |kill| == |preds|
  {
    forall b, d :: NUM_FIXED_BLOCKS <= b < |preds| ==> (d in out[b] <==> Flows(d, out, gen, kill, preds, b))
  }

  /** p is a path of the control flow graph through ordinary blocks. */
  ghost predicate Path(p: seq<nat>, preds: Preds) {
    && p != []
    && (forall k :: 0 <= k < |p| ==> NUM_FIXED_BLOCKS <= p[k] < |preds|)
    && (forall k :: 0 < k < |p| ==> p[k - 1] in preds[p[k]])
  }

  /** Path p carries definition d: its first block generates d and no later block on it kills d. */
  ghost predicate Carries(p: seq<nat>, d: nat, gen: seq<set<nat>>, kill: seq<set<nat>>, preds: Preds)
    requires |gen| == |kill| == |preds|
  {
    && Path(p, preds) && d in gen[p[0]]
    && forall k :: 0 < k < |p| ==> d !in kill[p[k]]
  }

  ghost predicate Reaches(d: nat, b: nat, gen: seq<set<nat>>, kill: seq<set<nat>>, preds: Preds)
    requires |gen| == |kill| == |preds|
  {
    exists p :: Carries(p, d, gen, kill, preds) && p[|p| - 1] == b
  }

  lemma CarriesOne(d: nat, b: nat, gen: seq<set<nat>>, kill: seq<set<nat>>, preds: Preds)
    requires |gen| == |kill| == |preds| && NUM_FIXED_BLOCKS <= b < |preds| && d in gen[b]
    ensures Reaches(d, b, gen, kill, preds)
  {
    assert Carries([b], d, gen, kill, preds);
  }

  lemma CarriesMore(d: nat, a: nat, b: nat, gen: seq<set<nat>>, kill: seq<set<nat>>, preds: Preds)
    requires |gen| == |kill| == |preds| && NUM_FIXED_BLOCKS <= b < |preds|
    requires Reaches(d, a, gen, kill, preds) && a in preds[b] && d !in kill[b]
    ensures Reaches(d, b, gen, kill, preds)
  {
    var p :| Carries(p, d, gen, kill, preds) && p[|p| - 1] == a;
    var q := p + [b];
    assert forall k :: 0 <= k < |p| ==> q[k] == p[k];
    assert Carries(q, d, gen, kill, preds);
  }

  /** Every solution of the equations contains what paths carry. */
  lemma {:induction false} CarriedIsIn(p: seq<nat>, d: nat, out: seq<set<nat>>, gen: seq<set<nat>>, kill: seq<set<nat>>,
                                       preds: Preds)
    requires WellFormed(preds) && |out| == |gen| == |kill| == |preds|
    requires Fixpoint(out, gen, kill, preds) && Carries(p, d, gen, kill, preds)
    ensures d in out[p[|p| - 1]]
    decreases |p|
  {
    var b := p[|p| - 1];
    if |p| > 1 {
      var q := p[..|p| - 1];
      CarriedIsIn(q, d, out, gen, kill, preds);
      var k :| 0 <= k < |preds[b]| && preds[b][k] == p[|p| - 2];
      assert FromPred(d, out, preds, b);
    }
    assert Flows(d, out, gen, kill, preds, b);
  }

  /** The solution computed is the least one, and it is exactly path reachability. */
  lemma LeastSolution(out: seq<set<nat>>, other: seq<set<nat>>, gen: seq<set<nat>>, kill: seq<set<nat>>, preds: Preds)
    requires WellFormed(preds) && |out| == |other| == |gen| == |kill| == |preds|
    requires Fixpoint(other, gen, kill, preds)
    requires forall b, d :: NUM_FIXED_BLOCKS <= b < |preds| && d in out[b] ==> Reaches(d, b, gen, kill, preds)
    ensures forall b :: NUM_FIXED_BLOCKS <= b < |preds| ==> out[b] <= other[b]
  {
    forall b, d | NUM_FIXED_BLOCKS <= b < |preds| && d in out[b] ensures d in other[b] {
      var p :| Carries(p, d, gen, kill, preds) && p[|p| - 1] == b;
      CarriedIsIn(p, d, other, gen, kill, preds);
    }
  }

  // ---- the iteration ---------------------------------------------------------------------------

  /** What every step of the iteration keeps: the sets only hold what they should, and have not yet
      outgrown the right-hand sides. */
  ghost predicate Rising(out: seq<set<nat>>, gen: seq<set<nat>>, kill: seq<set<nat>>, preds: Preds, uids: set<nat>)
    requires WellFormed(preds) && |out| == |gen| == |kill| == |preds|
  {
    && (forall b :: NUM_FIXED_BLOCKS <= b < |preds| ==> out[b] <= uids)
    && (forall b, d :: NUM_FIXED_BLOCKS <= b < |preds| && d in out[b] ==>
          Flows(d, out, gen, kill, preds, b) && Reaches(d, b, gen, kill, preds))
  }

  /** How many definitions the sets still miss: this bounds the number of rounds. */
  ghost function Room(out: seq<set<nat>>, uids: set<nat>): nat {
    if out == [] then 0 else |uids - out[0]| + Room(out[1..], uids)
  }

  lemma {:induction false} SmallerSet(x: set<nat>, y: set<nat>)
    requires x < y
    ensures |x| < |y|
  {
    var e :| e in y && e !in x;
    assert y == (y - x) + x;
    assert e in y - x;
  }

  lemma {:induction false} RoomShrinks(out: seq<set<nat>>, uids: set<nat>, b: nat, s: set<nat>)
    requires b < |out| && out[b] < s <= uids
    ensures Room(out[b := s], uids) < Room(out, uids)
    decreases b
  {
    var next := out[b := s];
    if b == 0 {
      assert uids - s < uids - out[0];
      SmallerSet(uids - s, uids - out[0]);
      assert next[1..] == out[1..];
    } else {
      RoomShrinks(out[1..], uids, b - 1, s);
      assert next[1..] == out[1..][b - 1 := s];
    }
  }

  lemma RisingStart(out: seq<set<nat>>, gen: seq<set<nat>>, kill: seq<set<nat>>, preds: Preds, uids: set<nat>)
    requires WellFormed(preds) && |out| == |gen| == |kill| == |preds|
    requires forall b :: NUM_FIXED_BLOCKS <= b < |preds| ==> out[b] == gen[b] <= uids
    ensures Rising(out, gen, kill, preds, uids)
  {
    forall b, d | NUM_FIXED_BLOCKS <= b < |preds| && d in out[b] ensures Reaches(d, b, gen, kill, preds) {
      CarriesOne(d, b, gen, kill, preds);
    }
  }

  lemma RisingStep(out: seq<set<nat>>, gen: seq<set<nat>>, kill: seq<set<nat>>, preds: Preds, uids: set<nat>, i: nat,
                   s: set<nat>)
    requires WellFormed(preds) && |out| == |gen| == |kill| == |preds| && NUM_FIXED_BLOCKS <= i < |preds|
    requires Rising(out, gen, kill, preds, uids) && gen[i] <= uids
    requires forall d :: d in s <==> Flows(d, out, gen, kill, preds, i)
    ensures out[i] <= s <= uids && Rising(out[i := s], gen, kill, preds, uids)
  {
    var next := out[i := s];
    forall b, d | NUM_FIXED_BLOCKS <= b < |preds| && FromPred(d, out, preds, b) ensures FromPred(d, next, preds, b) {
      var k :| 0 <= k < |preds[b]| && preds[b][k] != ENTRY_BLOCK && d in out[preds[b][k]];
      assert d in next[preds[b][k]];
    }
    forall d | d in s ensures d in uids && Reaches(d, i, gen, kill, preds) {
      if d in gen[i] {
        CarriesOne(d, i, gen, kill, preds);
      } else {
        var k :| 0 <= k < |preds[i]| && preds[i][k] != ENTRY_BLOCK && d in out[preds[i][k]];
        CarriesMore(d, preds[i][k], i, gen, kill, preds);
      }
    }
  }

  lemma ReachesIsIn(d: nat, b: nat, out: seq<set<nat>>, gen: seq<set<nat>>, kill: seq<set<nat>>, preds: Preds)
    requires WellFormed(preds) && |out| == |gen| == |kill| == |preds|
    requires Fixpoint(out, gen, kill, preds) && Reaches(d, b, gen, kill, preds)
    ensures b < |out| && d in out[b]
  {
    var p :| Carries(p, d, gen, kill, preds) && p[|p| - 1] == b;
    CarriedIsIn(p, d, out, gen, kill, preds);
  }

  /** One block: sbitmap_union_of_preds, then sbitmap_union_of_diff_cg. */
  method Round(out: array<set<nat>>, gen: seq<set<nat>>, kill: seq<set<nat>>, preds: Preds, i: nat,
               ghost uids: set<nat>)
    returns (differs: bool)
    requires WellFormed(preds) && out.Length == |gen| == |kill| == |preds| && NUM_FIXED_BLOCKS <= i < |preds|
    requires Rising(out[..], gen, kill, preds, uids) && gen[i] <= uids
    modifies out
    ensures Rising(out[..], gen, kill, preds, uids)
    ensures if differs then Room(out[..], uids) < old(Room(out[..], uids)) else out[..] == old(out[..])
    ensures !differs ==> forall d :: d in out[i] <==> Flows(d, out[..], gen, kill, preds, i)
  {
    hide Rising, FromPred;
    ghost var before := out[..];
    var blockIn := UnionOfPreds(out, preds, i);
    var s := gen[i] + (blockIn - kill[i]);
    RisingStep(before, gen, kill, preds, uids, i, s);
    differs := out[i] != s;
    out[i] := s;
    assert out[..] == before[i := s];
    if differs {
      RoomShrinks(before, uids, i, s);
    }
  }

  /** compute_out: round-robin iteration in place until nothing changes. */
  method ComputeOut(out: array<set<nat>>, gen: seq<set<nat>>, kill: seq<set<nat>>, preds: Preds, ghost uids: set<nat>)
    requires WellFormed(preds) && out.Length == |gen| == |kill| == |preds|
    requires forall b :: NUM_FIXED_BLOCKS <= b < |preds| ==> gen[b] <= uids
    modifies out
    ensures Fixpoint(out[..], gen, kill, preds)
    ensures forall b, d :: NUM_FIXED_BLOCKS <= b < |preds| ==> (d in out[b] <==> Reaches(d, b, gen, kill, preds))
  {
    hide Flows, FromPred, Reaches;
    var n := |preds|;
    var i := NUM_FIXED_BLOCKS;
    while i < n
      invariant i >= NUM_FIXED_BLOCKS
      invariant forall b :: NUM_FIXED_BLOCKS <= b < i && b < n ==> out[b] == gen[b]
    {
      out[i] := gen[i];
      i := i + 1;
    }
    RisingStart(out[..], gen, kill, preds, uids);
    var changed := true;
    while changed
      invariant Rising(out[..], gen, kill, preds, uids)
      invariant !changed ==> Fixpoint(out[..], gen, kill, preds)
      decreases Room(out[..], uids), changed
    {
      changed := false;
      i := NUM_FIXED_BLOCKS;
      ghost var start := out[..];
      while i < n
        invariant i >= NUM_FIXED_BLOCKS && Rising(out[..], gen, kill, preds, uids)
        invariant if changed then Room(out[..], uids) < Room(start, uids) else out[..] == start
        invariant !changed ==> forall b, d :: NUM_FIXED_BLOCKS <= b < i && b < n ==>
          (d in out[b] <==> Flows(d, out[..], gen, kill, preds, b))
      {
        var differs := Round(out, gen, kill, preds, i, uids);
        changed := changed || differs;
        i := i + 1;
      }
    }
    forall b, d | NUM_FIXED_BLOCKS <= b < |preds| && Reaches(d, b, gen, kill, preds) ensures d in out[b] {
      ReachesIsIn(d, b, out[..], gen, kill, preds);
    }
  }
}
