/** Alias sets and their descendants (alias.c). */
module AliasSets {
  /** struct alias_set_entry; children stands for the splay tree keyed by alias set. */
  class AliasSetEntry {
    const alias_set: nat
    var children: set<nat>
    var has_zero_child: bool

    constructor (alias_set: nat)
      ensures this.alias_set == alias_set && children == {} && !has_zero_child
    {
      this.alias_set, children, has_zero_child := alias_set, {}, false;
    }
  }

  /** The vector alias_sets: an entry sits at its own number, and alias set zero has none. */
  ghost predicate Valid(t: array<AliasSetEntry?>)
    reads t, t[..]
  {
    && t.Length > 0 && t[0] == null
    && forall i :: 0 <= i < t.Length && t[i] != null ==> t[i].alias_set == i && 0 !in t[i].children
  }

  /** What an entry says its descendants are, 0 standing for has_zero_child. */
  ghost function Desc(e: AliasSetEntry?): set<nat>
    reads if e == null then {} else {e}
  {
    if e == null then {} else e.children + if e.has_zero_child then {0} else {}
  }

  ghost function Descs(t: array<AliasSetEntry?>): (d: seq<set<nat>>)
    reads t, t[..]
    ensures |d| == t.Length && forall i :: 0 <= i < t.Length ==> d[i] == Desc(t[i])
  {
    seq(t.Length, i requires 0 <= i < t.Length reads t, t[..] => Desc(t[i]))
  }

  /** record_alias_subset. */
  method RecordAliasSubset(t: array<AliasSetEntry?>, superset: nat, subset: nat)
    requires Valid(t) && superset < t.Length && subset < t.Length
    requires superset != subset ==> superset != 0
    modifies t, if t[superset] == null then {} else {t[superset]}
    ensures Valid(t)
    ensures Descs(t) == if superset == subset then old(Descs(t))
      else old(Descs(t))[superset := old(Descs(t))[superset] + {subset} + old(Descs(t))[subset]]
    ensures forall i :: 0 <= i < t.Length && i != superset ==> t[i] == old(t[i])
    ensures t[superset] == old(t[superset]) || fresh(t[superset])
  {
    if superset == subset {
      return;
    }
    ghost var d := Descs(t);
    var superset_entry := t[superset];
    if superset_entry == null {
      superset_entry := new AliasSetEntry(superset);
      t[superset] := superset_entry;
    }
    if subset == 0 {
      superset_entry.has_zero_child := true;
    } else {
      var subset_entry := t[subset];
      if subset_entry != null {
        if subset_entry.has_zero_child {
          superset_entry.has_zero_child := true;
        }
        superset_entry.children := superset_entry.children + subset_entry.children;
      }
      superset_entry.children := superset_entry.children + {subset};
    }
    assert forall i :: 0 <= i < t.Length && i != superset ==> Desc(t[i]) == d[i];
    assert Desc(t[superset]) == d[superset] + {subset} + d[subset];
  }

  // ---- descendants as reachability -------------------------------------------------------------

  type Edges = set<(nat, nat)>

  /** p leads from its first to its last set by recorded superset-subset pairs. */
  ghost predicate Chain(p: seq<nat>, edges: Edges) {
    |p| >= 2 && forall k :: 0 < k < |p| ==> (p[k - 1], p[k]) in edges
  }

  ghost predicate Reaches(edges: Edges, a: nat, b: nat) {
    exists p :: Chain(p, edges) && p[0] == a && p[|p| - 1] == b
  }

  lemma ReachesEdge(edges: Edges, a: nat, b: nat)
    requires (a, b) in edges
    ensures Reaches(edges, a, b)
  {
    assert Chain([a, b], edges);
  }

  lemma ReachesTrans(edges: Edges, a: nat, b: nat, c: nat)
    requires Reaches(edges, a, b) && Reaches(edges, b, c)
    ensures Reaches(edges, a, c)
  {
    var p :| Chain(p, edges) && p[0] == a && p[|p| - 1] == b;
    var q :| Chain(q, edges) && q[0] == b && q[|q| - 1] == c;
    var r := p + q[1..];
    forall k | 0 < k < |r| ensures (r[k - 1], r[k]) in edges {
      if k >= |p| {
        var j := k - |p| + 1;
        assert r[k] == q[j] && r[k - 1] == q[j - 1];
      } else {
        assert r[k] == p[k] && r[k - 1] == p[k - 1];
      }
    }
    assert Chain(r, edges);
  }

  lemma ReachesMono(edges: Edges, more: Edges, a: nat, b: nat)
    requires edges <= more && Reaches(edges, a, b)
    ensures Reaches(more, a, b)
  {
    var p :| Chain(p, edges) && p[0] == a && p[|p| - 1] == b;
    assert Chain(p, more);
  }

  /** Reachability once the pair (sup, sub) is recorded as well. */
  ghost predicate Extended(edges: Edges, sup: nat, sub: nat, a: nat, b: nat) {
    Reaches(edges, a, b) || ((a == sup || Reaches(edges, a, sup)) && (b == sub || Reaches(edges, sub, b)))
  }

  lemma {:induction false} ChainExtended(p: seq<nat>, edges: Edges, sup: nat, sub: nat)
    requires Chain(p, edges + {(sup, sub)})
    ensures Extended(edges, sup, sub, p[0], p[|p| - 1])
    decreases |p|
  {
    var a, n, b := p[0], p[1], p[|p| - 1];
    assert (p[0], p[1]) in edges + {(sup, sub)};
    if (a, n) in edges { ReachesEdge(edges, a, n); }
    if |p| > 2 {
      var q := p[1..];
      assert forall k :: 0 < k < |q| ==> q[k - 1] == p[k] && q[k] == p[k + 1];
      ChainExtended(q, edges, sup, sub);
      if (a, n) in edges {
        if Reaches(edges, n, b) { ReachesTrans(edges, a, n, b); }
        if Reaches(edges, n, sup) { ReachesTrans(edges, a, n, sup); }
      }
    }
  }

  lemma ReachesExtended(edges: Edges, sup: nat, sub: nat, a: nat, b: nat)
    ensures Reaches(edges + {(sup, sub)}, a, b) <==> Extended(edges, sup, sub, a, b)
  {
    var more := edges + {(sup, sub)};
    if Reaches(more, a, b) {
      var p :| Chain(p, more) && p[0] == a && p[|p| - 1] == b;
      ChainExtended(p, edges, sup, sub);
    }
    if Extended(edges, sup, sub, a, b) {
      if Reaches(edges, a, b) {
        ReachesMono(edges, more, a, b);
      } else {
        ReachesEdge(more, sup, sub);
        if Reaches(edges, a, sup) { ReachesMono(edges, more, a, sup); ReachesTrans(more, a, sup, sub); }
        if Reaches(edges, sub, b) { ReachesMono(edges, more, sub, b); ReachesTrans(more, a, sub, b); }
      }
    }
  }

  /** The entries hold exactly the descendants. */
  ghost predicate Exact(d: seq<set<nat>>, edges: Edges) {
    forall a, b :: 0 <= a < |d| ==> (b in d[a] <==> Reaches(edges, a, b))
  }

  /** The sets that already have superset as a descendant know all that it is about to get. */
  ghost predicate Prepared(d: seq<set<nat>>, sup: nat, sub: nat)
    requires sub < |d|
  {
    forall t :: 0 <= t < |d| && t != sup && sup in d[t] ==> sub in d[t] && d[sub] <= d[t]
  }

  /** Recording one pair keeps the entries exact in just this case: record_alias_subset does not
      look for the supersets of its superset. */
  lemma RecordingIsExact(d: seq<set<nat>>, edges: Edges, sup: nat, sub: nat)
    requires Exact(d, edges) && sup < |d| && sub < |d| && sup != sub
    ensures Exact(d[sup := d[sup] + {sub} + d[sub]], edges + {(sup, sub)}) <==> Prepared(d, sup, sub)
  {
    var d', more := d[sup := d[sup] + {sub} + d[sub]], edges + {(sup, sub)};
    forall a, b | 0 <= a < |d|
      ensures Reaches(more, a, b) <==> b in d[a] || ((a == sup || sup in d[a]) && (b == sub || b in d[sub]))
    {
      ReachesExtended(edges, sup, sub, a, b);
    }
    if Exact(d', more) {
      forall t | 0 <= t < |d| && t != sup && sup in d[t] ensures sub in d[t] && d[sub] <= d[t] {
        assert d'[t] == d[t];
        assert Reaches(more, t, sub);
        forall b | b in d[sub] ensures b in d[t] { assert Reaches(more, t, b); }
      }
    }
  }

  /** Every set has recorded its children before it becomes a child itself. */
  ghost predicate ChildrenFirst(pairs: seq<(nat, nat)>) {
    forall i, j :: 0 <= i < j < |pairs| && pairs[j].0 != pairs[j].1 ==> pairs[i].1 != pairs[j].0
  }

  ghost function Recorded(pairs: seq<(nat, nat)>): Edges {
    set k | 0 <= k < |pairs| && pairs[k].0 != pairs[k].1 :: pairs[k]
  }

  lemma NoDesc(e: AliasSetEntry?)
    requires e == null
    ensures Desc(e) == {}
  {
  }

  // ---- whole runs ------------------------------------------------------------------------------

  /** From a to b by pairs that were recorded one before the other, the last one first. */
  ghost predicate Upward(pairs: seq<(nat, nat)>, times: seq<nat>, a: nat, b: nat) {
    && times != [] && (forall k :: 0 <= k < |times| ==> times[k] < |pairs| && pairs[times[k]].0 != pairs[times[k]].1)
    && pairs[times[0]].0 == a && pairs[times[|times| - 1]].1 == b
    && forall k :: 0 < k < |times| ==> times[k] < times[k - 1] && pairs[times[k - 1]].1 == pairs[times[k]].0
  }

  /** b is below a from the bottom up: the pairs that lead from b up to a came in this order. */
  ghost predicate Below(pairs: seq<(nat, nat)>, a: nat, b: nat) {
    exists times :: Upward(pairs, times, a, b)
  }

  /** Whatever is below a set is so from the bottom up. */
  ghost predicate BottomUp(pairs: seq<(nat, nat)>) {
    forall a, b :: Reaches(Recorded(pairs), a, b) ==> Below(pairs, a, b)
  }

  /** The entries hold what is below from the bottom up. */
  ghost predicate Told(d: seq<set<nat>>, pairs: seq<(nat, nat)>) {
    forall a, b :: 0 <= a < |d| ==> (b in d[a] <==> Below(pairs, a, b))
  }

  /** No pair of the way is later than its first. */
  lemma {:induction false} AllBefore(pairs: seq<(nat, nat)>, times: seq<nat>, a: nat, b: nat)
    requires Upward(pairs, times, a, b)
    ensures forall k :: 0 <= k < |times| ==> times[k] <= times[0]
  {
    if |times| > 1 {
      var rest := times[1..];
      AllBefore(pairs, rest, pairs[times[0]].1, b);
      forall k | 0 < k < |times| ensures times[k] <= times[0] { assert times[k] == rest[k - 1]; }
    }
  }

  lemma UpwardEarlier(pairs: seq<(nat, nat)>, e: (nat, nat), times: seq<nat>, a: nat, b: nat)
    requires Upward(pairs + [e], times, a, b) && times[0] < |pairs|
    ensures Below(pairs, a, b)
  {
    AllBefore(pairs + [e], times, a, b);
    assert forall k :: 0 <= k < |times| ==> (pairs + [e])[times[k]] == pairs[times[k]];
    assert Upward(pairs, times, a, b);
  }

  lemma UpwardLater(pairs: seq<(nat, nat)>, e: (nat, nat), times: seq<nat>, a: nat, b: nat)
    requires Upward(pairs, times, a, b)
    ensures Below(pairs + [e], a, b)
    ensures e.0 != e.1 == a ==> Below(pairs + [e], e.0, b)
  {
    var more := pairs + [e];
    assert forall k :: 0 <= k < |times| ==> more[times[k]] == pairs[times[k]];
    assert Upward(more, times, a, b);
    if e.0 != e.1 == a {
      var longer: seq<nat> := [|pairs|] + times;
      assert more[longer[0]] == e;
      assert Upward(more, longer, e.0, b);
    }
  }

  lemma BelowNext(pairs: seq<(nat, nat)>, e: (nat, nat), a: nat, b: nat)
    ensures Below(pairs + [e], a, b) <==>
      Below(pairs, a, b) || (e.0 != e.1 && a == e.0 && (b == e.1 || Below(pairs, e.1, b)))
  {
    var more := pairs + [e];
    if times :| Upward(more, times, a, b) {
      if times[0] < |pairs| {
        UpwardEarlier(pairs, e, times, a, b);
      } else if |times| > 1 {
        assert Upward(more, times[1..], e.1, b);
        UpwardEarlier(pairs, e, times[1..], e.1, b);
      }
    }
    if times :| Upward(pairs, times, a, b) { UpwardLater(pairs, e, times, a, b); }
    if times :| Upward(pairs, times, e.1, b) { UpwardLater(pairs, e, times, e.1, b); }
    if e.0 != e.1 && a == e.0 && b == e.1 {
      var last: seq<nat> := [|pairs|];
      assert Upward(more, last, a, b);
    }
  }

  lemma ToldNext(d: seq<set<nat>>, pairs: seq<(nat, nat)>, e: (nat, nat))
    requires Told(d, pairs) && e.0 < |d| && e.1 < |d|
    ensures Told(if e.0 == e.1 then d else d[e.0 := d[e.0] + {e.1} + d[e.1]], pairs + [e])
  {
    var d1 := if e.0 == e.1 then d else d[e.0 := d[e.0] + {e.1} + d[e.1]];
    forall a: nat, b: nat | a < |d| ensures b in d1[a] <==> Below(pairs + [e], a, b) {
      BelowNext(pairs, e, a, b);
    }
  }

  lemma {:induction false} BelowReaches(pairs: seq<(nat, nat)>, times: seq<nat>, a: nat, b: nat)
    requires Upward(pairs, times, a, b)
    ensures Reaches(Recorded(pairs), a, b)
    decreases |times|
  {
    var n := pairs[times[0]].1;
    assert pairs[times[0]] in Recorded(pairs);
    ReachesEdge(Recorded(pairs), a, n);
    if |times| > 1 {
      assert Upward(pairs, times[1..], n, b);
      BelowReaches(pairs, times[1..], n, b);
      ReachesTrans(Recorded(pairs), a, n, b);
    }
  }

  /** A whole run leaves the entries exact in just this case. */
  lemma ExactIffBottomUp(d: seq<set<nat>>, pairs: seq<(nat, nat)>)
    requires Told(d, pairs) && forall k :: 0 <= k < |pairs| ==> pairs[k].0 < |d|
    ensures Exact(d, Recorded(pairs)) <==> BottomUp(pairs)
  {
    forall a, b | Below(pairs, a, b) ensures Reaches(Recorded(pairs), a, b) {
      var times :| Upward(pairs, times, a, b);
      BelowReaches(pairs, times, a, b);
    }
    forall a: nat, b: nat | Reaches(Recorded(pairs), a, b) ensures a < |d| {
      var p :| Chain(p, Recorded(pairs)) && p[0] == a && p[|p| - 1] == b;
      assert (p[0], p[1]) in Recorded(pairs);
    }
  }

  lemma RecordedAt(pairs: seq<(nat, nat)>, a: nat, b: nat) returns (i: nat)
    requires (a, b) in Recorded(pairs)
    ensures i < |pairs| && pairs[i] == (a, b) && a != b && Upward(pairs, [i], a, b)
  {
    i :| i < |pairs| && pairs[i].0 != pairs[i].1 && pairs[i] == (a, b);
  }

  lemma UpwardMore(pairs: seq<(nat, nat)>, i: nat, times: seq<nat>, a: nat, n: nat, b: nat)
    requires Upward(pairs, [i], a, n) && Upward(pairs, times, n, b) && times[0] < i
    ensures Upward(pairs, [i] + times, a, b)
  {
    var more := [i] + times;
    assert forall k :: 0 < k < |more| ==> more[k] == times[k - 1];
  }

  /** Children first is from the bottom up. */
  lemma {:induction false} FirstIsUpward(pairs: seq<(nat, nat)>, p: seq<nat>) returns (times: seq<nat>)
    requires ChildrenFirst(pairs) && Chain(p, Recorded(pairs))
    ensures Upward(pairs, times, p[0], p[|p| - 1])
    decreases |p|
  {
    hide Recorded;
    assert (p[0], p[1]) in Recorded(pairs);
    var i := RecordedAt(pairs, p[0], p[1]);
    times := [i];
    if |p| > 2 {
      var q := p[1..];
      assert forall k :: 0 < k < |q| ==> q[k - 1] == p[k] && q[k] == p[k + 1];
      var rest := FirstIsUpward(pairs, q);
      UpwardMore(pairs, i, rest, p[0], p[1], p[|p| - 1]);
      times := [i] + rest;
    }
  }

  lemma FirstIsBottomUp(pairs: seq<(nat, nat)>)
    requires ChildrenFirst(pairs)
    ensures BottomUp(pairs)
  {
    forall a, b | Reaches(Recorded(pairs), a, b) ensures Below(pairs, a, b) {
      var p :| Chain(p, Recorded(pairs)) && p[0] == a && p[|p| - 1] == b;
      var times := FirstIsUpward(pairs, p);
    }
  }

  lemma NothingTold(d: seq<set<nat>>)
    requires forall i :: 0 <= i < |d| ==> d[i] == {}
    ensures Told(d, [])
  {
  }

  /** A whole run of recordings. */
  method RecordAll(t: array<AliasSetEntry?>, pairs: seq<(nat, nat)>)
    requires Valid(t) && forall i :: 0 <= i < t.Length ==> t[i] == null
    requires forall k :: 0 <= k < |pairs| ==> pairs[k].0 < t.Length && pairs[k].1 < t.Length
    requires forall k :: 0 <= k < |pairs| && pairs[k].0 != pairs[k].1 ==> pairs[k].0 != 0
    modifies t
    ensures Valid(t) && Told(Descs(t), pairs)
    ensures Exact(Descs(t), Recorded(pairs)) <==> BottomUp(pairs)
  {
    hide Below, Reaches, Desc, BottomUp;
    var k := 0;
    forall i | 0 <= i < t.Length ensures Descs(t)[i] == {} { NoDesc(t[i]); }
    NothingTold(Descs(t));
    while k < |pairs|
      invariant k <= |pairs| && Valid(t) && Told(Descs(t), pairs[..k])
      invariant forall i :: 0 <= i < t.Length && t[i] != null ==> fresh(t[i])
    {
      var (superset, subset) := pairs[k];
      ToldNext(Descs(t), pairs[..k], pairs[k]);
      assert pairs[..k + 1] == pairs[..k] + [pairs[k]];
      RecordAliasSubset(t, superset, subset);
      k := k + 1;
    }
    assert pairs[..|pairs|] == pairs;
    ExactIffBottomUp(Descs(t), pairs);
  }

  /** The other order: 1 gets child 2 before 2 gets child 3, so 1 never learns of 3. */
  lemma LateChildIsMissed()
    ensures !BottomUp([(1, 2), (2, 3)]) && !Below([(1, 2), (2, 3)], 1, 3)
  {
    var pairs: seq<(nat, nat)> := [(1, 2), (2, 3)];
    assert pairs[0] in Recorded(pairs) && pairs[1] in Recorded(pairs);
    assert Chain([1, 2, 3], Recorded(pairs));
    assert Reaches(Recorded(pairs), 1, 3);
    forall times ensures !Upward(pairs, times, 1, 3) {
      if Upward(pairs, times, 1, 3) { AllBefore(pairs, times, 1, 3); }
    }
  }

  /** It may still be told afterwards. */
  lemma LateChildIsTold()
    ensures BottomUp([(1, 2), (2, 3), (1, 3)]) && !ChildrenFirst([(1, 2), (2, 3), (1, 3)])
  {
    var pairs: seq<(nat, nat)> := [(1, 2), (2, 3), (1, 3)];
    assert pairs[0].1 == pairs[1].0;
    forall a, b | Reaches(Recorded(pairs), a, b) ensures Below(pairs, a, b) {
      var p :| Chain(p, Recorded(pairs)) && p[0] == a && p[|p| - 1] == b;
      assert (p[0], p[1]) in Recorded(pairs);
      assert |p| > 2 ==> (p[1], p[2]) in Recorded(pairs);
      forall k | 0 <= k < |p| - 1 ensures p[k] != 3 { assert (p[k + 1 - 1], p[k + 1]) in Recorded(pairs); }
      assert |p| <= 3;
      if |p| > 2 {
        assert Upward(pairs, [2], a, b);
      } else {
        var i := RecordedAt(pairs, a, b);
      }
    }
  }

  // ---- conflicts -------------------------------------------------------------------------------

  /** alias_sets_conflict_p. */
  predicate Conflict(t: array<AliasSetEntry?>, set1: nat, set2: nat)
    requires set1 < t.Length && set2 < t.Length
    reads t, t[..]
  {
    if set1 == 0 || set2 == 0 || set1 == set2 then true
    else if t[set1] != null && (t[set1].has_zero_child || set2 in t[set1].children) then true
    else if t[set2] != null && (t[set2].has_zero_child || set1 in t[set2].children) then true
    else false
  }

  /** References of set a may be to what references of set b are to: a is zero or has zero below it, or b is a or
      below it. */
  ghost predicate Covers(edges: Edges, a: nat, b: nat) {
    a == 0 || a == b || Reaches(edges, a, b) || Reaches(edges, a, 0)
  }

  /** Two sets conflict just if one covers the other; zero, which has no entry, covers all. */
  lemma ConflictIsReachability(t: array<AliasSetEntry?>, edges: Edges, set1: nat, set2: nat)
    requires Valid(t) && Exact(Descs(t), edges) && set1 < t.Length && set2 < t.Length
    ensures Conflict(t, set1, set2) <==> Covers(edges, set1, set2) || Covers(edges, set2, set1)
  {
    var d := Descs(t);
    assert (set2 in d[set1] <==> Reaches(edges, set1, set2)) && (0 in d[set1] <==> Reaches(edges, set1, 0));
    assert (set1 in d[set2] <==> Reaches(edges, set2, set1)) && (0 in d[set2] <==> Reaches(edges, set2, 0));
  }

  /** The same as far as a run of recordings has told. */
  ghost predicate ToldToCover(pairs: seq<(nat, nat)>, a: nat, b: nat) {
    a == 0 || a == b || Below(pairs, a, b) || Below(pairs, a, 0)
  }

  /** After any run two sets conflict just if one of them was told that it covers the other. */
  lemma ConflictAfterRun(t: array<AliasSetEntry?>, pairs: seq<(nat, nat)>, set1: nat, set2: nat)
    requires Valid(t) && Told(Descs(t), pairs) && set1 < t.Length && set2 < t.Length
    ensures Conflict(t, set1, set2) <==> ToldToCover(pairs, set1, set2) || ToldToCover(pairs, set2, set1)
  {
    var d := Descs(t);
    assert (set2 in d[set1] <==> Below(pairs, set1, set2)) && (0 in d[set1] <==> Below(pairs, set1, 0));
    assert (set1 in d[set2] <==> Below(pairs, set2, set1)) && (0 in d[set2] <==> Below(pairs, set2, 0));
  }

  lemma ConflictSymmetric(t: array<AliasSetEntry?>, set1: nat, set2: nat)
    requires set1 < t.Length && set2 < t.Length
    ensures Conflict(t, set1, set2) == Conflict(t, set2, set1)
  {
  }
}
