/** Linking the uses of branch target registers to the definitions that reach them (bt-load.c). */
module DefUseWebs {
  import opened Helpers
  import opened Dataflow

  /** struct btr_user_s. use is the register of a single unambiguous use, if there is one, and refs
      the registers that the insn refers to. */
  class BtrUser {
    var next: BtrUser?
    const use: Option<nat>
    const refs: set<nat>
    const other_use_this_block: bool
    var n_reaching_defs: nat
    var first_reaching_def: int

    constructor (use: Option<nat>, refs: set<nat>, other: bool)
      ensures this.use == use && this.refs == refs && other_use_this_block == other
      ensures next == null && n_reaching_defs == 0 && first_reaching_def == -1
    {
      this.use, this.refs, other_use_this_block := use, refs, other;
      next, n_reaching_defs, first_reaching_def := null, 0, -1;
    }
  }

  /** struct btr_def_s. */
  class BtrDef {
    const btr: nat
    var uses: BtrUser?
    var has_ambiguous_use: bool
    var other_btr_uses_after_use: bool

    constructor (btr: nat)
      ensures this.btr == btr && uses == null && !has_ambiguous_use && !other_btr_uses_after_use
    {
      this.btr, uses, has_ambiguous_use, other_btr_uses_after_use := btr, null, false, false;
    }
  }

  /** A use that has been looked at, and the definitions that reach it. */
  datatype Event = Event(user: BtrUser, reach: set<nat>)

  ghost function At(s: seq<BtrUser>, i: int): BtrUser? {
    if 0 <= i < |s| then s[i] else null
  }

  /** Walking next from u visits exactly the users of s. */
  ghost predicate Walk(u: BtrUser?, s: seq<BtrUser>)
    reads s
  {
    u == At(s, 0) && forall k {:trigger s[k].next} :: 0 <= k < |s| ==> s[k].next == At(s, k + 1)
  }

  ghost function UserSet(events: seq<Event>): set<BtrUser> {
    set k | 0 <= k < |events| :: events[k].user
  }

  /** The users among events that definition d reaches, the latest first. */
  ghost function UsersOf(events: seq<Event>, d: nat): (r: seq<BtrUser>)
    ensures forall u :: u in r ==> u in UserSet(events)
  {
    if events == [] then []
    else
      var last := events[|events| - 1];
      (if d in last.reach then [last.user] else []) + UsersOf(events[..|events| - 1], d)
  }

  /** The use cannot be rewritten for d alone: it is not a simple one, or several definitions reach it. */
  ghost predicate Bad(e: Event, d: nat) {
    d in e.reach && (e.user.use == None || e.reach != {d})
  }

  ghost predicate AnyBad(events: seq<Event>, d: nat) {
    exists k :: 0 <= k < |events| && Bad(events[k], d)
  }

  ghost predicate AnyAfter(events: seq<Event>, d: nat) {
    exists k :: 0 <= k < |events| && d in events[k].reach && events[k].user.other_use_this_block
  }

  ghost predicate DistinctUsers(events: seq<Event>) {
    forall i, j :: 0 <= i < j < |events| ==> events[i].user != events[j].user
  }

  /** The state of definition d once the uses in events have been linked. */
  ghost predicate Linked(def: BtrDef, d: nat, events: seq<Event>)
    reads def, UserSet(events)
  {
    && (def.has_ambiguous_use <==> AnyBad(events, d))
    && (def.other_btr_uses_after_use <==> AnyAfter(events, d))
    && (!AnyBad(events, d) ==> Walk(def.uses, UsersOf(events, d)))
  }

  ghost predicate Uses(e: Event, d: nat, u: BtrUser) {
    e.user == u && d in e.reach
  }

  ghost predicate AnyUses(events: seq<Event>, d: nat, u: BtrUser) {
    exists k :: 0 <= k < |events| && Uses(events[k], d, u)
  }

  lemma AnyUsesLast(events: seq<Event>, d: nat, u: BtrUser)
    requires events != []
    ensures AnyUses(events, d, u) <==> AnyUses(events[..|events| - 1], d, u) || Uses(events[|events| - 1], d, u)
  {
    hide Uses;
    var init := events[..|events| - 1];
    assert forall k :: 0 <= k < |init| ==> init[k] == events[k];
    if AnyUses(init, d, u) {
      var k :| 0 <= k < |init| && Uses(init[k], d, u);
      assert Uses(events[k], d, u);
    }
  }

  lemma NoUses(d: nat, u: BtrUser)
    ensures !AnyUses([], d, u)
  {
  }

  lemma {:induction false} UsersOfAre(events: seq<Event>, d: nat, u: BtrUser)
    ensures u in UsersOf(events, d) <==> AnyUses(events, d, u)
  {
    hide AnyUses;
    if events == [] {
      assert !AnyUses(events, d, u) by { NoUses(d, u); }
    } else {
      UsersOfAre(events[..|events| - 1], d, u);
      AnyUsesLast(events, d, u);
    }
  }

  lemma {:induction false} UsersOfDistinct(events: seq<Event>, d: nat)
    requires DistinctUsers(events)
    ensures forall i, j :: 0 <= i < j < |UsersOf(events, d)| ==> UsersOf(events, d)[i] != UsersOf(events, d)[j]
  {
    if events != [] {
      var n := |events| - 1;
      UsersOfDistinct(events[..n], d);
      UsersOfAre(events[..n], d, events[n].user);
      assert forall k :: 0 <= k < n ==> events[..n][k].user != events[n].user;
    }
  }

  /** What the webs are for: the list of an unambiguous definition holds exactly the uses it reaches,
      each once, and it is the only definition that reaches them. */
  lemma WebIsExact(def: BtrDef, d: nat, events: seq<Event>)
    requires Linked(def, d, events) && !def.has_ambiguous_use && DistinctUsers(events)
    ensures Walk(def.uses, UsersOf(events, d))
    ensures forall i, j :: 0 <= i < j < |UsersOf(events, d)| ==> UsersOf(events, d)[i] != UsersOf(events, d)[j]
    ensures forall k :: 0 <= k < |events| ==>
      (events[k].user in UsersOf(events, d) <==> d in events[k].reach)
    ensures forall k :: 0 <= k < |events| && d in events[k].reach ==>
      events[k].reach == {d} && events[k].user.use != None
  {
    UsersOfDistinct(events, d);
    forall k | 0 <= k < |events| ensures events[k].user in UsersOf(events, d) <==> d in events[k].reach {
      UsersOfAre(events, d, events[k].user);
      if d in events[k].reach { assert Uses(events[k], d, events[k].user); }
    }
    assert forall k :: 0 <= k < |events| ==> !Bad(events[k], d);
  }

  // ---- linking one use -------------------------------------------------------------------------

  lemma OneMore(events: seq<Event>, e: Event, d: nat)
    ensures UsersOf(events + [e], d) == (if d in e.reach then [e.user] else []) + UsersOf(events, d)
    ensures AnyBad(events + [e], d) <==> AnyBad(events, d) || Bad(e, d)
    ensures AnyAfter(events + [e], d) <==> AnyAfter(events, d) || (d in e.reach && e.user.other_use_this_block)
  {
    var more := events + [e];
    assert more[..|more| - 1] == events && more[|events|] == e;
    if k :| 0 <= k < |events| && Bad(events[k], d) { assert Bad(more[k], d); }
    if k :| 0 <= k < |events| && d in events[k].reach && events[k].user.other_use_this_block {
      assert more[k] == events[k];
    }
    if Bad(e, d) { assert Bad(more[|events|], d); }
  }

  ghost function Defs(defArray: seq<BtrDef?>): set<object> {
    set d | 0 <= d < |defArray| && defArray[d] != null :: defArray[d]
  }

  /** def_array: no definition occurs twice, and all are linked to the uses in events. */
  ghost predicate Table(defArray: seq<BtrDef?>, events: seq<Event>)
    reads Defs(defArray), UserSet(events)
  {
    && (forall i, j :: 0 <= i < j < |defArray| && defArray[i] != null ==> defArray[i] != defArray[j])
    && (forall d: nat :: d < |defArray| && defArray[d] != null ==> Linked(defArray[d], d, events))
  }

  ghost predicate Fresh(user: BtrUser, events: seq<Event>) {
    forall k :: 0 <= k < |events| ==> events[k].user != user
  }

  /** The counters of a use after the definitions in part have been linked to it. */
  ghost predicate Counted(user: BtrUser, part: set<nat>)
    reads user
  {
    && user.n_reaching_defs == |part|
    && (user.first_reaching_def == -1 <==> part == {})
    && (part != {} ==> user.first_reaching_def >= 0 && user.first_reaching_def in part)
    && (forall x :: x in part ==> user.first_reaching_def <= x)
  }

  method Attach(user: BtrUser, uid: nat, def: BtrDef, first: BtrDef?)
    requires first == null <==> user.first_reaching_def == -1
    requires first != def
    modifies user, def, if first == null then {} else {first}
    ensures user.n_reaching_defs == old(user.n_reaching_defs) + 1
    ensures user.first_reaching_def == if first == null then uid else old(user.first_reaching_def)
    ensures user.next == old(def.uses) && def.uses == user
    ensures def.has_ambiguous_use <==> old(def.has_ambiguous_use) || user.use == None || first != null
    ensures def.other_btr_uses_after_use <==> old(def.other_btr_uses_after_use) || user.other_use_this_block
    ensures first != null ==> first.has_ambiguous_use && unchanged(first`uses, first`other_btr_uses_after_use)
  {
    user.n_reaching_defs := user.n_reaching_defs + 1;
    if user.use == None {
      def.has_ambiguous_use := true;
    }
    if user.first_reaching_def != -1 {
      def.has_ambiguous_use := true;
      first.has_ambiguous_use := true;
    } else {
      user.first_reaching_def := uid;
    }
    if user.other_use_this_block {
      def.other_btr_uses_after_use := true;
    }
    user.next := def.uses;
    def.uses := user;
  }

  lemma NotYet(events: seq<Event>, d: nat, user: BtrUser)
    requires Fresh(user, events)
    ensures user !in UsersOf(events, d)
  {
  }

  /** The effect of LinkOne on definition d, whose list was uses0. */
  lemma Relinked(def: BtrDef, d: nat, events: seq<Event>, user: BtrUser, uid: nat, part: set<nat>, uses0: BtrUser?)
    requires uid !in part && user !in UsersOf(events, d)
    requires def.has_ambiguous_use <==>
      AnyBad(events, d) || (d in part + {uid} && (user.use == None || part + {uid} != {d}))
    requires def.other_btr_uses_after_use <==> AnyAfter(events, d) || (d in part + {uid} && user.other_use_this_block)
    requires d !in part && !AnyBad(events, d) ==> Walk(uses0, UsersOf(events, d))
    requires if d == uid then def.uses == user && user.next == uses0 else def.uses == uses0
    ensures Linked(def, d, events + [Event(user, part + {uid})])
  {
    hide AnyBad, AnyAfter, UsersOf;
    OneMore(events, Event(user, part + {uid}), d);
    assert [] + UsersOf(events, d) == UsersOf(events, d);
    if d == uid {
      var t := [user] + UsersOf(events, d);
      assert forall k :: 0 < k < |t| ==> t[k] == UsersOf(events, d)[k - 1];
    }
  }

  /** Definition uid reaches the use: each is entered in the web of the other. */
  method LinkOne(user: BtrUser, uid: nat, defArray: seq<BtrDef?>, ghost events: seq<Event>, ghost part: set<nat>)
    requires uid < |defArray| && defArray[uid] != null && Fresh(user, events)
    requires forall x :: x in part ==> x < uid && defArray[x] != null
    requires Table(defArray, events + [Event(user, part)]) && Counted(user, part)
    modifies user, Defs(defArray)
    ensures Table(defArray, events + [Event(user, part + {uid})]) && Counted(user, part + {uid})
  {
    hide AnyBad, AnyAfter, UsersOf, Walk;
    Attach(user, uid, defArray[uid], if user.first_reaching_def == -1 then null else defArray[user.first_reaching_def]);
    forall d: nat | d < |defArray| && defArray[d] != null
      ensures Linked(defArray[d], d, events + [Event(user, part + {uid})])
    {
      NotYet(events, d, user);
      OneMore(events, Event(user, part), d);
      assert old(Linked(defArray[d], d, events + [Event(user, part)]));
      assert [] + UsersOf(events, d) == UsersOf(events, d);
      if d !in part && !AnyBad(events, d) {
        assert old(Walk(defArray[d].uses, UsersOf(events, d)));
        assert forall u :: u in UsersOf(events, d) ==> u.next == old(u.next);
      }
      Relinked(defArray[d], d, events, user, uid, part, old(defArray[d].uses));
    }
  }

  lemma TableStart(defArray: seq<BtrDef?>, events: seq<Event>, user: BtrUser)
    requires Table(defArray, events)
    ensures Table(defArray, events + [Event(user, {})])
  {
    hide AnyBad, AnyAfter, UsersOf, Walk;
    forall d: nat | d < |defArray| && defArray[d] != null ensures Linked(defArray[d], d, events + [Event(user, {})]) {
      OneMore(events, Event(user, {}), d);
      assert [] + UsersOf(events, d) == UsersOf(events, d);
    }
  }

  ghost predicate AllDefs(reach: set<nat>, defArray: seq<BtrDef?>) {
    forall d :: d in reach ==> d < |defArray| && defArray[d] != null
  }

  ghost function Below(reach: set<nat>, uid: nat): set<nat> {
    set x | x in reach && x < uid
  }

  lemma BelowNext(reach: set<nat>, uid: nat)
    ensures Below(reach, uid + 1) == if uid in reach then Below(reach, uid) + {uid} else Below(reach, uid)
  {
  }

  /** The loop over the definitions that reach a use. */
  method LinkUser(user: BtrUser, reach: set<nat>, defArray: seq<BtrDef?>, ghost events: seq<Event>)
    requires Fresh(user, events) && Table(defArray, events) && Counted(user, {}) && AllDefs(reach, defArray)
    modifies user, Defs(defArray)
    ensures Table(defArray, events + [Event(user, reach)]) && Counted(user, reach)
  {
    hide Table, Counted, Linked;
    TableStart(defArray, events, user);
    var uid := 0;
    assert Below(reach, 0) == {};
    while uid < |defArray|
      invariant uid <= |defArray|
      invariant Table(defArray, events + [Event(user, Below(reach, uid))]) && Counted(user, Below(reach, uid))
    {
      BelowNext(reach, uid);
      if uid in reach {
        LinkOne(user, uid, defArray, events, Below(reach, uid));
      }
      uid := uid + 1;
    }
    assert Below(reach, |defArray|) == reach;
  }

  // ---- scanning the insns ----------------------------------------------------------------------

  datatype Insn = Insn(uid: nat, isInsn: bool, isCall: bool)

  /** What link_btr_uses looks at: the graph, the insns of each block, the tables indexed by insn
      uid, and the definitions of each target register. */
  datatype Program = Program(preds: Preds, insns: seq<seq<Insn>>, defArray: seq<BtrDef?>, useArray: seq<BtrUser?>,
                             defset: seq<set<nat>>, firstBtr: nat, lastBtr: nat, allBtrs: set<nat>, callUsed: set<nat>)

  ghost predicate IsDef(g: Program, d: nat) {
    d < |g.defArray| && g.defArray[d] != null
  }

  /** defs are the definitions of register r: compute_defs_uses_and_gen enters each in the set of its register. */
  ghost predicate DefsOf(g: Program, defs: set<nat>, r: nat) {
    forall d: nat :: d in defs <==> IsDef(g, d) && g.defArray[d].btr == r
  }

  ghost predicate Proper(g: Program) {
    && WellFormed(g.preds) && |g.insns| == |g.preds| && |g.defArray| == |g.useArray|
    && |g.defset| + g.firstBtr == g.lastBtr + 1
    && (forall i: nat :: i < |g.defset| ==> DefsOf(g, g.defset[i], g.firstBtr + i))
    && (forall b, j :: 0 <= b < |g.insns| && 0 <= j < |g.insns[b]| ==> g.insns[b][j].uid < |g.defArray|)
    && (forall d :: 0 <= d < |g.defArray| && g.defArray[d] != null ==> g.firstBtr <= g.defArray[d].btr <= g.lastBtr)
    && (forall u :: 0 <= u < |g.useArray| && g.useArray[u] != null && g.useArray[u].use != None ==>
          g.firstBtr <= g.useArray[u].use.value <= g.lastBtr)
  }

  /** Each insn has its own uid, and each uid its own use. */
  ghost predicate Separate(g: Program) {
    && (forall b, j, c, k ::
          0 <= b < |g.insns| && 0 <= j < |g.insns[b]| && 0 <= c < |g.insns| && 0 <= k < |g.insns[c]|
          ==> g.insns[b][j].uid == g.insns[c][k].uid ==> b == c && j == k)
    && (forall u, v :: 0 <= u < v < |g.useArray| && g.useArray[u] != null ==> g.useArray[u] != g.useArray[v])
  }

  lemma DefsetIs(g: Program, r: nat)
    requires Proper(g) && g.firstBtr <= r <= g.lastBtr
    ensures forall d: nat :: d in g.defset[r - g.firstBtr] <==> IsDef(g, d) && g.defArray[d].btr == r
  {
    assert DefsOf(g, g.defset[r - g.firstBtr], g.firstBtr + (r - g.firstBtr));
  }

  /** The definitions that a block, a call or an insn kills by writing registers are those of these registers. */
  lemma KilledIs(g: Program, d: nat, written: set<nat>)
    requires Proper(g)
    ensures Killed(d, g.firstBtr, g.lastBtr + 1, g.allBtrs, written, g.defset) <==>
      IsDef(g, d) && g.defArray[d].btr in g.allBtrs && g.defArray[d].btr in written
  {
    if r :| g.firstBtr <= r < g.lastBtr + 1 && r in g.allBtrs && r in written && d in g.defset[r - g.firstBtr] {
      DefsetIs(g, r);
    }
    if IsDef(g, d) && g.defArray[d].btr in g.allBtrs && g.defArray[d].btr in written {
      DefsetIs(g, g.defArray[d].btr);
    }
  }

  /** A call clobbers the definitions of the call-used registers. */
  ghost predicate Clobbered(g: Program, d: nat)
    requires Proper(g)
  {
    IsDef(g, d) && g.defArray[d].btr in g.allBtrs && g.defArray[d].btr in g.callUsed
  }

  function AfterDef(g: Program, r: set<nat>, insn: Insn): set<nat>
    requires Proper(g) && insn.uid < |g.defArray|
  {
    if insn.isInsn && g.defArray[insn.uid] != null then
      r - g.defset[g.defArray[insn.uid].btr - g.firstBtr] + {insn.uid}
    else r
  }

  ghost function AfterInsn(g: Program, r: set<nat>, insn: Insn): set<nat>
    requires Proper(g) && insn.uid < |g.defArray|
  {
    if insn.isInsn && insn.isCall then set d | d in AfterDef(g, r, insn) && !Clobbered(g, d) else AfterDef(g, r, insn)
  }

  /** The definitions that reach insn k of a block that r reaches. */
  ghost function State(g: Program, r: set<nat>, insns: seq<Insn>, k: nat): set<nat>
    requires Proper(g) && k <= |insns| && forall j :: 0 <= j < |insns| ==> insns[j].uid < |g.defArray|
  {
    if k == 0 then r else AfterInsn(g, State(g, r, insns, k - 1), insns[k - 1])
  }

  /** d is a definition of a register that the use refers to. */
  ghost predicate Refers(g: Program, user: BtrUser, d: nat)
    requires Proper(g) && (user.use != None ==> g.firstBtr <= user.use.value <= g.lastBtr)
  {
    IsDef(g, d) && if user.use != None then g.defArray[d].btr == user.use.value
                   else g.defArray[d].btr in g.allBtrs && g.defArray[d].btr in user.refs
  }

  // ---- what the scan means ---------------------------------------------------------------------

  ghost predicate Generates(g: Program, insn: Insn, d: nat)
    requires Proper(g) && insn.uid < |g.defArray|
  {
    insn.isInsn && g.defArray[insn.uid] != null && insn.uid == d && !(insn.isCall && Clobbered(g, d))
  }

  ghost predicate Kills(g: Program, insn: Insn, d: nat)
    requires Proper(g) && insn.uid < |g.defArray|
  {
    && insn.isInsn
    && ((g.defArray[insn.uid] != null && IsDef(g, d) && g.defArray[d].btr == g.defArray[insn.uid].btr && d != insn.uid)
        || (insn.isCall && Clobbered(g, d)))
  }

  ghost predicate Survives(g: Program, insns: seq<Insn>, d: nat, from: nat, to: nat)
    requires Proper(g) && to <= |insns| && forall j :: 0 <= j < |insns| ==> insns[j].uid < |g.defArray|
  {
    forall m {:trigger insns[m]} :: from <= m < to ==> !Kills(g, insns[m], d)
  }

  ghost predicate Local(g: Program, insns: seq<Insn>, d: nat, k: nat)
    requires Proper(g) && k <= |insns| && forall j :: 0 <= j < |insns| ==> insns[j].uid < |g.defArray|
  {
    exists j: nat :: j < k && Generates(g, insns[j], d) && Survives(g, insns, d, j + 1, k)
  }

  lemma SurvivesNext(g: Program, insns: seq<Insn>, d: nat, from: nat, k: nat)
    requires Proper(g) && from < k <= |insns| && forall j :: 0 <= j < |insns| ==> insns[j].uid < |g.defArray|
    ensures Survives(g, insns, d, from, k) <==> Survives(g, insns, d, from, k - 1) && !Kills(g, insns[k - 1], d)
  {
    hide Kills;
  }

  lemma LocalNext(g: Program, insns: seq<Insn>, d: nat, k: nat)
    requires Proper(g) && 0 < k <= |insns| && forall j :: 0 <= j < |insns| ==> insns[j].uid < |g.defArray|
    ensures Local(g, insns, d, k) <==>
      Generates(g, insns[k - 1], d) || (Local(g, insns, d, k - 1) && !Kills(g, insns[k - 1], d))
  {
    hide Kills, Generates;
    if Local(g, insns, d, k) {
      var j: nat :| j < k && Generates(g, insns[j], d) && Survives(g, insns, d, j + 1, k);
      if j < k - 1 { SurvivesNext(g, insns, d, j + 1, k); }
    }
    if Generates(g, insns[k - 1], d) {
      assert Survives(g, insns, d, k, k);
    }
    if Local(g, insns, d, k - 1) && !Kills(g, insns[k - 1], d) {
      var j: nat :| j < k - 1 && Generates(g, insns[j], d) && Survives(g, insns, d, j + 1, k - 1);
      SurvivesNext(g, insns, d, j + 1, k);
    }
  }

  /** d reaches insn k exactly if it is made in the block and not killed since, or reaches the block and
      is not killed in it before k. */
  lemma {:induction false} StateHas(g: Program, r: set<nat>, insns: seq<Insn>, k: nat, d: nat)
    requires Proper(g) && k <= |insns| && forall j :: 0 <= j < |insns| ==> insns[j].uid < |g.defArray|
    ensures d in State(g, r, insns, k) <==> Local(g, insns, d, k) || (d in r && Survives(g, insns, d, 0, k))
  {
    hide Clobbered;
    if k > 0 {
      StateHas(g, r, insns, k - 1, d);
      var insn := insns[k - 1];
      if g.defArray[insn.uid] != null { DefsetIs(g, g.defArray[insn.uid].btr); }
      assert d in State(g, r, insns, k) <==>
        Generates(g, insn, d) || (d in State(g, r, insns, k - 1) && !Kills(g, insn, d));
      SurvivesNext(g, insns, d, 0, k);
      LocalNext(g, insns, d, k);
    }
  }

  // ---- the walk over all blocks ----------------------------------------------------------------

  ghost function BlockIn(g: Program, out: seq<set<nat>>, b: nat): (r: set<nat>)
    requires Proper(g) && |out| == |g.preds| && NUM_FIXED_BLOCKS <= b < |g.preds|
    ensures forall d :: d in r <==> FromPred(d, out, g.preds, b)
  {
    set k, d | 0 <= k < |g.preds[b]| && g.preds[b][k] != ENTRY_BLOCK && d in out[g.preds[b][k]] :: d
  }

  /** The definitions that reach the use in insn j of block b. */
  ghost function ReachAt(g: Program, out: seq<set<nat>>, b: nat, j: nat, user: BtrUser): set<nat>
    requires Proper(g) && |out| == |g.preds| && NUM_FIXED_BLOCKS <= b < |g.preds| && j < |g.insns[b]|
    requires user.use != None ==> g.firstBtr <= user.use.value <= g.lastBtr
  {
    set d | d in AfterDef(g, State(g, BlockIn(g, out, b), g.insns[b], j), g.insns[b][j]) && Refers(g, user, d)
  }

  /** Insn j of block b comes before insn k of block i. */
  ghost predicate Before(g: Program, i: nat, k: nat, b: nat, j: nat)
    requires Proper(g)
  {
    NUM_FIXED_BLOCKS <= b < |g.insns| && j < |g.insns[b]| && (b < i || (b == i && j < k))
  }

  ghost predicate IsUse(g: Program, b: nat, j: nat)
    requires Proper(g) && b < |g.insns| && j < |g.insns[b]|
  {
    g.insns[b][j].isInsn && g.useArray[g.insns[b][j].uid] != null
  }

  ghost predicate Matches(g: Program, out: seq<set<nat>>, e: Event, b: nat, j: nat)
    requires Proper(g) && |out| == |g.preds| && NUM_FIXED_BLOCKS <= b < |g.insns| && j < |g.insns[b]|
  {
    IsUse(g, b, j) && e.user == g.useArray[g.insns[b][j].uid] && e.reach == ReachAt(g, out, b, j, e.user)
  }

  ghost predicate Came(g: Program, out: seq<set<nat>>, e: Event, i: nat, k: nat)
    requires Proper(g) && |out| == |g.preds|
  {
    exists b: nat, j: nat :: Before(g, i, k, b, j) && Matches(g, out, e, b, j)
  }

  ghost predicate Seen(g: Program, out: seq<set<nat>>, events: seq<Event>, b: nat, j: nat)
    requires Proper(g) && |out| == |g.preds| && NUM_FIXED_BLOCKS <= b < |g.insns| && j < |g.insns[b]|
  {
    exists q :: 0 <= q < |events| && Matches(g, out, events[q], b, j)
  }

  /** events are just the uses before insn k of block i, each with what reaches it. */
  ghost predicate Recorded(g: Program, out: seq<set<nat>>, events: seq<Event>, i: nat, k: nat)
    requires Proper(g) && |out| == |g.preds|
  {
    && (forall q :: 0 <= q < |events| ==> Came(g, out, events[q], i, k))
    && (forall b: nat, j: nat :: Before(g, i, k, b, j) && IsUse(g, b, j) ==> Seen(g, out, events, b, j))
    && DistinctUsers(events)
  }

  ghost function Users(useArray: seq<BtrUser?>): set<object> {
    set u | 0 <= u < |useArray| && useArray[u] != null :: useArray[u]
  }

  /** The counters of the uses in events are final, those of the others untouched. */
  ghost predicate Tallied(g: Program, events: seq<Event>)
    reads UserSet(events), Users(g.useArray)
  {
    && (forall q :: 0 <= q < |events| ==> Counted(events[q].user, events[q].reach))
    && (forall u :: 0 <= u < |g.useArray| && g.useArray[u] != null && Fresh(g.useArray[u], events) ==>
       Counted(g.useArray[u], {}))
  }

  lemma NotSeen(g: Program, out: seq<set<nat>>, events: seq<Event>, i: nat, k: nat)
    requires Proper(g) && Separate(g) && |out| == |g.preds| && Recorded(g, out, events, i, k)
    requires NUM_FIXED_BLOCKS <= i < |g.insns| && k < |g.insns[i]| && IsUse(g, i, k)
    ensures Fresh(g.useArray[g.insns[i][k].uid], events)
  {
    forall q | 0 <= q < |events| ensures events[q].user != g.useArray[g.insns[i][k].uid] {
      assert Came(g, out, events[q], i, k);
      var b: nat, j: nat :| Before(g, i, k, b, j) && Matches(g, out, events[q], b, j);
      assert g.insns[b][j].uid != g.insns[i][k].uid;
    }
  }

  lemma MatchUser(g: Program, out: seq<set<nat>>, e: Event, b: nat, j: nat)
    requires Proper(g) && |out| == |g.preds| && NUM_FIXED_BLOCKS <= b < |g.insns| && j < |g.insns[b]|
    requires Matches(g, out, e, b, j)
    ensures IsUse(g, b, j) && e.user == g.useArray[g.insns[b][j].uid]
  {
  }

  lemma RecordedNext(g: Program, out: seq<set<nat>>, events: seq<Event>, i: nat, k: nat, more: seq<Event>)
    requires Proper(g) && Separate(g) && |out| == |g.preds| && Recorded(g, out, events, i, k)
    requires NUM_FIXED_BLOCKS <= i < |g.insns| && k < |g.insns[i]|
    requires if IsUse(g, i, k) then
      |more| == |events| + 1 && more[..|events|] == events && Matches(g, out, more[|events|], i, k)
             else more == events
    ensures Recorded(g, out, more, i, k + 1)
  {
    hide Matches;
    forall q | 0 <= q < |more| ensures Came(g, out, more[q], i, k + 1) {
      if q < |events| {
        assert more[q] == more[..|events|][q] && Came(g, out, events[q], i, k);
        var b: nat, j: nat :| Before(g, i, k, b, j) && Matches(g, out, events[q], b, j);
        assert Before(g, i, k + 1, b, j);
      } else {
        assert Before(g, i, k + 1, i, k);
      }
    }
    forall b: nat, j: nat | Before(g, i, k + 1, b, j) && IsUse(g, b, j) ensures Seen(g, out, more, b, j) {
      if b == i && j == k {
        assert Matches(g, out, more[|events|], b, j);
      } else {
        assert Before(g, i, k, b, j) && Seen(g, out, events, b, j);
        var q :| 0 <= q < |events| && Matches(g, out, events[q], b, j);
        assert more[q] == more[..|events|][q];
      }
    }
    if IsUse(g, i, k) {
      NotSeen(g, out, events, i, k);
      assert more[|events|].user == g.useArray[g.insns[i][k].uid] by { MatchUser(g, out, more[|events|], i, k); }
      assert forall q :: 0 <= q < |events| ==> more[q] == more[..|events|][q];
    }
  }

  lemma RecordedTurn(g: Program, out: seq<set<nat>>, events: seq<Event>, i: nat)
    requires Proper(g) && |out| == |g.preds| && i < |g.insns| && Recorded(g, out, events, i, |g.insns[i]|)
    ensures Recorded(g, out, events, i + 1, 0)
  {
    hide Matches;
    forall q | 0 <= q < |events| ensures Came(g, out, events[q], i + 1, 0) {
      assert Came(g, out, events[q], i, |g.insns[i]|);
      var b: nat, j: nat :| Before(g, i, |g.insns[i]|, b, j) && Matches(g, out, events[q], b, j);
      assert Before(g, i + 1, 0, b, j);
    }
    forall b: nat, j: nat | Before(g, i + 1, 0, b, j) && IsUse(g, b, j) ensures Seen(g, out, events, b, j) {
      assert Before(g, i, |g.insns[i]|, b, j);
    }
  }

  /** The definitions that reach this use. */
  method FindReaching(g: Program, reaching: set<nat>, user: BtrUser) returns (reach: set<nat>)
    requires Proper(g) && (user.use != None ==> g.firstBtr <= user.use.value <= g.lastBtr)
    ensures reach == set d | d in reaching && Refers(g, user, d)
  {
    if user.use != None {
      reach := reaching * g.defset[user.use.value - g.firstBtr];
    } else {
      reach := {};
      var reg := g.firstBtr;
      while reg <= g.lastBtr
        invariant g.firstBtr <= reg <= g.lastBtr + 1
        invariant forall d :: d in reach <==>
          d in reaching && Killed(d, g.firstBtr, reg, g.allBtrs, user.refs, g.defset)
      {
        if reg in g.allBtrs && reg in user.refs {
          reach := reach + reaching * g.defset[reg - g.firstBtr];
        }
        reg := reg + 1;
      }
    }
  }

  /** A call: the definitions of call-used target registers do not survive it. */
  method ClobberCall(g: Program, reaching: set<nat>) returns (r: set<nat>)
    requires Proper(g)
    ensures r == set d | d in reaching && !Clobbered(g, d)
  {
    r := reaching;
    var regno := g.firstBtr;
    while regno <= g.lastBtr
      invariant g.firstBtr <= regno <= g.lastBtr + 1
      invariant forall d :: d in r <==> d in reaching && !Killed(d, g.firstBtr, regno, g.allBtrs, g.callUsed, g.defset)
    {
      if regno in g.allBtrs && regno in g.callUsed {
        r := r - g.defset[regno - g.firstBtr];
      }
      regno := regno + 1;
    }
  }

  lemma ReachIsDefs(g: Program, out: seq<set<nat>>, b: nat, j: nat, user: BtrUser)
    requires Proper(g) && |out| == |g.preds| && NUM_FIXED_BLOCKS <= b < |g.preds| && j < |g.insns[b]|
    requires user.use != None ==> g.firstBtr <= user.use.value <= g.lastBtr
    ensures AllDefs(ReachAt(g, out, b, j, user), g.defArray)
  {
  }

  method LinkFound(g: Program, ghost out: seq<set<nat>>, reach: set<nat>, ghost i: nat, ghost k: nat, user: BtrUser,
                   ghost events: seq<Event>)
    returns (ghost more: seq<Event>)
    requires Proper(g) && Separate(g) && |out| == |g.preds| && NUM_FIXED_BLOCKS <= i < |g.preds| && k < |g.insns[i]|
    requires g.insns[i][k].isInsn && user == g.useArray[g.insns[i][k].uid] && reach == ReachAt(g, out, i, k, user)
    requires Recorded(g, out, events, i, k) && Table(g.defArray, events) && Tallied(g, events)
    modifies Users(g.useArray), Defs(g.defArray)
    ensures more == events + [Event(user, reach)] && Matches(g, out, more[|events|], i, k)
    ensures Table(g.defArray, more) && Tallied(g, more)
  {
    hide Recorded, Table, Linked, BlockIn, Separate, ReachAt;
    NotSeen(g, out, events, i, k);
    ReachIsDefs(g, out, i, k, user);
    LinkUser(user, reach, g.defArray, events);
    more := events + [Event(user, reach)];
    forall q | 0 <= q < |more| ensures Counted(more[q].user, more[q].reach) {
      if q < |events| { assert more[q] == events[q]; }
    }
    forall u | 0 <= u < |g.useArray| && g.useArray[u] != null && Fresh(g.useArray[u], more)
      ensures Counted(g.useArray[u], {})
    {
      assert more[|events|].user == user;
      assert forall q :: 0 <= q < |events| ==> more[q] == events[q];
    }
  }

  /** The body of the insn loop. */
  method ScanInsn(g: Program, ghost out: seq<set<nat>>, r0: set<nat>, ghost i: nat, ghost k: nat, insn: Insn,
                  ghost events: seq<Event>)
    returns (r: set<nat>, ghost more: seq<Event>)
    requires Proper(g) && Separate(g) && |out| == |g.preds| && NUM_FIXED_BLOCKS <= i < |g.preds| && k < |g.insns[i]|
    requires insn == g.insns[i][k] && r0 == State(g, BlockIn(g, out, i), g.insns[i], k)
    requires Recorded(g, out, events, i, k) && Table(g.defArray, events) && Tallied(g, events)
    modifies Users(g.useArray), Defs(g.defArray)
    ensures r == State(g, BlockIn(g, out, i), g.insns[i], k + 1)
    ensures Recorded(g, out, more, i, k + 1) && Table(g.defArray, more) && Tallied(g, more)
  {
    hide Recorded, Table, Linked, BlockIn, Separate, Tallied, Refers;
    assert forall u :: u in UserSet(events) ==> allocated(u);
    assert forall d :: d in Defs(g.defArray) ==> allocated(d);
    assert forall u :: u in Users(g.useArray) ==> allocated(u);
    r, more := r0, events;
    if insn.isInsn {
      var insn_uid := insn.uid;
      var def := g.defArray[insn_uid];
      var user := g.useArray[insn_uid];
      if def != null {
        r := r - g.defset[def.btr - g.firstBtr];
        r := r + {insn_uid};
      }
      if user != null {
        var reach := FindReaching(g, r, user);
        more := LinkFound(g, out, reach, i, k, user, events);
      }
      assert forall u :: u in UserSet(more) ==> allocated(u);
      if insn.isCall {
        r := ClobberCall(g, r);
      }
    }
    RecordedNext(g, out, events, i, k, more);
  }

  /** One block. */
  method ScanBlock(g: Program, out: array<set<nat>>, ghost o: seq<set<nat>>, i: nat,
                   ghost events0: seq<Event>) returns (ghost events: seq<Event>)
    requires Proper(g) && Separate(g) && out.Length == |g.preds| && o == out[..] && NUM_FIXED_BLOCKS <= i < |g.preds|
    requires Recorded(g, o, events0, i, 0) && Table(g.defArray, events0) && Tallied(g, events0)
    modifies Users(g.useArray), Defs(g.defArray)
    ensures out[..] == o && Recorded(g, o, events, i, |g.insns[i]|) && Table(g.defArray, events) && Tallied(g, events)
  {
    hide Recorded, Table, Tallied, Linked, BlockIn;
    assert forall u :: u in UserSet(events0) ==> allocated(u);
    assert forall d :: d in Defs(g.defArray) ==> allocated(d);
    assert forall u :: u in Users(g.useArray) ==> allocated(u);
    var reaching := UnionOfPreds(out, g.preds, i);
    assert reaching == BlockIn(g, o, i);
    events := events0;
    var k := 0;
    while k < |g.insns[i]|
      invariant k <= |g.insns[i]| && o == out[..]
      invariant reaching == State(g, BlockIn(g, o, i), g.insns[i], k)
      invariant Recorded(g, o, events, i, k) && Table(g.defArray, events) && Tallied(g, events)
    {
      reaching, events := ScanInsn(g, o, reaching, i, k, g.insns[i][k], events);
      k := k + 1;
    }
  }

  lemma RecordedNone(g: Program, out: seq<set<nat>>)
    requires Proper(g) && |out| == |g.preds|
    ensures Recorded(g, out, [], NUM_FIXED_BLOCKS, 0)
  {
  }

  lemma RecordedFew(g: Program, out: seq<set<nat>>)
    requires Proper(g) && |out| == |g.preds| && |g.insns| <= NUM_FIXED_BLOCKS
    ensures Recorded(g, out, [], |g.insns|, 0)
  {
  }

  /** link_btr_uses. */
  method LinkBtrUses(g: Program, out: array<set<nat>>) returns (ghost events: seq<Event>)
    requires Proper(g) && Separate(g) && out.Length == |g.preds|
    requires Table(g.defArray, []) && Tallied(g, [])
    modifies Users(g.useArray), Defs(g.defArray)
    ensures Recorded(g, out[..], events, |g.insns|, 0) && Table(g.defArray, events) && Tallied(g, events)
  {
    hide Recorded, Table, Tallied, Linked, BlockIn;
    events := [];
    ghost var o := out[..];
    RecordedNone(g, o);
    if |g.insns| <= NUM_FIXED_BLOCKS {
      RecordedFew(g, o);
      return;
    }
    var i := NUM_FIXED_BLOCKS;
    while i < |g.insns|
      invariant NUM_FIXED_BLOCKS <= i <= |g.insns| && o == out[..]
      invariant Recorded(g, o, events, i, 0) && Table(g.defArray, events) && Tallied(g, events)
    {
      events := ScanBlock(g, out, o, i, events);
      RecordedTurn(g, o, events, i);
      i := i + 1;
    }
  }

  lemma ReachRefers(g: Program, out: seq<set<nat>>, b: nat, j: nat, user: BtrUser, d: nat)
    requires Proper(g) && |out| == |g.preds| && NUM_FIXED_BLOCKS <= b < |g.preds| && j < |g.insns[b]|
    requires user.use != None ==> g.firstBtr <= user.use.value <= g.lastBtr
    requires d in ReachAt(g, out, b, j, user)
    ensures IsDef(g, d) && (user.use != None ==> user.use == Some(g.defArray[d].btr))
  {
  }

  /** Def-use webs are exact: a definition without an ambiguous use has on its list just the uses it
      reaches, each once, and no other definition reaches those. */
  lemma WebsCorrect(g: Program, out: seq<set<nat>>, events: seq<Event>, d: nat)
    requires Proper(g) && |out| == |g.preds| && Recorded(g, out, events, |g.insns|, 0) && Table(g.defArray, events)
    requires d < |g.defArray| && g.defArray[d] != null && !g.defArray[d].has_ambiguous_use
    ensures Walk(g.defArray[d].uses, UsersOf(events, d))
    ensures forall i, j :: 0 <= i < j < |UsersOf(events, d)| ==> UsersOf(events, d)[i] != UsersOf(events, d)[j]
    ensures forall b: nat, j: nat :: Before(g, |g.insns|, 0, b, j) && IsUse(g, b, j) ==>
      var user := g.useArray[g.insns[b][j].uid];
      && (user in UsersOf(events, d) <==> d in ReachAt(g, out, b, j, user))
      && (d in ReachAt(g, out, b, j, user) ==>
            ReachAt(g, out, b, j, user) == {d} && user.use == Some(g.defArray[d].btr))
  {
    hide Linked, ReachAt, UsersOf, Walk;
    WebIsExact(g.defArray[d], d, events);
    forall b: nat, j: nat | Before(g, |g.insns|, 0, b, j) && IsUse(g, b, j)
      ensures var user := g.useArray[g.insns[b][j].uid];
        && (user in UsersOf(events, d) <==> d in ReachAt(g, out, b, j, user))
        && (d in ReachAt(g, out, b, j, user) ==>
              ReachAt(g, out, b, j, user) == {d} && user.use == Some(g.defArray[d].btr))
    {
      assert Seen(g, out, events, b, j);
      if d in ReachAt(g, out, b, j, g.useArray[g.insns[b][j].uid]) {
        ReachRefers(g, out, b, j, g.useArray[g.insns[b][j].uid], d);
      }
      var q :| 0 <= q < |events| && Matches(g, out, events[q], b, j);
    }
  }

  ghost predicate MadeBy(g: Program, insn: Insn, d: nat)
    requires Proper(g) && insn.uid < |g.defArray|
  {
    insn.isInsn && g.defArray[insn.uid] != null && d == insn.uid
  }

  ghost predicate Replaced(g: Program, insn: Insn, d: nat)
    requires Proper(g) && insn.uid < |g.defArray|
  {
    insn.isInsn && g.defArray[insn.uid] != null && IsDef(g, d) && g.defArray[d].btr == g.defArray[insn.uid].btr
  }

  ghost predicate CarriedTo(g: Program, gen: seq<set<nat>>, kill: seq<set<nat>>, b: nat, d: nat)
    requires Proper(g) && |gen| == |kill| == |g.preds| && NUM_FIXED_BLOCKS <= b < |g.preds|
  {
    exists p :: p in g.preds[b] && p != ENTRY_BLOCK && Reaches(d, p, gen, kill, g.preds)
  }

  lemma CarriedMeans(g: Program, out: seq<set<nat>>, gen: seq<set<nat>>, kill: seq<set<nat>>, b: nat, d: nat)
    requires Proper(g) && |out| == |gen| == |kill| == |g.preds| && NUM_FIXED_BLOCKS <= b < |g.preds|
    requires forall c, x :: NUM_FIXED_BLOCKS <= c < |g.preds| ==> (x in out[c] <==> Reaches(x, c, gen, kill, g.preds))
    ensures FromPred(d, out, g.preds, b) <==> CarriedTo(g, gen, kill, b, d)
  {
    hide Reaches;
    if FromPred(d, out, g.preds, b) {
      var k :| 0 <= k < |g.preds[b]| && g.preds[b][k] != ENTRY_BLOCK && d in out[g.preds[b][k]];
      assert g.preds[b][k] in g.preds[b];
    }
    if CarriedTo(g, gen, kill, b, d) {
      var p :| p in g.preds[b] && p != ENTRY_BLOCK && Reaches(d, p, gen, kill, g.preds);
      var k :| 0 <= k < |g.preds[b]| && g.preds[b][k] == p;
    }
  }

  /** What reaching means, once out solves the dataflow equations: the definition is made by the
      insn itself, or it is not replaced by it and either was made earlier in the block and not killed
      since, or is carried by a path to a predecessor and not killed in the block before the use. */
  lemma ReachAtMeans(g: Program, out: seq<set<nat>>, gen: seq<set<nat>>, kill: seq<set<nat>>, b: nat, j: nat,
                     user: BtrUser, d: nat)
    requires Proper(g) && |out| == |gen| == |kill| == |g.preds| && NUM_FIXED_BLOCKS <= b < |g.preds| && j < |g.insns[b]|
    requires user.use != None ==> g.firstBtr <= user.use.value <= g.lastBtr
    requires forall c, x :: NUM_FIXED_BLOCKS <= c < |g.preds| ==> (x in out[c] <==> Reaches(x, c, gen, kill, g.preds))
    ensures d in ReachAt(g, out, b, j, user) <==>
      && d < |g.defArray| && g.defArray[d] != null
      && (if user.use != None then g.defArray[d].btr == user.use.value
          else g.defArray[d].btr in g.allBtrs && g.defArray[d].btr in user.refs)
      && (MadeBy(g, g.insns[b][j], d)
          || (!Replaced(g, g.insns[b][j], d)
              && (Local(g, g.insns[b], d, j) || (CarriedTo(g, gen, kill, b, d) && Survives(g, g.insns[b], d, 0, j)))))
  {
    hide State, Local, Survives;
    StateHas(g, BlockIn(g, out, b), g.insns[b], j, d);
    CarriedMeans(g, out, gen, kill, b, d);
  }
}
