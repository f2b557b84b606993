/** Whole runs: any sequence of operations on several bitmaps that share one obstack. */
module BitmapRuns {
  import opened Helpers
  import opened Words
  import opened Elements
  import opened Merging
  import opened Obstacks
  import opened Bitmaps
  import opened BitmapOps
  import opened BitmapInto
  import opened BitmapBits
  import opened BitmapRange
  import opened BitmapQueries
  import opened BitmapCompound

  datatype Command =
    | SetBit(k: nat, bit: nat)
    | ClearBit(k: nat, bit: nat)
    | ClearRange(k: nat, start: nat, count: nat)
    | Clear(k: nat)
    | Copy(k: nat, i: nat)
    | Into(op: Op, k: nat, i: nat)
    | Three(op: Op, k: nat, i: nat, j: nat)
    | IorAndCompl(k: nat, i: nat, from1: nat, from2: nat)
    | IorAndComplInto(k: nat, from1: nat, from2: nat)
    | BitP(k: nat, bit: nat)
    | EqualP(k: nat, i: nat)
    | IntersectP(k: nat, i: nat)

  /** The operands of a command; a command that lacks one has its destination there. */
  function First(c: Command): nat {
    match c
    case Copy(k, i) => i
    case Into(op, k, i) => i
    case Three(op, k, i, j) => i
    case IorAndCompl(k, i, _, _) => i
    case EqualP(k, i) => i
    case IntersectP(k, i) => i
    case _ => c.k
  }

  function Second(c: Command): nat {
    match c
    case Three(op, k, i, j) => j
    case IorAndCompl(_, _, from1, _) => from1
    case IorAndComplInto(_, from1, _) => from1
    case _ => c.k
  }

  function Third(c: Command): nat {
    match c
    case IorAndCompl(_, _, _, from2) => from2
    case IorAndComplInto(_, _, from2) => from2
    case _ => c.k
  }

  /** What the operations ask of their callers. */
  predicate Allowed(c: Command, n: nat) {
    && c.k < n && First(c) < n && Second(c) < n && Third(c) < n
    && match c
       case ClearRange(k, start, count) => start + count > 0
       case Copy(k, i) => i != k
       case Into(op, k, i) => op == NotAnd ==> i != k
       case Three(op, k, i, j) => i != k && j != k && op != NotAnd
       case IorAndCompl(k, i, _, _) => i != k
       case _ => true
  }

  /** Merges with three operands, whose destination's cache may end up dangling. */
  predicate Risky(c: Command) {
    c.Three? || c.IorAndCompl?
  }

  /** What a command computes from the sets of its destination and operands. */
  ghost function Result(c: Command, d: set<nat>, x: set<nat>, y: set<nat>, z: set<nat>): set<nat> {
    match c
    case SetBit(k, bit) => d + {bit}
    case ClearBit(k, bit) => d - {bit}
    case ClearRange(k, start, count) => set b | b in d && !(start <= b < start + count)
    case Clear(k) => {}
    case Copy(k, i) => x
    case Into(op, k, i) => SetOp(op, d, x)
    case Three(op, k, i, j) => SetOp(op, x, y)
    case IorAndCompl(_, _, _, _) => x + (y - z)
    case IorAndComplInto(_, _, _) => d + (y - z)
    case _ => d
  }

  /** What a command returns: the answer of a query, or whether the destination changed. */
  ghost predicate Answer(c: Command, d: set<nat>, x: set<nat>, y: set<nat>, z: set<nat>) {
    match c
    case Into(op, _, _) => (op == AndNot || op == Or) && Result(c, d, x, y, z) != d
    case Three(op, _, _, _) => op == Or && Result(c, d, x, y, z) != d
    case IorAndCompl(_, _, _, _) => Result(c, d, x, y, z) != d
    case IorAndComplInto(_, _, _) => Result(c, d, x, y, z) != d
    case BitP(k, bit) => bit in d
    case EqualP(k, i) => d == x
    case IntersectP(k, i) => d * x != {}
    case _ => false
  }

  /** The plain set<nat> meaning of a command. */
  ghost function Effect(c: Command, s: seq<set<nat>>): (t: seq<set<nat>>)
    requires Allowed(c, |s|)
    ensures |t| == |s|
  {
    s[c.k := Result(c, s[c.k], s[First(c)], s[Second(c)], s[Third(c)])]
  }

  ghost predicate Says(c: Command, s: seq<set<nat>>)
    requires Allowed(c, |s|)
  {
    Answer(c, s[c.k], s[First(c)], s[Second(c)], s[Third(c)])
  }

  ghost predicate AllAllowed(p: seq<Command>, n: nat) {
    forall i :: 0 <= i < |p| ==> Allowed(p[i], n)
  }

  /** What a whole program computes. */
  ghost function Meaning(p: seq<Command>, s: seq<set<nat>>): (t: seq<set<nat>>)
    requires AllAllowed(p, |s|)
    ensures |t| == |s|
  {
    if p == [] then s else Effect(p[|p| - 1], Meaning(p[..|p| - 1], s))
  }

  /** What its commands return, one after the other. */
  ghost function Answers(p: seq<Command>, s: seq<set<nat>>): seq<bool>
    requires AllAllowed(p, |s|)
  {
    if p == [] then [] else Answers(p[..|p| - 1], s) + [Says(p[|p| - 1], Meaning(p[..|p| - 1], s))]
  }

  ghost function Union(rs: seq<set<object>>): set<object> {
    set i, e | 0 <= i < |rs| && e in rs[i] :: e
  }

  /** Every object of all is in exactly one place: in one of rs, or in free. */
  ghost predicate Placed(rs: seq<set<object>>, free: set<object>, all: set<object>) {
    && (forall i :: 0 <= i < |rs| ==> rs[i] !! free)
    && (forall i, j :: 0 <= i < j < |rs| ==> rs[i] !! rs[j])
    && all == free + Union(rs)
  }

  ghost function Others(rs: seq<set<object>>, k: nat): set<object> {
    set i, e | 0 <= i < |rs| && i != k && e in rs[i] :: e
  }

  lemma UnionUpdate(rs: seq<set<object>>, k: nat, d: set<object>)
    requires k < |rs|
    ensures Union(rs[k := d]) == d + Others(rs, k)
  {
    var rs' := rs[k := d];
    forall e | e in d + Others(rs, k) ensures e in Union(rs') {
      if e in d {
        assert e in rs'[k];
      } else {
        var i :| 0 <= i < |rs| && i != k && e in rs[i];
        assert e in rs'[i];
      }
    }
  }

  lemma PlacedApart(rs: seq<set<object>>, free: set<object>, all: set<object>, k: nat, i: nat)
    requires Placed(rs, free, all) && k < |rs| && i < |rs| && i != k
    ensures rs[i] !! rs[k] && rs[i] !! free && rs[i] <= all
  {
    var l, h := if i < k then i else k, if i < k then k else i;
    assert rs[l] !! rs[h];
  }

  /** Conservation is kept step by step: an operation that balances what one list and the free list
      hold against the elements it has created leaves every element in exactly one place. */
  lemma PlacedStep(rs: seq<set<object>>, free: set<object>, all: set<object>, k: nat, d: set<object>,
                   free': set<object>,
                   c: set<object>, c0: set<object>)
    requires Placed(rs, free, all) && k < |rs|
    requires Balanced(d, free', c, rs[k], free, c0) && (c - c0) !! all
    ensures Placed(rs[k := d], free', all + (c - c0))
  {
    hide Union;
    var rs' := rs[k := d];
    forall i | 0 <= i < |rs| && i != k ensures rs[i] !! d && rs[i] !! free' {
      PlacedApart(rs, free, all, k, i);
    }
    UnionUpdate(rs, k, d);
    UnionUpdate(rs, k, rs[k]);
    assert rs[k := rs[k]] == rs;
  }

  lemma InUnion(rs: seq<set<object>>, i: nat)
    requires i < |rs|
    ensures rs[i] <= Union(rs)
  {
  }

  ghost function Sets(bs: seq<Bitmap>): (s: seq<set<nat>>)
    reads bs
    ensures |s| == |bs| && forall i :: 0 <= i < |bs| ==> s[i] == bs[i].Contents()
  {
    seq(|bs|, i requires 0 <= i < |bs| reads bs => bs[i].Contents())
  }

  ghost function Reprs(bs: seq<Bitmap>): (rs: seq<set<object>>)
    reads bs
    ensures |rs| == |bs| && forall i :: 0 <= i < |bs| ==> rs[i] == bs[i].repr
  {
    seq(|bs|, i requires 0 <= i < |bs| reads bs => bs[i].repr)
  }

  ghost function Heads(bs: seq<Bitmap>): set<object> {
    set b: Bitmap | b in bs
  }

  ghost predicate Dangles(b: Bitmap, o: Obstack)
    reads b, o
  {
    b.current != null && b.current in o.repr
  }

  /** Every element that o ever created, along with the heads, is in exactly one place: on the list of one
      bitmap, or on the free list. Every bitmap is valid, but for that at bad, whose cache dangles. */
  ghost predicate Family(bs: seq<Bitmap>, o: Obstack, bad: int)
    reads bs, o, o.repr, Union(Reprs(bs))
  {
    && o.Valid()
    && Placed(Reprs(bs), o.repr, {o} + Heads(bs) + o.created)
    && (forall i :: 0 <= i < |bs| ==> bs[i].obstack == o)
    && (forall i {:trigger bs[i].Valid()} :: 0 <= i < |bs| ==>
         bs[i].repr <= Union(Reprs(bs)) && if i == bad then bs[i].Chain() && Dangles(bs[i], o) else bs[i].Valid())
  }

  ghost predicate Shared(bs: seq<Bitmap>, o: Obstack)
    reads bs, o, o.repr, Union(Reprs(bs))
  {
    Family(bs, o, -1)
  }

  /** Whether the cache still points into the list: it does, or it points to a freed element. */
  method Coherent(b: Bitmap) returns (ok: bool)
    requires b.Chain() && b.repr !! b.obstack.repr && (!b.Valid() ==> Stale(b))
    ensures ok <==> b.Valid()
    ensures !ok ==> Stale(b)
  {
    hide Distinct, Canonical;
    ok := b.current == null;
    var e := b.first;
    ghost var i := 0;
    while e != null
      invariant 0 <= i <= |b.nodes| && e == At(b.nodes, i)
      invariant ok <==> b.current == null || exists l :: 0 <= l < i && b.nodes[l] == b.current
      decreases |b.nodes| - i
    {
      b.NodeFacts(i);
      if e == b.current {
        ok := true;
      }
      e, i := e.next, i + 1;
    }
  }

  /** What Execute asks of its bitmaps. */
  ghost predicate Fit(c: Command, dst: Bitmap, x: Bitmap, y: Bitmap, z: Bitmap)
    reads dst, dst.repr, dst.obstack, dst.obstack.repr, x, x.repr, y, y.repr, z, z.repr
  {
    && dst.Valid() && dst.obstack.Valid() && x.Valid() && y.Valid() && z.Valid() && dst.repr !! dst.obstack.repr
    && (x != dst ==> dst.repr + dst.obstack.repr !! x.repr)
    && (y != dst ==> dst.repr + dst.obstack.repr !! y.repr)
    && (z != dst ==> dst.repr + dst.obstack.repr !! z.repr)
    && (c.ClearRange? ==> c.start + c.count > 0)
    && (c.Copy? || (c.Into? && c.op == NotAnd) || c.IorAndCompl? ==> x != dst)
    && (c.Three? ==> x != dst && y != dst && c.op != NotAnd)
  }

  /** The commands with one bitmap. */
  method ExecuteOne(c: Command, dst: Bitmap) returns (answer: bool)
    requires c.SetBit? || c.ClearBit? || c.ClearRange? || c.Clear? || c.BitP?
    requires dst.Valid() && dst.obstack.Valid() && dst.repr !! dst.obstack.repr
    requires c.ClearRange? ==> c.start + c.count > 0
    modifies dst.repr, dst.obstack.repr
    ensures dst.Valid() && dst.obstack.Valid() && Conserved(dst)
    ensures dst.Contents() == Result(c, old(dst.Contents()), {}, {}, {})
    ensures answer == Answer(c, old(dst.Contents()), {}, {}, {})
  {
    hide Bitmap.Inv, Bitmap.Chain, Bitmap.Cached, Obstack.Valid, Merge, Members, Canonical;
    dst.obstack.Facts();
    ValidFacts(dst);
    answer := false;
    match c {
      case SetBit(_, bit) => BitmapBits.SetBit(dst, bit);
      case ClearBit(_, bit) => BitmapBits.ClearBit(dst, bit); RecycledConserved(dst);
      case ClearRange(_, start, count) => BitmapRange.ClearRange(dst, start, count); RecycledConserved(dst);
      case Clear(_) => dst.Clear(); RecycledConserved(dst);
      case BitP(_, bit) => answer := BitmapBits.BitP(dst, bit);
    }
  }

  /** When a three-operand merge keeps the cache of its destination, whose old value is v0 and whose new one r:
      the operands v and w are the same bitmap and not merely united, or the cache survives. */
  ghost predicate MergeSurvives(op: Op, same: bool, v0: seq<Elt>, cur0: int, r: seq<Elt>, v: seq<Elt>, w: seq<Elt>) {
    (op != Or && same) || CurrentSurvives(v0, cur0, r, op != Or && Trailing(op, v, 0, w, 0, false))
  }

  /** When a command keeps its destination valid. */
  ghost predicate Survives(c: Command, same: bool, v0: seq<Elt>, cur0: int, r: seq<Elt>, v: seq<Elt>, w: seq<Elt>) {
    match c
    case Three(op, _, _, _) => MergeSurvives(op, same, v0, cur0, r, v, w)
    case IorAndCompl(_, _, _, _) => CurrentSurvives(v0, cur0, r, false)
    case _ => true
  }

  method ExecuteInto(op: Op, a: Bitmap, b: Bitmap) returns (changed: bool)
    requires a.Valid() && a.obstack.Valid() && b.Valid() && a.repr !! a.obstack.repr
    requires a != b ==> a.repr + a.obstack.repr !! b.repr
    requires op == NotAnd ==> a != b
    modifies a.repr, a.obstack.repr
    ensures a.Valid() && a.obstack.Valid() && Conserved(a)
    ensures a.Contents() == SetOp(op, old(a.Contents()), old(b.Contents()))
    ensures changed <==> (op == AndNot || op == Or) && a.Contents() != old(a.Contents())
  {
    hide Bitmap.Valid, Obstack.Valid, Merge, Members;
    changed := false;
    match op {
      case And => BitmapAndInto(a, b); RecycledConserved(a);
      case AndNot => changed := BitmapAndComplInto(a, b); RecycledConserved(a);
      case Or => changed := BitmapIorInto(a, b);
      case Xor => BitmapXorInto(a, b);
      case NotAnd => BitmapComplAndInto(a, b);
    }
  }

  method ExecuteThree(op: Op, dst: Bitmap, a: Bitmap, b: Bitmap) returns (changed: bool)
    requires Ready(dst, a) && Ready(dst, b) && op != NotAnd
    modifies dst.repr, dst.obstack.repr
    ensures dst.Chain() && dst.obstack.Valid() && Conserved(dst)
    ensures dst.Contents() == SetOp(op, a.Contents(), b.Contents())
    ensures changed <==> op == Or && dst.Contents() != old(dst.Contents())
    ensures dst.Valid() <==> MergeSurvives(op, a == b, old(dst.view), old(dst.cur), dst.view, a.view, b.view)
    ensures !dst.Valid() ==> Stale(dst)
  {
    hide Bitmap.Valid, Bitmap.Chain, Obstack.Valid, Merge, Members, Trailing, CurrentSurvives;
    changed := false;
    match op {
      case And => BitmapAnd(dst, a, b);
      case AndNot => BitmapAndCompl(dst, a, b);
      case Or => changed := BitmapIor(dst, a, b);
      case Xor => BitmapXor(dst, a, b);
    }
  }

  /** Run one command on its bitmaps. */
  method Execute(c: Command, dst: Bitmap, x: Bitmap, y: Bitmap, z: Bitmap) returns (answer: bool)
    requires Fit(c, dst, x, y, z)
    modifies dst.repr, dst.obstack.repr
    ensures dst.Chain() && dst.obstack.Valid() && Conserved(dst)
    ensures dst.Contents() == Result(c, old(dst.Contents()), old(x.Contents()), old(y.Contents()), old(z.Contents()))
    ensures answer == Answer(c, old(dst.Contents()), old(x.Contents()), old(y.Contents()), old(z.Contents()))
    ensures dst.Valid() <==> Survives(c, x == y, old(dst.view), old(dst.cur), dst.view, old(x.view), old(y.view))
    ensures !dst.Valid() ==> Stale(dst)
  {
    hide Bitmap.Inv, Bitmap.Chain, Bitmap.Cached, Obstack.Valid, Merge, Members, Canonical, Trailing, CurrentSurvives;
    dst.obstack.Facts();
    ValidFacts(dst);
    ValidFacts(x);
    ValidFacts(y);
    ValidFacts(z);
    answer := false;
    match c {
      case Copy(_, _) => BitmapCopy(dst, x);
      case Into(op, _, _) => answer := ExecuteInto(op, dst, x);
      case Three(op, _, _, _) => answer := ExecuteThree(op, dst, x, y); return;
      case IorAndCompl(_, _, _, _) => answer := BitmapCompound.IorAndCompl(dst, x, y, z, dst.obstack); return;
      case IorAndComplInto(_, _, _) => answer := BitmapCompound.IorAndComplInto(dst, y, z, dst.obstack);
      case EqualP(_, _) => answer := BitmapQueries.EqualP(dst, x);
      case IntersectP(_, _) => answer := BitmapQueries.IntersectP(dst, x);
      case _ => answer := ExecuteOne(c, dst);
    }
    ValidFacts(dst);
  }

  /** A merge into an empty destination, or into one whose cache is on its first element, is always safe. */
  lemma SurvivesFromFirst(c: Command, same: bool, v0: seq<Elt>, cur0: int, r: seq<Elt>, v: seq<Elt>, w: seq<Elt>)
    requires v0 == [] || cur0 == 0
    ensures Survives(c, same, v0, cur0, r, v, w)
  {
    SurvivesWhenFirst(v0, cur0, r, false);
    if c.Three? { SurvivesWhenFirst(v0, cur0, r, c.op != Or && Trailing(c.op, v, 0, w, 0, false)); }
  }

  // ---- one step keeps the whole family in order ------------------------------------------------

  lemma SharedFacts(bs: seq<Bitmap>, o: Obstack, i: nat, k: nat)
    requires Shared(bs, o) && i < |bs| && k < |bs|
    ensures bs[i].obstack == o && bs[i].Valid() && o.Valid() && bs[i].repr !! o.repr
    ensures bs[i] in bs[i].repr && o in o.repr && bs[i].repr <= Union(Reprs(bs))
    ensures i != k ==> bs[i].repr !! bs[k].repr && bs[i] != bs[k]
  {
    hide Elts, Obstack.Valid, Union;
    ValidFacts(bs[i]);
    ValidFacts(bs[k]);
    o.Facts();
    if i != k { PlacedApart(Reprs(bs), o.repr, {o} + Heads(bs) + o.created, k, i); }
  }

  lemma OperandsFit(c: Command, bs: seq<Bitmap>, o: Obstack)
    requires Shared(bs, o) && Allowed(c, |bs|)
    ensures Fit(c, bs[c.k], bs[First(c)], bs[Second(c)], bs[Third(c)]) && bs[c.k].obstack == o
    ensures bs[c.k].repr <= Union(Reprs(bs))
  {
    hide Obstack.Valid, Bitmap.Valid, Union, Placed, Shared;
    SharedFacts(bs, o, c.k, First(c));
    SharedFacts(bs, o, First(c), c.k);
    SharedFacts(bs, o, Second(c), c.k);
    SharedFacts(bs, o, Third(c), c.k);
  }

  /** The command's effect on its own bitmap and on the free list, and that the others are as they were. */
  method Perform(c: Command, bs: seq<Bitmap>, o: Obstack) returns (answer: bool)
    requires Shared(bs, o) && Allowed(c, |bs|)
    modifies o.repr, Union(Reprs(bs))
    ensures o.Valid() && bs[c.k].Chain()
    ensures Balanced(bs[c.k].repr, o.repr, o.created, old(bs[c.k].repr), old(o.repr), old(o.created))
    ensures fresh(o.created - old(o.created))
    ensures forall i :: 0 <= i < |bs| ==> bs[i].obstack == o
    ensures forall i {:trigger bs[i].Valid()} :: 0 <= i < |bs| && i != c.k ==> bs[i].Valid()
    ensures Reprs(bs) == old(Reprs(bs))[c.k := bs[c.k].repr]
    ensures Sets(bs) == Effect(c, old(Sets(bs))) && answer == Says(c, old(Sets(bs)))
    ensures !bs[c.k].Valid() ==> Stale(bs[c.k])
    ensures bs[c.k].Valid() <==>
      Survives(c, bs[First(c)] == bs[Second(c)], old(bs[c.k].view), old(bs[c.k].cur), bs[c.k].view,
               old(bs[First(c)].view), old(bs[Second(c)].view))
  {
    hide Obstack.Valid, Bitmap.Valid, Bitmap.Chain, Union, Placed, Fit, Result, Answer, Survives;
    ghost var k := c.k;
    forall i: nat | i < |bs|
      ensures bs[i].Valid() && bs[i].repr !! o.repr && bs[i] in bs[i].repr &&
        (i != k ==> bs[i].repr !! bs[k].repr && bs[i] != bs[k])
    {
      SharedFacts(bs, o, i, k);
    }
    SharedFacts(bs, o, k, k);
    OperandsFit(c, bs, o);
    ghost var rs, s0 := Reprs(bs), Sets(bs);
    answer := Execute(c, bs[c.k], bs[First(c)], bs[Second(c)], bs[Third(c)]);
    forall i: nat | i < |bs| && i != k ensures bs[i].repr == rs[i] && bs[i].Contents() == s0[i] { }
    assert Reprs(bs) == rs[k := bs[k].repr];
    assert Sets(bs) == Effect(c, s0);
  }

  lemma MakeFamily(bs: seq<Bitmap>, o: Obstack, k: nat, ok: bool)
    requires o.Valid() && k < |bs| && Placed(Reprs(bs), o.repr, {o} + Heads(bs) + o.created) && bs[k].Chain()
    requires forall i :: 0 <= i < |bs| ==> bs[i].obstack == o
    requires forall i {:trigger bs[i].Valid()} :: 0 <= i < |bs| && i != k ==> bs[i].Valid()
    requires if ok then bs[k].Valid() else Stale(bs[k])
    ensures Family(bs, o, if ok then -1 else k)
  {
    hide Obstack.Valid, Bitmap.Valid, Bitmap.Chain, Union, Placed;
    var bad := if ok then -1 else k;
    forall i: int | 0 <= i < |bs|
      ensures bs[i].repr <= Union(Reprs(bs)) && if i == bad then bs[i].Chain() && Dangles(bs[i], o) else bs[i].Valid()
    {
      InUnion(Reprs(bs), i);
      assert bs[i].obstack == o;
    }
  }

  /** One command: it does what its meaning says, and its destination stays valid just if its cache survives. */
  method Step(c: Command, bs: seq<Bitmap>, o: Obstack) returns (ok: bool, answer: bool)
    requires Shared(bs, o) && Allowed(c, |bs|)
    modifies o.repr, Union(Reprs(bs))
    ensures Family(bs, o, if ok then -1 else c.k) && Sets(bs) == Effect(c, old(Sets(bs)))
    ensures answer == Says(c, old(Sets(bs)))
    ensures ok <==> Survives(c, bs[First(c)] == bs[Second(c)], old(bs[c.k].view), old(bs[c.k].cur), bs[c.k].view,
                             old(bs[First(c)].view), old(bs[Second(c)].view))
    ensures old(o.created) <= o.created && fresh(o.created - old(o.created))
  {
    hide Obstack.Valid, Bitmap.Valid, Bitmap.Chain, Union, Placed, Result, Answer, Survives;
    ghost var rs, all, k := Reprs(bs), {o} + Heads(bs) + o.created, c.k;
    ghost var o0, c0 := o.repr, o.created;
    assert forall e :: e in all ==> allocated(e);
    answer := Perform(c, bs, o);
    PlacedStep(rs, o0, all, k, bs[k].repr, o.repr, o.created, c0);
    ok := Coherent(bs[c.k]);
    assert {o} + Heads(bs) + o.created == all + (o.created - c0);
    MakeFamily(bs, o, k, ok);
  }

  /** Any interleaving of operations on any number of bitmaps over one obstack computes what the same
      operations compute on plain sets, answers the same, and loses and duplicates no element. It goes on as
      long as no three-operand merge leaves the cache of its destination dangling. */
  method Run(p: seq<Command>, bs: seq<Bitmap>, o: Obstack) returns (n: nat, answers: seq<bool>, ok: bool)
    requires Shared(bs, o) && AllAllowed(p, |bs|)
    modifies o.repr, Union(Reprs(bs))
    ensures n <= |p| && Sets(bs) == Meaning(p[..n], old(Sets(bs))) && answers == Answers(p[..n], old(Sets(bs)))
    ensures ok ==> n == |p| && Shared(bs, o)
    ensures !ok ==> 0 < n && Risky(p[n - 1]) && Family(bs, o, p[n - 1].k)
  {
    hide Obstack.Valid, Bitmap.Valid, Union, Effect, Allowed, Says;
    ghost var s0, c0 := Sets(bs), o.created;
    n, answers, ok := 0, [], true;
    while n < |p| && ok
      invariant n <= |p| && if ok then Shared(bs, o) else 0 < n && Risky(p[n - 1]) && Family(bs, o, p[n - 1].k)
      invariant Sets(bs) == Meaning(p[..n], s0) && answers == Answers(p[..n], s0)
      invariant c0 <= o.created && fresh(o.created - c0)
      decreases |p| - n, ok
    {
      var answer;
      ok, answer := Step(p[n], bs, o);
      assert p[..n + 1][..n] == p[..n] && p[..n + 1][n] == p[n];
      answers := answers + [answer];
      n := n + 1;
    }
  }

  lemma HeadsOne(bs: seq<Bitmap>, b: Bitmap)
    ensures Heads(bs + [b]) == Heads(bs) + {b}
  {
    assert (bs + [b])[|bs|] == b;
    assert forall c :: c in bs ==> c in bs + [b];
  }

  lemma OneMore(rs: seq<set<object>>, free: set<object>, all: set<object>, d: set<object>)
    requires Placed(rs, free, all) && d !! all
    ensures Placed(rs + [d], free, all + d)
  {
    var rs' := rs + [d];
    forall i | 0 <= i < |rs| ensures rs[i] !! d && rs'[i] == rs[i] { assert rs[i] <= Union(rs); }
    assert Union(rs') == Union(rs) + d by {
      forall e | e in Union(rs) + d ensures e in Union(rs') {
        if e in d { assert e in rs'[|rs|]; } else { var i :| 0 <= i < |rs| && e in rs[i]; assert e in rs'[i]; }
      }
    }
  }

  lemma Joined(bs: seq<Bitmap>, b: Bitmap, o: Obstack)
    requires Shared(bs, o) && b.obstack == o && b.Valid() && b.view == [] && b.repr == {b}
    requires b !in {o} + Heads(bs) + o.created
    ensures Shared(bs + [b], o) && Sets(bs + [b]) == Sets(bs) + [{}]
  {
    hide Union, Obstack.Valid, Bitmap.Valid, Placed;
    ghost var rs, all := Reprs(bs), {o} + Heads(bs) + o.created;
    OneMore(rs, o.repr, all, {b});
    assert Reprs(bs + [b]) == rs + [b.repr];
    HeadsOne(bs, b);
    assert {o} + Heads(bs + [b]) + o.created == all + {b};
    EmptyValue();
    forall i | 0 <= i < |bs + [b]| ensures Sets(bs + [b])[i] == (Sets(bs) + [{}])[i] {
      assert Sets(bs + [b])[i] == (bs + [b])[i].Contents();
    }
    forall i | 0 <= i < |bs + [b]| ensures (bs + [b])[i].Valid() && (bs + [b])[i].repr <= Union(Reprs(bs + [b])) {
      InUnion(Reprs(bs + [b]), i);
    }
  }

  /** bitmap_initialize. */
  method NewHead(bs: seq<Bitmap>, o: Obstack) returns (b: Bitmap)
    requires Shared(bs, o)
    ensures fresh(b) && Shared(bs + [b], o) && Sets(bs + [b]) == old(Sets(bs)) + [{}]
  {
    hide Obstack.Valid, Bitmap.Valid, Placed, Shared;
    ghost var owned := Union(Reprs(bs));
    assert forall i, e :: 0 <= i < |bs| && e in bs[i].repr ==> allocated(e);
    assert forall e :: e in owned ==> allocated(e);
    b := new Bitmap(o);
    assert Shared(bs, o);
    Joined(bs, b, o);
  }

  lemma NoneYet(o: Obstack)
    ensures Placed([], {o}, {o} + Heads([]) + {})
  {
  }

  /** bitmap_obstack_initialize and n times bitmap_initialize: where every run starts. */
  method Begin(n: nat) returns (bs: seq<Bitmap>, o: Obstack)
    ensures fresh(o) && |bs| == n && Shared(bs, o)
    ensures forall i :: 0 <= i < n ==> Sets(bs)[i] == {}
  {
    hide Union, Obstack.Valid, Bitmap.Valid, Placed;
    o := new Obstack();
    bs := [];
    assert Reprs(bs) == [];
    NoneYet(o);
    while |bs| < n
      invariant fresh(o) && Shared(bs, o) && o.repr == {o} && o.created == {}
      invariant |bs| <= n && forall i :: 0 <= i < |bs| ==> Sets(bs)[i] == {}
    {
      var b := NewHead(bs, o);
      bs := bs + [b];
    }
  }
}
