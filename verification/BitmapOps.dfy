/** The set operations of bitmap.c. */
module BitmapOps {
  import opened Helpers
  import opened Words
  import opened Elements
  import opened Obstacks
  import opened Bitmaps
  import opened Merging

  /** The word loop of the merges: combine two elements word by word and accumulate the words' OR. */
  method CombineWords(op: Op, x: Bits, y: Bits) returns (r: Bits, ior: Word)
    ensures r == Combine(op, x, y)
    ensures ior == 0 <==> Zero(r)
  {
    hide Apply;
    r, ior := ZERO_BITS, 0;
    var ix: nat := ELEMENT_WORDS;
    while ix != 0
      invariant ix <= ELEMENT_WORDS
      invariant forall k :: ix <= k < ELEMENT_WORDS ==> r[k] == Apply(op, x[k], y[k])
      invariant ior == 0 <==> forall k :: ix <= k < ELEMENT_WORDS ==> r[k] == 0
    {
      ix := ix - 1;
      var w := Apply(op, x[ix], y[ix]);
      r := r[ix := w];
      OrZero(ior, w);
      ior := Apply(Or, ior, w);
    }
  }

  /** e is the element at position i of a valid bitmap, or null past its end. */
  ghost predicate Cursor(a: Bitmap, e: Element?, i: nat)
    reads a, a.repr
  {
    a.Valid() && i <= |a.view| && e == At(a.nodes, i)
  }

  lemma CursorStart(a: Bitmap)
    requires a.Valid()
    ensures Cursor(a, a.first, 0) && a in a.repr && Canonical(a.view) && Sorted(a.view)
  {
  }

  lemma CursorFacts(a: Bitmap, e: Element?, i: nat)
    requires Cursor(a, e, i)
    ensures a in a.repr && i <= |a.view| && (e == null <==> i == |a.view|)
    ensures e != null ==> e in a.repr
    ensures e != null ==> e.indx == a.view[i].indx && e.bits == a.view[i].bits && Cursor(a, e.next, i + 1)
  {
    if i < |a.nodes| {
      a.NodeFacts(i);
    }
  }

  /** A three-operand merge in progress: out is written to dst, dst_elt is next to be recycled. */
  ghost predicate Filling(dst: Bitmap, dst_elt: Element?, dst_prev: Element?, out: seq<Elt>)
    reads dst, dst.repr, dst.obstack, dst.obstack.repr
  {
    && dst.Inv() && dst.obstack.Valid() && dst.repr !! dst.obstack.repr
    && |out| <= |dst.view| && dst.view[..|out|] == out
    && dst_elt == At(dst.nodes, |out|) && dst_prev == At(dst.nodes, |out| - 1)
  }

  lemma FillingStart(dst: Bitmap)
    requires dst.Valid() && dst.obstack.Valid() && dst.repr !! dst.obstack.repr
    ensures Filling(dst, dst.first, null, [])
    ensures dst in dst.repr && dst.obstack in dst.obstack.repr
    ensures Leftover(dst.view, dst.cur, [], false, dst.view, dst.cur)
  {
    assert dst.view[..0] == [];
  }

  /** Recycle or insert the element for ix, then store its words. */
  method Store(dst: Bitmap, dst_elt: Element?, dst_prev: Element?, ghost out: seq<Elt>, ix: nat, bits: Bits)
    returns (elt: Element)
    requires Filling(dst, dst_elt, dst_prev, out)
    modifies dst.repr, dst.obstack.repr
    ensures Filling(dst, elt, dst_prev, out)
    ensures Filling(dst, elt.next, elt, Snoc(out, Elt(ix, bits)))
    ensures Conserved(dst)
    ensures dst.view == if |out| < |old(dst.view)| then old(dst.view)[|out| := Elt(ix, bits)]
      else old(dst.view) + [Elt(ix, bits)]
    ensures dst.cur == if old(dst.view) == [] then 0 else old(dst.cur)
  {
    hide Elts, Distinct, Obstack.Valid;
    ghost var d := |out|;
    elt := dst.RecycleOrInsert(dst_elt, dst_prev, d, ix);
    dst.SetBits(elt, d, bits);
    dst.NodeFacts(d);
  }

  /** The cache points to a freed element. */
  ghost predicate Stale(dst: Bitmap)
    reads dst, dst.obstack
  {
    dst.current != null && dst.current in dst.obstack.repr
  }

  method FinishMerge(dst: Bitmap, dst_elt: Element?, dst_prev: Element?, ghost out: seq<Elt>,
                     ghost pending: bool, ghost v0: seq<Elt>, ghost cur0: int)
    requires Filling(dst, dst_elt, dst_prev, out)
    requires Leftover(dst.view, dst.cur, out, pending, v0, cur0) && Canonical(out)
    modifies dst.repr, dst.obstack
    ensures dst.Chain() && dst.obstack.Valid() && dst.view == out
    ensures Conserved(dst)
    ensures dst.Valid() <==> CurrentSurvives(v0, cur0, out, pending)
    ensures !dst.Valid() ==> Stale(dst)
  {
    hide Elts, Distinct, Bitmap.Chain, Obstack.Valid, Canonical;
    dst.ChainFacts();
    ghost var d := |out|;
    ghost var kept := dst.Kept(d);
    assert kept <==> CurrentSurvives(v0, cur0, out, pending);
    dst.EltClearFrom(dst_elt, d);
    RecycledConserved(dst);
    dst.ChainFacts();
    if kept && dst.nodes != [] { dst.NodeFacts(dst.cur); }
    assert dst.current == null <==> dst.first == null;
    if dst.current != null {
      dst.indx := dst.current.indx;
    }
    dst.ChainFacts();
    if !kept { assert dst.current != At(dst.nodes, dst.cur); }
  }

  /** dst, from an obstack in good order, shares no element with a, nor does its obstack's free list. */
  ghost predicate Ready(dst: Bitmap, a: Bitmap)
    reads dst, dst.repr, dst.obstack, dst.obstack.repr, a, a.repr
  {
    && dst.Valid() && dst.obstack.Valid() && a.Valid()
    && dst.repr !! dst.obstack.repr && dst.repr + dst.obstack.repr !! a.repr
  }

  lemma ValidFacts(a: Bitmap)
    requires a.Valid()
    ensures a.Chain() && a.Inv() && a.Cached() && a in a.repr
  {
  }

  lemma MergeContents(op: Op, a: Bitmap, b: Bitmap)
    requires a.Valid() && b.Valid()
    ensures Members(Merge(op, a.view, 0, b.view, 0)) == SetOp(op, a.Contents(), b.Contents())
    ensures Canonical(Merge(op, a.view, 0, b.view, 0)) && Canonical(a.view) && Canonical(b.view)
  {
    MergeMembers(op, a.view, b.view);
  }

  lemma ValidCanonical(a: Bitmap)
    requires a.Valid()
    ensures Canonical(a.view)
  {
  }

  lemma MergeDiffers(op: Op, a: Bitmap, b: Bitmap, dst: Bitmap)
    requires a.Valid() && b.Valid() && dst.Valid()
    ensures Merge(op, a.view, 0, b.view, 0) == dst.view <==> SetOp(op, a.Contents(), b.Contents()) == dst.Contents()
  {
    hide Merge, Canonical;
    ValidCanonical(a);
    ValidCanonical(b);
    ValidCanonical(dst);
    MergeMembers(op, a.view, b.view);
    SameAs(Merge(op, a.view, 0, b.view, 0), dst.view);
  }

  ghost predicate Copying(to: Bitmap, to_ptr: Element?)
    reads to, to.repr, to.obstack, to.obstack.repr
  {
    && to.Inv() && to.Cached() && to.obstack.Valid() && to.repr !! to.obstack.repr
    && to_ptr == At(to.nodes, |to.nodes| - 1)
  }

  lemma CopyStart(to: Bitmap)
    requires to.Valid() && to.view == [] && to.obstack.Valid() && to.repr !! to.obstack.repr
    ensures Copying(to, null)
  {
  }

  lemma CopyDone(to: Bitmap, to_ptr: Element?)
    requires Copying(to, to_ptr) && Canonical(to.view)
    ensures to.Valid() && to.obstack.Valid()
  {
  }

  method CopyOne(to: Bitmap, to_ptr: Element?, ix: nat, bits: Bits) returns (to_elt: Element)
    requires Copying(to, to_ptr)
    modifies to.repr, to.obstack.repr
    ensures Copying(to, to_elt) && Conserved(to)
    ensures to.view == old(to.view) + [Elt(ix, bits)]
  {
    hide Elts, Distinct, Bitmap.Inv, Bitmap.Chain, Obstack.Valid;
    to_elt := to.Append(to_ptr, ix, bits);
  }

  /** DST = FROM. */
  method BitmapCopy(to: Bitmap, from: Bitmap)
    requires Ready(to, from)
    modifies to.repr, to.obstack.repr
    ensures to.Valid() && to.obstack.Valid() && Conserved(to)
    ensures to.Contents() == from.Contents() && to.view == from.view
  {
    hide Elts, Distinct, Cursor, At, Bitmap.Valid, Bitmap.Inv, Bitmap.Chain, Obstack.Valid, Bitmap.Cached;
    CursorStart(from);
    FillingStart(to);
    to.Clear();
    RecycledConserved(to);
    var from_ptr := from.first;
    var to_ptr: Element? := null;
    ghost var i := 0;
    CopyStart(to);
    while from_ptr != null
      invariant Cursor(from, from_ptr, i) && Copying(to, to_ptr)
      invariant Conserved(to) && to.repr + to.obstack.repr !! from.repr
      invariant i <= |from.view| && to.view == from.view[..i]
      decreases |from.view| - i
    {
      CursorFacts(from, from_ptr, i);
      to_ptr := CopyOne(to, to_ptr, from_ptr.indx, from_ptr.bits);
      CursorFacts(from, from_ptr, i);
      from_ptr, i := from_ptr.next, i + 1;
    }
    CursorFacts(from, from_ptr, i);
    CopyDone(to, to_ptr);
    assert from.view[..i] == from.view;
  }

  /** Store, keeping track of what is left of dst's old value. */
  method StoreNext(dst: Bitmap, dst_elt: Element?, dst_prev: Element?, ghost out: seq<Elt>,
                   ghost pending: bool, ghost v0: seq<Elt>, ghost cur0: int, ix: nat, bits: Bits,
                   ghost others: set<object>)
    returns (elt: Element)
    requires dst.repr + dst.obstack.repr !! others
    requires Filling(dst, dst_elt, dst_prev, out) && Leftover(dst.view, dst.cur, out, pending, v0, cur0)
    modifies dst.repr, dst.obstack.repr
    ensures Filling(dst, elt, dst_prev, out)
    ensures Filling(dst, elt.next, elt, Snoc(out, Elt(ix, bits)))
    ensures Conserved(dst)
    ensures dst.repr + dst.obstack.repr !! others
    ensures Leftover(dst.view, dst.cur, Snoc(out, Elt(ix, bits)), false, v0, cur0)
    ensures (out != [] ==> ix > out[|out| - 1].indx) ==> Leftover(dst.view, dst.cur, out, true, v0, cur0)
  {
    hide Leftover, Bitmap.Inv, Bitmap.Chain, Obstack.Valid;
    LeftoverStore(dst.view, dst.cur, out, pending, v0, cur0, Elt(ix, bits),
      if |out| < |dst.view| then dst.view[|out| := Elt(ix, bits)] else dst.view + [Elt(ix, bits)],
      if dst.view == [] then 0 else dst.cur);
    elt := Store(dst, dst_elt, dst_prev, out, ix, bits);
  }

  /** Both lists have this index: dst_elt = a_elt op b_elt; move on unless the result is zero. */
  method CombineInto(op: Op, dst: Bitmap, dst_elt: Element?, dst_prev: Element?, ghost out: seq<Elt>,
                     ghost pending: bool,
                     ghost v0: seq<Elt>, ghost cur0: int, a_elt: Element, b_elt: Element, ghost others: set<object>)
    returns (next: Element?, prev: Element?)
    requires Filling(dst, dst_elt, dst_prev, out) && Leftover(dst.view, dst.cur, out, pending, v0, cur0)
    requires dst.repr + dst.obstack.repr !! others && a_elt in others && b_elt in others
    requires out != [] ==> a_elt.indx > out[|out| - 1].indx
    modifies dst.repr, dst.obstack.repr
    ensures Conserved(dst) && dst.repr + dst.obstack.repr !! others
    ensures
      var e := Elt(a_elt.indx, Combine(op, a_elt.bits, b_elt.bits));
      var out' := if Zero(e.bits) then out else Snoc(out, e);
      Filling(dst, next, prev, out') && Leftover(dst.view, dst.cur, out', Zero(e.bits), v0, cur0)
  {
    hide Filling, Leftover, Combine, Bitmap.Inv, Bitmap.Chain, Obstack.Valid;
    var bits, ior := CombineWords(op, a_elt.bits, b_elt.bits);
    next := StoreNext(dst, dst_elt, dst_prev, out, pending, v0, cur0, a_elt.indx, bits, others);
    prev := dst_prev;
    if ior != 0 {
      prev, next := next, next.next;
    }
  }

  /** An element of one list alone: dst_elt = src. */
  method CopyInto(dst: Bitmap, dst_elt: Element?, dst_prev: Element?, ghost out: seq<Elt>, ghost pending: bool,
                  ghost v0: seq<Elt>, ghost cur0: int, src: Element, ghost others: set<object>)
    returns (next: Element?, prev: Element?)
    requires Filling(dst, dst_elt, dst_prev, out) && Leftover(dst.view, dst.cur, out, pending, v0, cur0)
    requires dst.repr + dst.obstack.repr !! others && src in others
    modifies dst.repr, dst.obstack.repr
    ensures Conserved(dst) && dst.repr + dst.obstack.repr !! others
    ensures var out' := Snoc(out, Elt(src.indx, src.bits));
      Filling(dst, next, prev, out') && Leftover(dst.view, dst.cur, out', false, v0, cur0)
  {
    hide Filling, Leftover, Bitmap.Inv, Bitmap.Chain, Obstack.Valid;
    var elt := StoreNext(dst, dst_elt, dst_prev, out, pending, v0, cur0, src.indx, src.bits, others);
    prev, next := elt, elt.next;
  }

  /** How far a three-operand merge has come: v0 and cur0 are DST's old value and cache position, and the
      first i elements of A and j of B have given out. */
  datatype Pass = Pass(op: Op, v0: seq<Elt>, cur0: int, i: nat, j: nat, out: seq<Elt>, pending: bool)

  /** DST is being filled from A and B. */
  ghost predicate Weaving(dst: Bitmap, a: Bitmap, b: Bitmap, dst_elt: Element?, dst_prev: Element?, a_elt: Element?,
                          b_elt: Element?, t: Pass)
    reads dst, dst.repr, dst.obstack, dst.obstack.repr, a, a.repr, b, b.repr
  {
    && Filling(dst, dst_elt, dst_prev, t.out) && Leftover(dst.view, dst.cur, t.out, t.pending, t.v0, t.cur0)
    && Cursor(a, a_elt, t.i) && Cursor(b, b_elt, t.j) && dst.repr + dst.obstack.repr !! a.repr + b.repr
    && Progress(t.op, a.view, t.i, b.view, t.j, t.out, t.pending) && Canonical(a.view) && Canonical(b.view)
  }

  lemma WeaveStart(op: Op, dst: Bitmap, a: Bitmap, b: Bitmap)
    requires Ready(dst, a) && Ready(dst, b)
    ensures Weaving(dst, a, b, dst.first, null, a.first, b.first, Pass(op, dst.view, dst.cur, 0, 0, [], false))
    ensures dst in dst.repr && dst.obstack in dst.obstack.repr && a in a.repr && b in b.repr
  {
    hide Leftover, Merge, Trailing, Canonical;
    CursorStart(a);
    CursorStart(b);
    FillingStart(dst);
    MergeStart(op, a.view, b.view);
  }

  lemma WeaveFacts(dst: Bitmap, a: Bitmap, b: Bitmap, dst_elt: Element?, dst_prev: Element?, a_elt: Element?,
                   b_elt: Element?, t: Pass)
    requires Weaving(dst, a, b, dst_elt, dst_prev, a_elt, b_elt, t)
    ensures t.i <= |a.view| && t.j <= |b.view| && a in a.repr && b in b.repr
    ensures Sorted(a.view) && Sorted(b.view)
    ensures (a_elt == null <==> t.i == |a.view|) && (b_elt == null <==> t.j == |b.view|)
    ensures a_elt != null ==>
      a_elt in a.repr && a_elt.indx == a.view[t.i].indx && a_elt.bits == a.view[t.i].bits &&
      Cursor(a, a_elt.next, t.i + 1)
    ensures b_elt != null ==>
      b_elt in b.repr && b_elt.indx == b.view[t.j].indx && b_elt.bits == b.view[t.j].bits &&
      Cursor(b, b_elt.next, t.j + 1)
  {
    hide Filling, Leftover, Progress, Cursor;
    CursorFacts(a, a_elt, t.i);
    CursorFacts(b, b_elt, t.j);
  }

  /** What remains to be known of a merge behind its loop. */
  lemma WeaveEnd(dst: Bitmap, a: Bitmap, b: Bitmap, dst_elt: Element?, dst_prev: Element?, a_elt: Element?,
                 b_elt: Element?, t: Pass)
    requires Weaving(dst, a, b, dst_elt, dst_prev, a_elt, b_elt, t)
    requires (b_elt == null && !Eval(t.op, true, false)) || (a_elt == null && !Eval(t.op, false, true)) ||
      (a_elt == null && b_elt == null)
    ensures Filling(dst, dst_elt, dst_prev, t.out) && Leftover(dst.view, dst.cur, t.out, t.pending, t.v0, t.cur0)
    ensures t.out == Merge(t.op, a.view, 0, b.view, 0) && (t.pending <==> Trailing(t.op, a.view, 0, b.view, 0, false))
  {
    hide Filling, Leftover, Progress, Cursor, Merge, Trailing, Eval;
    WeaveFacts(dst, a, b, dst_elt, dst_prev, a_elt, b_elt, t);
    MergeDone(t.op, a.view, t.i, b.view, t.j, t.out, t.pending);
  }

  /** A's element comes first and is not wanted. */
  lemma PassA(dst: Bitmap, a: Bitmap, b: Bitmap, dst_elt: Element?, dst_prev: Element?, a_elt: Element, b_elt: Element?,
              t: Pass)
    requires Weaving(dst, a, b, dst_elt, dst_prev, a_elt, b_elt, t) && !Eval(t.op, true, false)
    requires b_elt == null || a_elt.indx < b_elt.indx
    ensures Weaving(dst, a, b, dst_elt, dst_prev, a_elt.next, b_elt, t.(i := t.i + 1))
  {
    hide Filling, Leftover, Progress, Cursor;
    WeaveFacts(dst, a, b, dst_elt, dst_prev, a_elt, b_elt, t);
    MergeA(t.op, a.view, t.i, b.view, t.j, t.out, t.pending);
  }

  /** B's element comes first and is not wanted. */
  lemma PassB(dst: Bitmap, a: Bitmap, b: Bitmap, dst_elt: Element?, dst_prev: Element?, a_elt: Element?, b_elt: Element,
              t: Pass)
    requires Weaving(dst, a, b, dst_elt, dst_prev, a_elt, b_elt, t) && !Eval(t.op, false, true)
    requires a_elt == null || b_elt.indx < a_elt.indx
    ensures Weaving(dst, a, b, dst_elt, dst_prev, a_elt, b_elt.next, t.(j := t.j + 1))
  {
    hide Filling, Leftover, Progress, Cursor;
    WeaveFacts(dst, a, b, dst_elt, dst_prev, a_elt, b_elt, t);
    MergeB(t.op, a.view, t.i, b.view, t.j, t.out, t.pending);
  }

  /** A's element comes first and is copied. */
  method TakeA(dst: Bitmap, a: Bitmap, b: Bitmap, dst_elt: Element?, dst_prev: Element?, a_elt: Element,
               b_elt: Element?, ghost t: Pass)
    returns (next: Element?, prev: Element?, a_next: Element?)
    requires Weaving(dst, a, b, dst_elt, dst_prev, a_elt, b_elt, t) && Eval(t.op, true, false)
    requires b_elt == null || a_elt.indx < b_elt.indx
    modifies dst.repr, dst.obstack.repr
    ensures t.i < |a.view| && Conserved(dst) && dst.repr + dst.obstack.repr !! a.repr + b.repr
    ensures Weaving(dst, a, b, next, prev, a_next, b_elt,
      t.(i := t.i + 1, out := Snoc(t.out, a.view[t.i]), pending := false))
  {
    hide Filling, Leftover, Progress, Cursor, Canonical, Snoc, Sorted;
    WeaveFacts(dst, a, b, dst_elt, dst_prev, a_elt, b_elt, t);
    MergeA(t.op, a.view, t.i, b.view, t.j, t.out, t.pending);
    a_next := a_elt.next;
    next, prev := CopyInto(dst, dst_elt, dst_prev, t.out, t.pending, t.v0, t.cur0, a_elt, a.repr + b.repr);
  }

  /** B's element comes first and is copied. */
  method TakeB(dst: Bitmap, a: Bitmap, b: Bitmap, dst_elt: Element?, dst_prev: Element?, a_elt: Element?,
               b_elt: Element, ghost t: Pass)
    returns (next: Element?, prev: Element?, b_next: Element?)
    requires Weaving(dst, a, b, dst_elt, dst_prev, a_elt, b_elt, t) && Eval(t.op, false, true)
    requires a_elt == null || b_elt.indx < a_elt.indx
    modifies dst.repr, dst.obstack.repr
    ensures t.j < |b.view| && Conserved(dst) && dst.repr + dst.obstack.repr !! a.repr + b.repr
    ensures Weaving(dst, a, b, next, prev, a_elt, b_next,
      t.(j := t.j + 1, out := Snoc(t.out, b.view[t.j]), pending := false))
  {
    hide Filling, Leftover, Progress, Cursor, Canonical, Snoc, Sorted;
    WeaveFacts(dst, a, b, dst_elt, dst_prev, a_elt, b_elt, t);
    MergeB(t.op, a.view, t.i, b.view, t.j, t.out, t.pending);
    b_next := b_elt.next;
    next, prev := CopyInto(dst, dst_elt, dst_prev, t.out, t.pending, t.v0, t.cur0, b_elt, a.repr + b.repr);
  }

  ghost function Matched(t: Pass, v: seq<Elt>, w: seq<Elt>): Pass
    requires t.i < |v| && t.j < |w|
  {
    var e := Elt(v[t.i].indx, Combine(t.op, v[t.i].bits, w[t.j].bits));
    t.(i := t.i + 1, j := t.j + 1, out := if Zero(e.bits) then t.out else Snoc(t.out, e), pending := Zero(e.bits))
  }

  /** Both lists have this index: the combination is stored, and moved past unless it is zero. */
  method TakeBoth(dst: Bitmap, a: Bitmap, b: Bitmap, dst_elt: Element?, dst_prev: Element?, a_elt: Element,
                  b_elt: Element, op: Op, ghost t: Pass)
    returns (next: Element?, prev: Element?, a_next: Element?, b_next: Element?)
    requires Weaving(dst, a, b, dst_elt, dst_prev, a_elt, b_elt, t) && a_elt.indx == b_elt.indx && t.op == op
    modifies dst.repr, dst.obstack.repr
    ensures t.i < |a.view| && t.j < |b.view| && Conserved(dst) && dst.repr + dst.obstack.repr !! a.repr + b.repr
    ensures Weaving(dst, a, b, next, prev, a_next, b_next, Matched(t, a.view, b.view))
  {
    hide Filling, Leftover, Progress, Cursor, Canonical, Snoc, Sorted, Combine, Zero;
    WeaveFacts(dst, a, b, dst_elt, dst_prev, a_elt, b_elt, t);
    MergeBoth(t.op, a.view, t.i, b.view, t.j, t.out, t.pending, Elt(a_elt.indx, Combine(op, a_elt.bits, b_elt.bits)));
    a_next, b_next := a_elt.next, b_elt.next;
    next, prev := CombineInto(op, dst, dst_elt, dst_prev, t.out, t.pending, t.v0, t.cur0, a_elt, b_elt,
                              a.repr + b.repr);
  }

  /** DST = A & B. */
  method BitmapAnd(dst: Bitmap, a: Bitmap, b: Bitmap)
    requires Ready(dst, a) && Ready(dst, b)
    modifies dst.repr, dst.obstack.repr
    ensures dst.Chain() && dst.obstack.Valid() && Conserved(dst)
    ensures dst.Contents() == a.Contents() * b.Contents()
    ensures dst.view == Merge(And, a.view, 0, b.view, 0)
    ensures dst.Valid() <==>
      a == b || CurrentSurvives(old(dst.view), old(dst.cur), dst.view, Trailing(And, a.view, 0, b.view, 0, false))
    ensures !dst.Valid() ==> Stale(dst)
  {
    hide Weaving, Filling, Leftover, Trailing, CurrentSurvives, Merge, Combine, Eval, Canonical, Snoc, Zero, Members,
      Bitmap.Valid, Bitmap.Inv, Bitmap.Chain, Obstack.Valid;
    MergeContents(And, a, b);
    WeaveStart(And, dst, a, b);
    if a == b {
      MergeSelf(And, a.view);
      BitmapCopy(dst, a);
      ValidFacts(dst);
      return;
    }
    var dst_elt, a_elt, b_elt := dst.first, a.first, b.first;
    var dst_prev: Element? := null;
    ghost var t := Pass(And, dst.view, dst.cur, 0, 0, [], false);
    EvalTable();
    while a_elt != null && b_elt != null
      invariant Conserved(dst) && dst.repr + dst.obstack.repr !! a.repr + b.repr
      invariant Weaving(dst, a, b, dst_elt, dst_prev, a_elt, b_elt, t)
      invariant t.op == And && t.v0 == old(dst.view) && t.cur0 == old(dst.cur) && t.i <= |a.view| && t.j <= |b.view|
      decreases |a.view| - t.i + |b.view| - t.j
    {
      WeaveFacts(dst, a, b, dst_elt, dst_prev, a_elt, b_elt, t);
      if a_elt.indx < b_elt.indx {
        PassA(dst, a, b, dst_elt, dst_prev, a_elt, b_elt, t);
        a_elt, t := a_elt.next, t.(i := t.i + 1);
      } else if b_elt.indx < a_elt.indx {
        PassB(dst, a, b, dst_elt, dst_prev, a_elt, b_elt, t);
        b_elt, t := b_elt.next, t.(j := t.j + 1);
      } else {
        dst_elt, dst_prev, a_elt, b_elt := TakeBoth(dst, a, b, dst_elt, dst_prev, a_elt, b_elt, And, t);
        t := Matched(t, a.view, b.view);
      }
    }
    WeaveEnd(dst, a, b, dst_elt, dst_prev, a_elt, b_elt, t);
    FinishMerge(dst, dst_elt, dst_prev, t.out, t.pending, t.v0, t.cur0);
  }

  /** DST = A & ~B. */
  method BitmapAndCompl(dst: Bitmap, a: Bitmap, b: Bitmap)
    requires Ready(dst, a) && Ready(dst, b)
    modifies dst.repr, dst.obstack.repr
    ensures dst.Chain() && dst.obstack.Valid() && Conserved(dst)
    ensures dst.Contents() == a.Contents() - b.Contents()
    ensures dst.view == Merge(AndNot, a.view, 0, b.view, 0)
    ensures dst.Valid() <==>
      a == b || CurrentSurvives(old(dst.view), old(dst.cur), dst.view, Trailing(AndNot, a.view, 0, b.view, 0, false))
    ensures !dst.Valid() ==> Stale(dst)
  {
    hide Weaving, Filling, Leftover, Trailing, CurrentSurvives, Merge, Combine, Eval, Canonical, Snoc, Zero, Members,
      Bitmap.Valid, Bitmap.Inv, Bitmap.Chain, Obstack.Valid;
    MergeContents(AndNot, a, b);
    WeaveStart(AndNot, dst, a, b);
    if a == b {
      MergeSelf(AndNot, a.view);
      ValidFacts(dst);
      dst.Clear();
      RecycledConserved(dst);
      ValidFacts(dst);
      return;
    }
    var dst_elt, a_elt, b_elt := dst.first, a.first, b.first;
    var dst_prev: Element? := null;
    ghost var t := Pass(AndNot, dst.view, dst.cur, 0, 0, [], false);
    EvalTable();
    while a_elt != null
      invariant Conserved(dst) && dst.repr + dst.obstack.repr !! a.repr + b.repr
      invariant Weaving(dst, a, b, dst_elt, dst_prev, a_elt, b_elt, t)
      invariant t.op == AndNot && t.v0 == old(dst.view) && t.cur0 == old(dst.cur) && t.i <= |a.view| && t.j <= |b.view|
      decreases |a.view| - t.i + |b.view| - t.j
    {
      WeaveFacts(dst, a, b, dst_elt, dst_prev, a_elt, b_elt, t);
      if b_elt == null || a_elt.indx < b_elt.indx {
        dst_elt, dst_prev, a_elt := TakeA(dst, a, b, dst_elt, dst_prev, a_elt, b_elt, t);
        t := t.(i := t.i + 1, out := Snoc(t.out, a.view[t.i]), pending := false);
      } else if b_elt.indx < a_elt.indx {
        PassB(dst, a, b, dst_elt, dst_prev, a_elt, b_elt, t);
        b_elt, t := b_elt.next, t.(j := t.j + 1);
      } else {
        dst_elt, dst_prev, a_elt, b_elt := TakeBoth(dst, a, b, dst_elt, dst_prev, a_elt, b_elt, AndNot, t);
        t := Matched(t, a.view, b.view);
      }
    }
    WeaveEnd(dst, a, b, dst_elt, dst_prev, a_elt, b_elt, t);
    FinishMerge(dst, dst_elt, dst_prev, t.out, t.pending, t.v0, t.cur0);
  }

  /** DST = A ^ B. */
  method BitmapXor(dst: Bitmap, a: Bitmap, b: Bitmap)
    requires Ready(dst, a) && Ready(dst, b)
    modifies dst.repr, dst.obstack.repr
    ensures dst.Chain() && dst.obstack.Valid() && Conserved(dst)
    ensures dst.Contents() == (a.Contents() - b.Contents()) + (b.Contents() - a.Contents())
    ensures dst.view == Merge(Xor, a.view, 0, b.view, 0)
    ensures dst.Valid() <==>
      a == b || CurrentSurvives(old(dst.view), old(dst.cur), dst.view, Trailing(Xor, a.view, 0, b.view, 0, false))
    ensures !dst.Valid() ==> Stale(dst)
  {
    hide Weaving, Filling, Leftover, Trailing, CurrentSurvives, Merge, Combine, Eval, Canonical, Snoc, Zero, Members,
      Bitmap.Valid, Bitmap.Inv, Bitmap.Chain, Obstack.Valid;
    MergeContents(Xor, a, b);
    WeaveStart(Xor, dst, a, b);
    if a == b {
      MergeSelf(Xor, a.view);
      ValidFacts(dst);
      dst.Clear();
      RecycledConserved(dst);
      ValidFacts(dst);
      return;
    }
    var dst_elt, a_elt, b_elt := dst.first, a.first, b.first;
    var dst_prev: Element? := null;
    ghost var t := Pass(Xor, dst.view, dst.cur, 0, 0, [], false);
    EvalTable();
    while a_elt != null || b_elt != null
      invariant Conserved(dst) && dst.repr + dst.obstack.repr !! a.repr + b.repr
      invariant Weaving(dst, a, b, dst_elt, dst_prev, a_elt, b_elt, t)
      invariant t.op == Xor && t.v0 == old(dst.view) && t.cur0 == old(dst.cur) && t.i <= |a.view| && t.j <= |b.view|
      decreases |a.view| - t.i + |b.view| - t.j
    {
      WeaveFacts(dst, a, b, dst_elt, dst_prev, a_elt, b_elt, t);
      if a_elt != null && b_elt != null && a_elt.indx == b_elt.indx {
        dst_elt, dst_prev, a_elt, b_elt := TakeBoth(dst, a, b, dst_elt, dst_prev, a_elt, b_elt, Xor, t);
        t := Matched(t, a.view, b.view);
      } else if b_elt == null || (a_elt != null && a_elt.indx < b_elt.indx) {
        dst_elt, dst_prev, a_elt := TakeA(dst, a, b, dst_elt, dst_prev, a_elt, b_elt, t);
        t := t.(i := t.i + 1, out := Snoc(t.out, a.view[t.i]), pending := false);
      } else {
        dst_elt, dst_prev, b_elt := TakeB(dst, a, b, dst_elt, dst_prev, a_elt, b_elt, t);
        t := t.(j := t.j + 1, out := Snoc(t.out, b.view[t.j]), pending := false);
      }
    }
    WeaveEnd(dst, a, b, dst_elt, dst_prev, a_elt, b_elt, t);
    FinishMerge(dst, dst_elt, dst_prev, t.out, t.pending, t.v0, t.cur0);
  }

  /** The comparing word loop of bitmap_ior: overwrite old's words where they differ. */
  method UpdateWords(old_bits: Bits, bits: Bits) returns (r: Bits, changed: bool)
    ensures r == bits && (changed <==> old_bits != bits)
  {
    r, changed := old_bits, false;
    var ix: nat := ELEMENT_WORDS;
    while ix != 0
      invariant ix <= ELEMENT_WORDS
      invariant forall k :: ix <= k < ELEMENT_WORDS ==> r[k] == bits[k]
      invariant forall k :: 0 <= k < ix ==> r[k] == old_bits[k]
      invariant changed <==> exists k :: ix <= k < ELEMENT_WORDS && old_bits[k] != bits[k]
    {
      ix := ix - 1;
      if r[ix] != bits[ix] {
        r := r[ix := bits[ix]];
        changed := true;
      }
    }
  }

  /** changed is set as soon as what has been written is not a prefix of the old value v0. */
  ghost predicate Tracks(changed: bool, out: seq<Elt>, v: seq<Elt>, v0: seq<Elt>) {
    if changed then !(out <= v0) else out <= v0 && v == v0
  }

  lemma TracksMore(out: seq<Elt>, e: Elt, v0: seq<Elt>)
    ensures !(out <= v0) ==> !(Snoc(out, e) <= v0)
    ensures out <= v0 && (|out| == |v0| || v0[|out|] != e) ==> !(Snoc(out, e) <= v0)
    ensures out <= v0 && |out| < |v0| && v0[|out|] == e ==> Snoc(out, e) <= v0
  {
    var longer := Snoc(out, e);
    if longer <= v0 {
      assert longer[..|out|] == out && longer[|out|] == e;
    }
  }

  lemma FillingFacts(dst: Bitmap, dst_elt: Element?, dst_prev: Element?, out: seq<Elt>)
    requires Filling(dst, dst_elt, dst_prev, out)
    ensures |out| <= |dst.view| && (dst_elt == null <==> |out| == |dst.view|)
    ensures dst.repr !! dst.obstack.repr && dst in dst.repr && dst.obstack in dst.obstack.repr
    ensures dst_elt != null ==>
      dst_elt in dst.repr && dst_elt.indx == dst.view[|out|].indx && dst_elt.bits == dst.view[|out|].bits
  {
    if |out| < |dst.nodes| {
      dst.NodeFacts(|out|);
    }
  }

  method Overwrite(dst: Bitmap, dst_elt: Element, dst_prev: Element?, ghost out: seq<Elt>, ghost v0: seq<Elt>,
                   ghost cur0: int, bits: Bits)
    requires Filling(dst, dst_elt, dst_prev, out) && Leftover(dst.view, dst.cur, out, false, v0, cur0)
    modifies dst`view, dst_elt`bits
    ensures Filling(dst, dst_elt.next, dst_elt, Snoc(out, Elt(dst_elt.indx, bits)))
    ensures Leftover(dst.view, dst.cur, Snoc(out, Elt(dst_elt.indx, bits)), false, v0, cur0)
    ensures dst.view == old(dst.view)[..|out|] + [Elt(dst_elt.indx, bits)] + old(dst.view)[|out| + 1..]
  {
    hide Bitmap.Chain, Obstack.Valid;
    FillingFacts(dst, dst_elt, dst_prev, out);
    dst.NodeFacts(|out|);
    ghost var v := dst.view;
    dst.SetBits(dst_elt, |out|, bits);
    dst.NodeFacts(|out|);
    assert dst.view[..|out| + 1] == Snoc(out, Elt(dst_elt.indx, bits));
    LeftoverStore(v, dst.cur, out, false, v0, cur0, Elt(dst_elt.indx, bits), dst.view, dst.cur);
  }

  /** Write one result element of bitmap_ior, recording whether DST differs from its old value. */
  method IorStore(dst: Bitmap, dst_elt: Element?, dst_prev: Element?, ghost out: seq<Elt>, changed: bool,
                  ghost v0: seq<Elt>, ghost cur0: int, ix: nat, bits: Bits, ghost others: set<object>)
    returns (next: Element?, prev: Element?, now: bool)
    requires Filling(dst, dst_elt, dst_prev, out) && Leftover(dst.view, dst.cur, out, false, v0, cur0)
    requires dst.repr + dst.obstack.repr !! others && Tracks(changed, out, dst.view, v0)
    modifies dst.repr, dst.obstack.repr
    ensures Conserved(dst) && dst.repr + dst.obstack.repr !! others
    ensures var out' := Snoc(out, Elt(ix, bits));
      Filling(dst, next, prev, out') && Leftover(dst.view, dst.cur, out', false, v0, cur0) &&
        Tracks(now, out', dst.view, v0)
  {
    hide Filling, Leftover, Bitmap.Inv, Bitmap.Chain, Obstack.Valid;
    FillingFacts(dst, dst_elt, dst_prev, out);
    TracksMore(out, Elt(ix, bits), v0);
    now := changed;
    if !changed && dst_elt != null && dst_elt.indx == ix {
      var r, differs := UpdateWords(dst_elt.bits, bits);
      if differs {
        now := true;
      }
      Overwrite(dst, dst_elt, dst_prev, out, v0, cur0, r);
      next, prev := dst_elt.next, dst_elt;
    } else {
      now := true;
      var elt := StoreNext(dst, dst_elt, dst_prev, out, false, v0, cur0, ix, bits, others);
      next, prev := elt.next, elt;
    }
  }

  lemma TracksStart(v0: seq<Elt>)
    ensures Tracks(false, [], v0, v0)
  {
  }

  method IorEnd(dst: Bitmap, dst_elt: Element?, dst_prev: Element?, ghost out: seq<Elt>, changed: bool,
                ghost v0: seq<Elt>, ghost cur0: int) returns (now: bool)
    requires Filling(dst, dst_elt, dst_prev, out) && Leftover(dst.view, dst.cur, out, false, v0, cur0)
    requires Canonical(out) && Tracks(changed, out, dst.view, v0)
    modifies dst.repr, dst.obstack
    ensures dst.Chain() && dst.obstack.Valid() && dst.view == out && Conserved(dst)
    ensures dst.Valid() <==> CurrentSurvives(v0, cur0, out, false)
    ensures !dst.Valid() ==> Stale(dst)
    ensures now <==> out != v0
  {
    hide Filling, Leftover, Canonical, CurrentSurvives, Bitmap.Inv, Bitmap.Chain, Obstack.Valid, Bitmap.Valid;
    FillingFacts(dst, dst_elt, dst_prev, out);
    now := changed;
    if dst_elt != null {
      now := true;
    }
    FinishMerge(dst, dst_elt, dst_prev, out, false, v0, cur0);
  }

  /** A's element comes first and is copied. */
  method IorA(dst: Bitmap, a: Bitmap, b: Bitmap, dst_elt: Element?, dst_prev: Element?, a_elt: Element, b_elt: Element?,
              ghost t: Pass, changed: bool)
    returns (next: Element?, prev: Element?, a_next: Element?, now: bool)
    requires Weaving(dst, a, b, dst_elt, dst_prev, a_elt, b_elt, t) && t.op == Or && !t.pending
    requires Tracks(changed, t.out, dst.view, t.v0)
    requires b_elt == null || a_elt.indx < b_elt.indx
    modifies dst.repr, dst.obstack.repr
    ensures t.i < |a.view| && Conserved(dst) && dst.repr + dst.obstack.repr !! a.repr + b.repr
    ensures
      var t' := t.(i := t.i + 1, out := Snoc(t.out, a.view[t.i]));
      Weaving(dst, a, b, next, prev, a_next, b_elt, t') && Tracks(now, t'.out, dst.view, t.v0)
  {
    hide Filling, Leftover, Progress, Cursor, Canonical, Snoc, Sorted, Tracks;
    WeaveFacts(dst, a, b, dst_elt, dst_prev, a_elt, b_elt, t);
    MergeA(Or, a.view, t.i, b.view, t.j, t.out, t.pending);
    a_next := a_elt.next;
    next, prev, now := IorStore(dst, dst_elt, dst_prev, t.out, changed, t.v0, t.cur0, a_elt.indx, a_elt.bits,
                                a.repr + b.repr);
  }

  /** B's element comes first and is copied. */
  method IorB(dst: Bitmap, a: Bitmap, b: Bitmap, dst_elt: Element?, dst_prev: Element?, a_elt: Element?, b_elt: Element,
              ghost t: Pass, changed: bool)
    returns (next: Element?, prev: Element?, b_next: Element?, now: bool)
    requires Weaving(dst, a, b, dst_elt, dst_prev, a_elt, b_elt, t) && t.op == Or && !t.pending
    requires Tracks(changed, t.out, dst.view, t.v0)
    requires a_elt == null || b_elt.indx < a_elt.indx
    modifies dst.repr, dst.obstack.repr
    ensures t.j < |b.view| && Conserved(dst) && dst.repr + dst.obstack.repr !! a.repr + b.repr
    ensures
      var t' := t.(j := t.j + 1, out := Snoc(t.out, b.view[t.j]));
      Weaving(dst, a, b, next, prev, a_elt, b_next, t') && Tracks(now, t'.out, dst.view, t.v0)
  {
    hide Filling, Leftover, Progress, Cursor, Canonical, Snoc, Sorted, Tracks;
    WeaveFacts(dst, a, b, dst_elt, dst_prev, a_elt, b_elt, t);
    MergeB(Or, a.view, t.i, b.view, t.j, t.out, t.pending);
    b_next := b_elt.next;
    next, prev, now := IorStore(dst, dst_elt, dst_prev, t.out, changed, t.v0, t.cur0, b_elt.indx, b_elt.bits,
                                a.repr + b.repr);
  }

  /** Both lists have this index: the union, which is not zero. */
  method IorBoth(dst: Bitmap, a: Bitmap, b: Bitmap, dst_elt: Element?, dst_prev: Element?, a_elt: Element,
                 b_elt: Element, ghost t: Pass, changed: bool)
    returns (next: Element?, prev: Element?, a_next: Element?, b_next: Element?, now: bool)
    requires Weaving(dst, a, b, dst_elt, dst_prev, a_elt, b_elt, t) && t.op == Or && !t.pending
    requires Tracks(changed, t.out, dst.view, t.v0)
    requires a_elt.indx == b_elt.indx
    modifies dst.repr, dst.obstack.repr
    ensures t.i < |a.view| && t.j < |b.view| && Conserved(dst) && dst.repr + dst.obstack.repr !! a.repr + b.repr
    ensures
      var t' := Matched(t, a.view, b.view);
      !t'.pending && Weaving(dst, a, b, next, prev, a_next, b_next, t') && Tracks(now, t'.out, dst.view, t.v0)
  {
    hide Filling, Leftover, Progress, Cursor, Canonical, Snoc, Sorted, Tracks, Combine, Zero;
    WeaveFacts(dst, a, b, dst_elt, dst_prev, a_elt, b_elt, t);
    CanonicalAt(a.view, t.i);
    OrKeeps(a_elt.bits, b_elt.bits);
    MergeBoth(Or, a.view, t.i, b.view, t.j, t.out, t.pending, Elt(a_elt.indx, Combine(Or, a_elt.bits, b_elt.bits)));
    a_next, b_next := a_elt.next, b_elt.next;
    var bits, _ := CombineWords(Or, a_elt.bits, b_elt.bits);
    next, prev, now := IorStore(dst, dst_elt, dst_prev, t.out, changed, t.v0, t.cur0, a_elt.indx, bits,
                                a.repr + b.repr);
  }

  /** DST = A | B. Return true if DST changes. */
  method BitmapIor(dst: Bitmap, a: Bitmap, b: Bitmap) returns (changed: bool)
    requires Ready(dst, a) && Ready(dst, b)
    modifies dst.repr, dst.obstack.repr
    ensures dst.Chain() && dst.obstack.Valid() && Conserved(dst)
    ensures dst.Contents() == a.Contents() + b.Contents()
    ensures dst.view == Merge(Or, a.view, 0, b.view, 0)
    ensures dst.Valid() <==> CurrentSurvives(old(dst.view), old(dst.cur), dst.view, false)
    ensures !dst.Valid() ==> Stale(dst)
    ensures changed <==> dst.Contents() != old(dst.Contents())
    ensures changed <==> dst.view != old(dst.view)
  {
    hide Weaving, Filling, Leftover, Tracks, CurrentSurvives, Merge, Combine, Eval, Canonical, Snoc, Zero, Members,
      Bitmap.Valid, Bitmap.Inv, Bitmap.Chain, Obstack.Valid;
    MergeContents(Or, a, b);
    MergeDiffers(Or, a, b, dst);
    WeaveStart(Or, dst, a, b);
    TracksStart(dst.view);
    var dst_elt, a_elt, b_elt := dst.first, a.first, b.first;
    var dst_prev: Element? := null;
    ghost var t := Pass(Or, dst.view, dst.cur, 0, 0, [], false);
    EvalTable();
    changed := false;
    while a_elt != null || b_elt != null
      invariant Conserved(dst) && dst.repr + dst.obstack.repr !! a.repr + b.repr
      invariant Weaving(dst, a, b, dst_elt, dst_prev, a_elt, b_elt, t) && Tracks(changed, t.out, dst.view, t.v0)
      invariant t.op == Or && !t.pending && t.v0 == old(dst.view) && t.cur0 == old(dst.cur) && t.i <= |a.view|
      invariant t.j <= |b.view|
      decreases |a.view| - t.i + |b.view| - t.j
    {
      WeaveFacts(dst, a, b, dst_elt, dst_prev, a_elt, b_elt, t);
      if a_elt != null && b_elt != null && a_elt.indx == b_elt.indx {
        dst_elt, dst_prev, a_elt, b_elt, changed := IorBoth(dst, a, b, dst_elt, dst_prev, a_elt, b_elt, t, changed);
        t := Matched(t, a.view, b.view);
      } else if b_elt == null || (a_elt != null && a_elt.indx < b_elt.indx) {
        dst_elt, dst_prev, a_elt, changed := IorA(dst, a, b, dst_elt, dst_prev, a_elt, b_elt, t, changed);
        t := t.(i := t.i + 1, out := Snoc(t.out, a.view[t.i]));
      } else {
        dst_elt, dst_prev, b_elt, changed := IorB(dst, a, b, dst_elt, dst_prev, a_elt, b_elt, t, changed);
        t := t.(j := t.j + 1, out := Snoc(t.out, b.view[t.j]));
      }
    }
    WeaveEnd(dst, a, b, dst_elt, dst_prev, a_elt, b_elt, t);
    changed := IorEnd(dst, dst_elt, dst_prev, t.out, changed, t.v0, t.cur0);
  }
}
