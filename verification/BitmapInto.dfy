/** The two-operand operations of bitmap.c: A is rewritten in place while its list is walked. */
module BitmapInto {
  import opened Helpers
  import opened Words
  import opened Elements
  import opened Merging
  import opened Obstacks
  import opened Bitmaps
  import opened BitmapOps

  /** a in the middle of a walk: out has replaced v0[..i], a_elt is the node of v0[i], a_prev the one before it. */
  ghost predicate Editing(a: Bitmap, a_elt: Element?, a_prev: Element?, out: seq<Elt>, v0: seq<Elt>, i: nat)
    reads a, a.repr, a.obstack, a.obstack.repr
  {
    && a.Inv() && a.Cached() && a.obstack.Valid() && a.repr !! a.obstack.repr
    && i <= |v0| && a.view == out + v0[i..]
    && a_elt == At(a.nodes, |out|) && a_prev == At(a.nodes, |out| - 1)
  }

  lemma EditingStart(a: Bitmap)
    requires a.Valid() && a.obstack.Valid() && a.repr !! a.obstack.repr
    ensures Editing(a, a.first, null, [], a.view, 0) && Canonical(a.view) && Sorted(a.view)
    ensures a in a.repr && a.obstack in a.obstack.repr
  {
  }

  lemma EditingFacts(a: Bitmap, a_elt: Element?, a_prev: Element?, out: seq<Elt>, v0: seq<Elt>, i: nat)
    requires Editing(a, a_elt, a_prev, out, v0, i)
    ensures i <= |v0| && (a_elt == null <==> i == |v0|) && a in a.repr
    ensures a_elt != null ==> a_elt in a.repr && a_elt.indx == v0[i].indx && a_elt.bits == v0[i].bits
    ensures a_elt != null ==> Editing(a, a_elt.next, a_elt, Snoc(out, v0[i]), v0, i + 1)
  {
    hide Bitmap.Cached, Obstack.Valid;
    var n := |out|;
    if n < |a.nodes| {
      a.NodeFacts(n);
      assert a.view[n] == v0[i];
      assert v0[i..] == [v0[i]] + v0[i + 1..];
    }
  }

  lemma EditingEnd(a: Bitmap, a_elt: Element?, a_prev: Element?, out: seq<Elt>, v0: seq<Elt>, i: nat)
    requires Editing(a, a_elt, a_prev, out, v0, i) && i == |v0| && Canonical(out)
    ensures a.Valid() && a.obstack.Valid() && a.view == out
  {
    assert out + v0[i..] == out;
  }

  /** Drop the element at the cursor. */
  method Remove(a: Bitmap, a_elt: Element, a_prev: Element?, ghost out: seq<Elt>, ghost v0: seq<Elt>, ghost i: nat)
    returns (next: Element?)
    requires Editing(a, a_elt, a_prev, out, v0, i)
    modifies a.repr, a.obstack.repr
    ensures Editing(a, next, a_prev, out, v0, i + 1) && Recycled(a)
  {
    hide Elts, Distinct, Obstack.Valid, Bitmap.Chain, Bitmap.Cached;
    EditingFacts(a, a_elt, a_prev, out, v0, i);
    next := a_elt.next;
    a.ChainFacts();
    a.obstack.Facts();
    a.NodeFacts(|out|);
    a.ElementFree(a_elt, |out|);
    assert a.view == out + v0[i + 1..];
  }

  lemma InsertedView(out: seq<Elt>, rest: seq<Elt>, e: Elt)
    ensures var v := out + rest; v[..|out|] + [e] + v[|out|..] == Snoc(out, e) + rest
    ensures |Snoc(out, e)| == |out| + 1
  {
  }

  /** Insert a copy of src before the cursor. */
  method InsertCopy(a: Bitmap, a_elt: Element?, a_prev: Element?, ghost out: seq<Elt>, ghost v0: seq<Elt>, ghost i: nat,
                    src: Element, ghost others: set<object>)
    returns (node: Element)
    requires Editing(a, a_elt, a_prev, out, v0, i) && a.repr + a.obstack.repr !! others && src in others
    modifies a.repr, a.obstack.repr
    ensures Editing(a, a_elt, node, Snoc(out, Elt(src.indx, src.bits)), v0, i)
    ensures Conserved(a) && a.repr + a.obstack.repr !! others
  {
    hide Elts, Distinct, Sorted, Canonical, Obstack.Valid, Bitmap.Chain, Bitmap.Inv, Bitmap.Cached;
    a.InvFacts();
    InsertedView(out, v0[i..], Elt(src.indx, src.bits));
    node := a.InsertFilled(a_prev, |out|, src.indx, src.bits);
    a.InvFacts();
  }

  method StoreWords(a: Bitmap, a_elt: Element, a_prev: Element?, ghost out: seq<Elt>, ghost v0: seq<Elt>, ghost i: nat,
                    bits: Bits)
    requires Editing(a, a_elt, a_prev, out, v0, i)
    modifies a`view, a_elt`bits
    ensures i < |v0| && Editing(a, a_elt, a_prev, out, v0[i := Elt(old(a_elt.indx), bits)], i) && Recycled(a)
  {
    hide Elts, Distinct, Obstack.Valid, Bitmap.Chain;
    EditingFacts(a, a_elt, a_prev, out, v0, i);
    a.ChainFacts();
    a.SetBits(a_elt, |out|, bits);
    assert v0[i..][0] == v0[i];
    assert a.view == out + v0[i := Elt(a_elt.indx, bits)][i..];
  }

  lemma EditingSame(a: Bitmap, a_elt: Element?, a_prev: Element?, out: seq<Elt>, v1: seq<Elt>, v0: seq<Elt>, i: nat)
    requires Editing(a, a_elt, a_prev, out, v1, i) && |v1| == |v0| && v1[i..] == v0[i..]
    ensures Editing(a, a_elt, a_prev, out, v0, i)
  {
  }

  /** Store new words into the element at the cursor, and free it if they are all zero. */
  method Rewrite(a: Bitmap, a_elt: Element, a_prev: Element?, ghost out: seq<Elt>, ghost v0: seq<Elt>, ghost i: nat,
                 bits: Bits, ior: Word)
    returns (next: Element?, prev: Element?)
    requires Editing(a, a_elt, a_prev, out, v0, i)
    requires ior == 0 <==> Zero(bits)
    modifies a.repr, a.obstack.repr
    ensures Recycled(a)
    ensures Editing(a, next, prev, if Zero(bits) then out else Snoc(out, Elt(old(a_elt.indx), bits)), v0, i + 1)
  {
    hide Elts, Distinct, Editing, Obstack.Valid, Bitmap.Chain, Canonical, Sorted;
    EditingFacts(a, a_elt, a_prev, out, v0, i);
    ghost var v1 := v0[i := Elt(a_elt.indx, bits)];
    StoreWords(a, a_elt, a_prev, out, v0, i, bits);
    EditingFacts(a, a_elt, a_prev, out, v1, i);
    if ior == 0 {
      prev := a_prev;
      next := Remove(a, a_elt, a_prev, out, v1, i);
    } else {
      prev, next := a_elt, a_elt.next;
    }
    EditingSame(a, next, prev, if Zero(bits) then out else Snoc(out, v1[i]), v1, v0, i + 1);
  }

  /** How far a walk has come: v0[..i] of A's old value and the first j elements of B have given out. */
  datatype Turn = Turn(op: Op, v0: seq<Elt>, i: nat, j: nat, out: seq<Elt>, pending: bool)

  /** A is being rewritten, and B read, in the walk of an operation. */
  ghost predicate Walking(a: Bitmap, b: Bitmap, a_elt: Element?, a_prev: Element?, b_elt: Element?, t: Turn)
    reads a, a.repr, a.obstack, a.obstack.repr, b, b.repr
  {
    && Editing(a, a_elt, a_prev, t.out, t.v0, t.i) && Cursor(b, b_elt, t.j) && a.repr + a.obstack.repr !! b.repr
    && Progress(t.op, t.v0, t.i, b.view, t.j, t.out, t.pending) && Canonical(t.v0) && Canonical(b.view)
  }

  lemma WalkStart(op: Op, a: Bitmap, b: Bitmap)
    requires a.Valid() && a.obstack.Valid() && b.Valid() && a.repr !! a.obstack.repr
    requires a.repr + a.obstack.repr !! b.repr
    ensures Walking(a, b, a.first, null, b.first, Turn(op, a.view, 0, 0, [], false))
    ensures a in a.repr && a.obstack in a.obstack.repr && b in b.repr && Canonical(a.view) && Canonical(b.view)
  {
    hide Merge, Trailing, Canonical;
    EditingStart(a);
    CursorStart(b);
    MergeStart(op, a.view, b.view);
  }

  lemma WalkFacts(a: Bitmap, b: Bitmap, a_elt: Element?, a_prev: Element?, b_elt: Element?, t: Turn)
    requires Walking(a, b, a_elt, a_prev, b_elt, t)
    ensures t.i <= |t.v0| && t.j <= |b.view| && b in b.repr && a.repr + a.obstack.repr !! b.repr
    ensures (a_elt == null <==> t.i == |t.v0|) && (b_elt == null <==> t.j == |b.view|)
    ensures a_elt != null ==> a_elt in a.repr && a_elt.indx == t.v0[t.i].indx && a_elt.bits == t.v0[t.i].bits
    ensures b_elt != null ==> b_elt in b.repr && b_elt.indx == b.view[t.j].indx && b_elt.bits == b.view[t.j].bits
  {
    hide Editing, Cursor, Progress, Canonical;
    EditingFacts(a, a_elt, a_prev, t.out, t.v0, t.i);
    CursorFacts(b, b_elt, t.j);
  }

  lemma WalkParts(a: Bitmap, b: Bitmap, a_elt: Element?, a_prev: Element?, b_elt: Element?, t: Turn)
    requires Walking(a, b, a_elt, a_prev, b_elt, t)
    ensures Editing(a, a_elt, a_prev, t.out, t.v0, t.i) && Progress(t.op, t.v0, t.i, b.view, t.j, t.out, t.pending)
    ensures Canonical(t.v0) && Canonical(b.view) && t.i <= |t.v0| && t.j <= |b.view|
    ensures (a_elt == null <==> t.i == |t.v0|) && (b_elt == null <==> t.j == |b.view|)
  {
    hide Editing, Cursor, Progress, Canonical;
    WalkFacts(a, b, a_elt, a_prev, b_elt, t);
  }

  /** A's element comes first and stays. */
  lemma StepKeep(a: Bitmap, b: Bitmap, a_elt: Element, a_prev: Element?, b_elt: Element?, t: Turn)
    requires Walking(a, b, a_elt, a_prev, b_elt, t) && Eval(t.op, true, false)
    requires b_elt == null || a_elt.indx < b_elt.indx
    ensures t.i < |t.v0|
    ensures Walking(a, b, a_elt.next, a_elt, b_elt, t.(i := t.i + 1, out := Snoc(t.out, t.v0[t.i]), pending := false))
  {
    hide Editing, Cursor, Progress;
    WalkFacts(a, b, a_elt, a_prev, b_elt, t);
    MergeA(t.op, t.v0, t.i, b.view, t.j, t.out, t.pending);
    EditingFacts(a, a_elt, a_prev, t.out, t.v0, t.i);
  }

  /** B's element comes first and is not wanted. */
  lemma StepPass(a: Bitmap, b: Bitmap, a_elt: Element?, a_prev: Element?, b_elt: Element, t: Turn)
    requires Walking(a, b, a_elt, a_prev, b_elt, t) && !Eval(t.op, false, true)
    requires a_elt == null || b_elt.indx < a_elt.indx
    ensures Walking(a, b, a_elt, a_prev, b_elt.next, t.(j := t.j + 1))
  {
    hide Editing, Cursor, Progress;
    WalkFacts(a, b, a_elt, a_prev, b_elt, t);
    MergeB(t.op, t.v0, t.i, b.view, t.j, t.out, t.pending);
    CursorFacts(b, b_elt, t.j);
  }

  lemma CanonicalSorted(v: seq<Elt>, w: seq<Elt>)
    requires Canonical(v) && Canonical(w)
    ensures Sorted(v) && Sorted(w)
  {
  }

  /** A's element comes first and is freed. */
  method StepRemove(a: Bitmap, b: Bitmap, a_elt: Element, a_prev: Element?, b_elt: Element?,
                    ghost t: Turn) returns (next: Element?)
    requires Walking(a, b, a_elt, a_prev, b_elt, t) && !Eval(t.op, true, false)
    requires b_elt == null || a_elt.indx < b_elt.indx
    modifies a.repr, a.obstack.repr
    ensures Walking(a, b, next, a_prev, b_elt, t.(i := t.i + 1)) && Recycled(a) && a.repr + a.obstack.repr !! b.repr
  {
    hide Editing, Cursor, Progress, Canonical;
    WalkFacts(a, b, a_elt, a_prev, b_elt, t);
    CanonicalSorted(t.v0, b.view);
    MergeA(t.op, t.v0, t.i, b.view, t.j, t.out, t.pending);
    next := Remove(a, a_elt, a_prev, t.out, t.v0, t.i);
  }

  /** B's element comes first and is copied into A. */
  method StepCopy(a: Bitmap, b: Bitmap, a_elt: Element?, a_prev: Element?, b_elt: Element, ghost t: Turn)
    returns (node: Element, b_next: Element?)
    requires Walking(a, b, a_elt, a_prev, b_elt, t) && Eval(t.op, false, true)
    requires a_elt == null || b_elt.indx < a_elt.indx
    modifies a.repr, a.obstack.repr
    ensures t.j < |b.view|
    ensures Walking(a, b, a_elt, node, b_next, t.(j := t.j + 1, out := Snoc(t.out, b.view[t.j]), pending := false))
    ensures Conserved(a) && a.repr + a.obstack.repr !! b.repr
  {
    hide Editing, Cursor, Progress, Canonical, Snoc;
    WalkFacts(a, b, a_elt, a_prev, b_elt, t);
    CanonicalSorted(t.v0, b.view);
    MergeB(t.op, t.v0, t.i, b.view, t.j, t.out, t.pending);
    CursorFacts(b, b_elt, t.j);
    b_next := b_elt.next;
    node := InsertCopy(a, a_elt, a_prev, t.out, t.v0, t.i, b_elt, b.repr);
  }

  ghost function Both(t: Turn, ix: nat, bits: Bits): Turn {
    t.(i := t.i + 1, j := t.j + 1,
       out := if Zero(bits) then t.out else Snoc(t.out, Elt(ix, bits)), pending := Zero(bits))
  }

  /** Both lists have this index: A's element gets the words bits, the combination of both, or is freed if
      they are zero. */
  method StepBoth(a: Bitmap, b: Bitmap, a_elt: Element, a_prev: Element?, b_elt: Element, ghost t: Turn, bits: Bits,
                  ior: Word)
    returns (next: Element?, prev: Element?, b_next: Element?)
    requires Walking(a, b, a_elt, a_prev, b_elt, t) && a_elt.indx == b_elt.indx
    requires bits == Combine(t.op, a_elt.bits, b_elt.bits) && (ior == 0 <==> Zero(bits))
    modifies a.repr, a.obstack.repr
    ensures Walking(a, b, next, prev, b_next, Both(t, old(a_elt.indx), bits)) && Recycled(a)
    ensures a.repr + a.obstack.repr !! b.repr
  {
    hide Editing, Cursor, Progress, Combine, Canonical, Snoc;
    WalkFacts(a, b, a_elt, a_prev, b_elt, t);
    CanonicalSorted(t.v0, b.view);
    ghost var e := Elt(a_elt.indx, bits);
    MergeBoth(t.op, t.v0, t.i, b.view, t.j, t.out, t.pending, e);
    CursorFacts(b, b_elt, t.j);
    b_next := b_elt.next;
    next, prev := Rewrite(a, a_elt, a_prev, t.out, t.v0, t.i, bits, ior);
  }

  lemma ZeroPair(x: Bits)
    ensures x == ZERO_BITS <==> x[0] == 0 && x[1] == 0
  {
  }

  /** The word loop of bitmap_and_compl_into: clear in x the bits of y, collecting what was cleared. */
  method ClearWords(x: Bits, y: Bits) returns (r: Bits, cleared: Word, ior: Word)
    ensures r == Combine(AndNot, x, y)
    ensures cleared == 0 <==> Zero(Combine(And, x, y))
    ensures ior == 0 <==> Zero(r)
  {
    hide Apply;
    r, cleared, ior := x, 0, 0;
    var ix: nat := ELEMENT_WORDS;
    while ix != 0
      invariant ix <= ELEMENT_WORDS
      invariant forall k :: 0 <= k < ix ==> r[k] == x[k]
      invariant forall k :: ix <= k < ELEMENT_WORDS ==> r[k] == Apply(AndNot, x[k], y[k])
      invariant cleared == 0 <==> forall k :: ix <= k < ELEMENT_WORDS ==> Apply(And, x[k], y[k]) == 0
      invariant ior == 0 <==> forall k :: ix <= k < ELEMENT_WORDS ==> r[k] == 0
    {
      ix := ix - 1;
      var c := Apply(And, r[ix], y[ix]);
      var w := Apply(Xor, r[ix], c);
      ClearedWord(x[ix], y[ix]);
      r := r[ix := w];
      OrZero(cleared, c);
      OrZero(ior, w);
      cleared := Apply(Or, cleared, c);
      ior := Apply(Or, ior, w);
    }
    ZeroPair(Combine(And, x, y));
  }

  /** The word loop of bitmap_compl_and_into: y without the bits of x. */
  method ComplWords(x: Bits, y: Bits) returns (r: Bits, ior: Word)
    ensures r == Combine(NotAnd, x, y)
    ensures ior == 0 <==> Zero(r)
  {
    hide Apply;
    r, ior := x, 0;
    var ix: nat := ELEMENT_WORDS;
    while ix != 0
      invariant ix <= ELEMENT_WORDS
      invariant forall k :: 0 <= k < ix ==> r[k] == x[k]
      invariant forall k :: ix <= k < ELEMENT_WORDS ==> r[k] == Apply(NotAnd, x[k], y[k])
      invariant ior == 0 <==> forall k :: ix <= k < ELEMENT_WORDS ==> r[k] == 0
    {
      ix := ix - 1;
      var c := Apply(And, r[ix], y[ix]);
      var w := Apply(Xor, y[ix], c);
      ClearedWord(x[ix], y[ix]);
      r := r[ix := w];
      OrZero(ior, w);
      ior := Apply(Or, ior, w);
    }
  }

  lemma TailAbove(out: seq<Elt>, v0: seq<Elt>, i: nat)
    requires i <= |v0| && Canonical(v0) && (out != [] && i < |v0| ==> out[|out| - 1].indx < v0[i].indx)
    ensures (out + v0[i..])[..|out|] == out
    ensures forall k :: 0 < |out| <= k < |out + v0[i..]| ==> (out + v0[i..])[k].indx > (out + v0[i..])[|out| - 1].indx
  {
    forall k | 0 < |out| <= k < |out + v0[i..]| ensures (out + v0[i..])[k].indx > (out + v0[i..])[|out| - 1].indx {
      assert (out + v0[i..])[k] == v0[i + (k - |out|)];
    }
  }

  /** bitmap_elt_clear_from at the cursor, whose list is still sorted, so current never dangles. */
  method CutRest(a: Bitmap, a_elt: Element?, a_prev: Element?, ghost out: seq<Elt>, ghost v0: seq<Elt>, ghost i: nat)
    requires Editing(a, a_elt, a_prev, out, v0, i) && Canonical(out)
    requires Canonical(v0) && (out != [] && i < |v0| ==> out[|out| - 1].indx < v0[i].indx)
    modifies a.repr, a.obstack.repr
    ensures a.Valid() && a.obstack.Valid() && a.view == out && Recycled(a)
  {
    hide Elts, Distinct, Obstack.Valid, Bitmap.Chain, Canonical;
    a.ChainFacts();
    a.obstack.Facts();
    TailAbove(out, v0, i);
    assert a.Kept(|out|);
    a.EltClearFrom(a_elt, |out|);
  }

  /** A &= B. */
  method BitmapAndInto(a: Bitmap, b: Bitmap)
    requires a.Valid() && a.obstack.Valid() && b.Valid() && a.repr !! a.obstack.repr
    requires a != b ==> a.repr + a.obstack.repr !! b.repr
    modifies a.repr, a.obstack.repr
    ensures a.Valid() && a.obstack.Valid() && Recycled(a)
    ensures a.Contents() == old(a.Contents() * b.Contents())
    ensures a.view == Merge(And, old(a.view), 0, old(b.view), 0)
  {
    hide Walking, Editing, Progress, Trailing, Merge, Combine, Eval, Canonical, Snoc, Zero, Emits, Members,
      Bitmap.Valid, Obstack.Valid, Apply;
    MergeContents(And, a, b);
    EditingStart(a);
    if a == b {
      MergeSelf(And, a.view);
      return;
    }
    WalkStart(And, a, b);
    var a_elt, b_elt := a.first, b.first;
    var a_prev: Element? := null;
    ghost var t := Turn(And, a.view, 0, 0, [], false);
    EvalTable();
    while a_elt != null && b_elt != null
      invariant Recycled(a) && a.repr + a.obstack.repr !! b.repr
      invariant Walking(a, b, a_elt, a_prev, b_elt, t) && t.op == And && t.v0 == old(a.view) && t.i <= |t.v0|
      invariant t.j <= |b.view|
      decreases |t.v0| - t.i + |b.view| - t.j
    {
      WalkFacts(a, b, a_elt, a_prev, b_elt, t);
      if a_elt.indx < b_elt.indx {
        a_elt := StepRemove(a, b, a_elt, a_prev, b_elt, t);
        t := t.(i := t.i + 1);
      } else if b_elt.indx < a_elt.indx {
        StepPass(a, b, a_elt, a_prev, b_elt, t);
        b_elt, t := b_elt.next, t.(j := t.j + 1);
      } else {
        var bits, ior := CombineWords(And, a_elt.bits, b_elt.bits);
        ghost var ix := a_elt.indx;
        a_elt, a_prev, b_elt := StepBoth(a, b, a_elt, a_prev, b_elt, t, bits, ior);
        t := Both(t, ix, bits);
      }
    }
    WalkParts(a, b, a_elt, a_prev, b_elt, t);
    MergeDone(And, t.v0, t.i, b.view, t.j, t.out, t.pending);
    CutRest(a, a_elt, a_prev, t.out, t.v0, t.i);
  }

  method OrWord(x: Word, y: Word) returns (r: Word)
    ensures r == Apply(Or, x, y)
    ensures r == 0 <==> x == 0 && y == 0
  {
    OrZero(x, y);
    r := Apply(Or, x, y);
  }

  lemma {:induction false} KeepAll(op: Op, a: seq<Elt>, i: nat, b: seq<Elt>)
    requires i <= |a| && Eval(op, true, false)
    ensures Merge(op, a, i, b, |b|) == a[i..]
    decreases |a| - i
  {
    if i < |a| {
      KeepAll(op, a, i + 1, b);
    }
  }

  /** Once B is exhausted, an operation that keeps A's own elements leaves the rest of A as it is. */
  lemma KeepRest(a: Bitmap, a_elt: Element?, a_prev: Element?, out: seq<Elt>, v0: seq<Elt>, i: nat,
                 op: Op, bv: seq<Elt>, j: nat, pending: bool)
    requires Editing(a, a_elt, a_prev, out, v0, i) && Progress(op, v0, i, bv, j, out, pending)
    requires Eval(op, true, false) && (j == |bv| || (i == |v0| && !Eval(op, false, true)))
    requires Canonical(Merge(op, v0, 0, bv, 0))
    ensures a.Valid() && a.obstack.Valid() && a.view == Merge(op, v0, 0, bv, 0)
  {
    hide Merge;
    if j == |bv| {
      KeepAll(op, v0, i, bv);
    } else {
      DropAll(op, v0, i, bv, j, false);
    }
  }

  method AndComplWalk(a: Bitmap, b: Bitmap) returns (changed: bool)
    requires a.Valid() && a.obstack.Valid() && b.Valid() && a.repr !! a.obstack.repr
    requires a.repr + a.obstack.repr !! b.repr
    modifies a.repr, a.obstack.repr
    ensures a.Valid() && a.obstack.Valid() && Recycled(a)
    ensures a.view == Merge(AndNot, old(a.view), 0, b.view, 0)
    ensures changed <==> a.view != old(a.view)
  {
    hide Walking, Editing, Progress, Trailing, Merge, Combine, Eval, Canonical, Snoc, Zero, Emits, Members,
      Bitmap.Valid, Obstack.Valid, Apply;
    WalkStart(AndNot, a, b);
    var a_elt, b_elt := a.first, b.first;
    var a_prev: Element? := null;
    ghost var t := Turn(AndNot, a.view, 0, 0, [], false);
    EvalTable();
    var changedBits: Word := 0;
    while a_elt != null && b_elt != null
      invariant Recycled(a) && a.repr + a.obstack.repr !! b.repr
      invariant Walking(a, b, a_elt, a_prev, b_elt, t) && t.op == AndNot && t.v0 == old(a.view) && t.i <= |t.v0|
      invariant t.j <= |b.view|
      invariant Emits(And, t.v0, 0, b.view, 0) <==> changedBits != 0 || Emits(And, t.v0, t.i, b.view, t.j)
      decreases |t.v0| - t.i + |b.view| - t.j
    {
      WalkFacts(a, b, a_elt, a_prev, b_elt, t);
      if a_elt.indx < b_elt.indx {
        SomeA(And, t.v0, t.i, b.view, t.j);
        StepKeep(a, b, a_elt, a_prev, b_elt, t);
        a_prev, a_elt, t := a_elt, a_elt.next, t.(i := t.i + 1, out := Snoc(t.out, t.v0[t.i]), pending := false);
      } else if b_elt.indx < a_elt.indx {
        SomeB(And, t.v0, t.i, b.view, t.j);
        StepPass(a, b, a_elt, a_prev, b_elt, t);
        b_elt, t := b_elt.next, t.(j := t.j + 1);
      } else {
        SomeBoth(And, t.v0, t.i, b.view, t.j);
        var bits, cleared, ior := ClearWords(a_elt.bits, b_elt.bits);
        changedBits := OrWord(changedBits, cleared);
        ghost var ix := a_elt.indx;
        a_elt, a_prev, b_elt := StepBoth(a, b, a_elt, a_prev, b_elt, t, bits, ior);
        t := Both(t, ix, bits);
      }
    }
    WalkParts(a, b, a_elt, a_prev, b_elt, t);
    DropAll(And, t.v0, t.i, b.view, t.j, false);
    ChangesWhen(t.v0, b.view);
    MergeMembers(AndNot, t.v0, b.view);
    KeepRest(a, a_elt, a_prev, t.out, t.v0, t.i, AndNot, b.view, t.j, t.pending);
    return changedBits != 0;
  }

  /** bitmap_empty_p. */
  predicate Empty(m: Bitmap)
    reads m
  {
    m.first == null
  }

  lemma EmptyView(m: Bitmap)
    requires m.Valid()
    ensures Empty(m) <==> m.view == []
  {
  }

  /** A &= ~B. Return true if A changes. */
  method BitmapAndComplInto(a: Bitmap, b: Bitmap) returns (changed: bool)
    requires a.Valid() && a.obstack.Valid() && b.Valid() && a.repr !! a.obstack.repr
    requires a != b ==> a.repr + a.obstack.repr !! b.repr
    modifies a.repr, a.obstack.repr
    ensures a.Valid() && a.obstack.Valid() && Recycled(a)
    ensures a.Contents() == old(a.Contents() - b.Contents())
    ensures a.view == Merge(AndNot, old(a.view), 0, old(b.view), 0)
    ensures changed <==> a.Contents() != old(a.Contents())
    ensures changed <==> a.view != old(a.view)
  {
    hide Merge, Combine, Members, Bitmap.Inv, Bitmap.Chain, Bitmap.Cached, Obstack.Valid, Apply;
    MergeContents(AndNot, a, b);
    MergeDiffers(AndNot, a, b, a);
    EditingStart(a);
    ValidFacts(b);
    if a == b {
      MergeSelf(AndNot, a.view);
      EmptyView(a);
      if Empty(a) {
        return false;
      }
      a.Clear();
      return true;
    }
    changed := AndComplWalk(a, b);
  }

  method IorWalk(a: Bitmap, b: Bitmap) returns (changed: bool)
    requires a.Valid() && a.obstack.Valid() && b.Valid() && a.repr !! a.obstack.repr
    requires a.repr + a.obstack.repr !! b.repr
    modifies a.repr, a.obstack.repr
    ensures a.Valid() && a.obstack.Valid() && Conserved(a)
    ensures a.view == Merge(Or, old(a.view), 0, b.view, 0)
    ensures changed <==> a.view != old(a.view)
  {
    hide Walking, Editing, Progress, Trailing, Merge, Combine, Eval, Canonical, Snoc, Zero, Emits, Members,
      Bitmap.Valid, Obstack.Valid, Apply;
    WalkStart(Or, a, b);
    var a_elt, b_elt := a.first, b.first;
    var a_prev: Element? := null;
    ghost var t := Turn(Or, a.view, 0, 0, [], false);
    EvalTable();
    ChangesWhen(t.v0, b.view);
    changed := false;
    while b_elt != null
      invariant Conserved(a) && a.repr + a.obstack.repr !! b.repr
      invariant Walking(a, b, a_elt, a_prev, b_elt, t) && t.op == Or && t.v0 == old(a.view) && t.i <= |t.v0|
      invariant t.j <= |b.view|
      invariant Emits(NotAnd, t.v0, 0, b.view, 0) <==> changed || Emits(NotAnd, t.v0, t.i, b.view, t.j)
      decreases |t.v0| - t.i + |b.view| - t.j
    {
      WalkFacts(a, b, a_elt, a_prev, b_elt, t);
      if a_elt == null || b_elt.indx < a_elt.indx {
        SomeB(NotAnd, t.v0, t.i, b.view, t.j);
        a_prev, b_elt := StepCopy(a, b, a_elt, a_prev, b_elt, t);
        t := t.(j := t.j + 1, out := Snoc(t.out, b.view[t.j]), pending := false);
        changed := true;
      } else if a_elt.indx < b_elt.indx {
        SomeA(NotAnd, t.v0, t.i, b.view, t.j);
        StepKeep(a, b, a_elt, a_prev, b_elt, t);
        a_prev, a_elt, t := a_elt, a_elt.next, t.(i := t.i + 1, out := Snoc(t.out, t.v0[t.i]), pending := false);
      } else {
        SomeBoth(NotAnd, t.v0, t.i, b.view, t.j);
        OrSameBits(a_elt.bits, b_elt.bits);
        var same := a_elt.bits;
        var bits, ior := CombineWords(Or, a_elt.bits, b_elt.bits);
        ghost var ix := a_elt.indx;
        a_elt, a_prev, b_elt := StepBoth(a, b, a_elt, a_prev, b_elt, t, bits, ior);
        t := Both(t, ix, bits);
        if bits != same {
          changed := true;
        }
      }
    }
    WalkParts(a, b, a_elt, a_prev, b_elt, t);
    DropAll(NotAnd, t.v0, t.i, b.view, t.j, false);
    MergeMembers(Or, t.v0, b.view);
    KeepRest(a, a_elt, a_prev, t.out, t.v0, t.i, Or, b.view, t.j, t.pending);
  }

  /** A |= B. Return true if A changes. */
  method BitmapIorInto(a: Bitmap, b: Bitmap) returns (changed: bool)
    requires a.Valid() && a.obstack.Valid() && b.Valid() && a.repr !! a.obstack.repr
    requires a != b ==> a.repr + a.obstack.repr !! b.repr
    modifies a.repr, a.obstack.repr
    ensures a.Valid() && a.obstack.Valid() && Conserved(a)
    ensures a.Contents() == old(a.Contents() + b.Contents())
    ensures a.view == Merge(Or, old(a.view), 0, old(b.view), 0)
    ensures changed <==> a.Contents() != old(a.Contents())
    ensures changed <==> a.view != old(a.view)
  {
    hide Merge, Combine, Members, Bitmap.Inv, Bitmap.Chain, Bitmap.Cached, Obstack.Valid, Apply;
    MergeContents(Or, a, b);
    MergeDiffers(Or, a, b, a);
    EditingStart(a);
    ValidFacts(b);
    if a == b {
      MergeSelf(Or, a.view);
      return false;
    }
    changed := IorWalk(a, b);
  }

  method XorWalk(a: Bitmap, b: Bitmap)
    requires a.Valid() && a.obstack.Valid() && b.Valid() && a.repr !! a.obstack.repr
    requires a.repr + a.obstack.repr !! b.repr
    modifies a.repr, a.obstack.repr
    ensures a.Valid() && a.obstack.Valid() && Conserved(a)
    ensures a.view == Merge(Xor, old(a.view), 0, b.view, 0)
  {
    hide Walking, Editing, Progress, Trailing, Merge, Combine, Eval, Canonical, Snoc, Zero, Emits, Members,
      Bitmap.Valid, Obstack.Valid, Apply;
    WalkStart(Xor, a, b);
    var a_elt, b_elt := a.first, b.first;
    var a_prev: Element? := null;
    ghost var t := Turn(Xor, a.view, 0, 0, [], false);
    EvalTable();
    while b_elt != null
      invariant Conserved(a) && a.repr + a.obstack.repr !! b.repr
      invariant Walking(a, b, a_elt, a_prev, b_elt, t) && t.op == Xor && t.v0 == old(a.view) && t.i <= |t.v0|
      invariant t.j <= |b.view|
      decreases |t.v0| - t.i + |b.view| - t.j
    {
      WalkFacts(a, b, a_elt, a_prev, b_elt, t);
      if a_elt == null || b_elt.indx < a_elt.indx {
        a_prev, b_elt := StepCopy(a, b, a_elt, a_prev, b_elt, t);
        t := t.(j := t.j + 1, out := Snoc(t.out, b.view[t.j]), pending := false);
      } else if a_elt.indx < b_elt.indx {
        StepKeep(a, b, a_elt, a_prev, b_elt, t);
        a_prev, a_elt, t := a_elt, a_elt.next, t.(i := t.i + 1, out := Snoc(t.out, t.v0[t.i]), pending := false);
      } else {
        var bits, ior := CombineWords(Xor, a_elt.bits, b_elt.bits);
        ghost var ix := a_elt.indx;
        a_elt, a_prev, b_elt := StepBoth(a, b, a_elt, a_prev, b_elt, t, bits, ior);
        t := Both(t, ix, bits);
      }
    }
    WalkParts(a, b, a_elt, a_prev, b_elt, t);
    MergeMembers(Xor, t.v0, b.view);
    KeepRest(a, a_elt, a_prev, t.out, t.v0, t.i, Xor, b.view, t.j, t.pending);
  }

  /** A ^= B. */
  method BitmapXorInto(a: Bitmap, b: Bitmap)
    requires a.Valid() && a.obstack.Valid() && b.Valid() && a.repr !! a.obstack.repr
    requires a != b ==> a.repr + a.obstack.repr !! b.repr
    modifies a.repr, a.obstack.repr
    ensures a.Valid() && a.obstack.Valid() && Conserved(a)
    ensures a.Contents() == old((a.Contents() - b.Contents()) + (b.Contents() - a.Contents()))
    ensures a.view == Merge(Xor, old(a.view), 0, old(b.view), 0)
  {
    hide Merge, Combine, Members, Bitmap.Inv, Bitmap.Chain, Bitmap.Cached, Obstack.Valid, Apply;
    MergeContents(Xor, a, b);
    EditingStart(a);
    ValidFacts(b);
    if a == b {
      MergeSelf(Xor, a.view);
      a.Clear();
      RecycledConserved(a);
      return;
    }
    XorWalk(a, b);
  }

  lemma MergeEmpty(a: seq<Elt>, b: seq<Elt>)
    requires Canonical(a) && Canonical(b)
    ensures a == [] ==> Merge(NotAnd, a, 0, b, 0) == b
    ensures b == [] ==> Merge(NotAnd, a, 0, b, 0) == []
  {
    hide Merge, Members, Canonical;
    EmptyValue();
    MergeSame(NotAnd, a, b, b);
    MergeSame(NotAnd, a, b, []);
  }

  method ComplAndWalk(a: Bitmap, b: Bitmap)
    requires a.Valid() && a.obstack.Valid() && b.Valid() && a.repr !! a.obstack.repr
    requires a.repr + a.obstack.repr !! b.repr
    modifies a.repr, a.obstack.repr
    ensures a.Valid() && a.obstack.Valid() && Conserved(a)
    ensures a.view == Merge(NotAnd, old(a.view), 0, b.view, 0)
  {
    hide Walking, Editing, Progress, Trailing, Merge, Combine, Eval, Canonical, Snoc, Zero, Emits, Members,
      Bitmap.Valid, Obstack.Valid, Apply;
    WalkStart(NotAnd, a, b);
    var a_elt, b_elt := a.first, b.first;
    var a_prev: Element? := null;
    ghost var t := Turn(NotAnd, a.view, 0, 0, [], false);
    EvalTable();
    while a_elt != null || b_elt != null
      invariant Conserved(a) && a.repr + a.obstack.repr !! b.repr
      invariant Walking(a, b, a_elt, a_prev, b_elt, t) && t.op == NotAnd && t.v0 == old(a.view) && t.i <= |t.v0|
      invariant t.j <= |b.view|
      decreases |t.v0| - t.i + |b.view| - t.j
    {
      WalkFacts(a, b, a_elt, a_prev, b_elt, t);
      if b_elt == null || (a_elt != null && a_elt.indx < b_elt.indx) {
        a_elt := StepRemove(a, b, a_elt, a_prev, b_elt, t);
        t := t.(i := t.i + 1);
      } else if a_elt == null || b_elt.indx < a_elt.indx {
        a_prev, b_elt := StepCopy(a, b, a_elt, a_prev, b_elt, t);
        t := t.(j := t.j + 1, out := Snoc(t.out, b.view[t.j]), pending := false);
      } else {
        var bits, ior := ComplWords(a_elt.bits, b_elt.bits);
        ghost var ix := a_elt.indx;
        a_elt, a_prev, b_elt := StepBoth(a, b, a_elt, a_prev, b_elt, t, bits, ior);
        t := Both(t, ix, bits);
      }
    }
    WalkParts(a, b, a_elt, a_prev, b_elt, t);
    MergeDone(NotAnd, t.v0, t.i, b.view, t.j, t.out, t.pending);
    MergeMembers(NotAnd, t.v0, b.view);
    EditingEnd(a, a_elt, a_prev, t.out, t.v0, t.i);
  }

  /** A = ~A & B. */
  method BitmapComplAndInto(a: Bitmap, b: Bitmap)
    requires a.Valid() && a.obstack.Valid() && b.Valid() && a.repr !! a.obstack.repr
    requires a.repr + a.obstack.repr !! b.repr
    modifies a.repr, a.obstack.repr
    ensures a.Valid() && a.obstack.Valid() && Conserved(a)
    ensures a.Contents() == old(b.Contents() - a.Contents())
    ensures a.view == Merge(NotAnd, old(a.view), 0, old(b.view), 0)
  {
    hide Merge, Combine, Members, Bitmap.Inv, Bitmap.Chain, Bitmap.Cached, Obstack.Valid, Apply;
    MergeContents(NotAnd, a, b);
    EditingStart(a);
    EmptyView(a);
    EmptyView(b);
    ValidFacts(b);
    MergeEmpty(a.view, b.view);
    if Empty(a) {
      BitmapCopy(a, b);
      return;
    }
    if Empty(b) {
      a.Clear();
      RecycledConserved(a);
      return;
    }
    ComplAndWalk(a, b);
  }
}
