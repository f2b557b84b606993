/** The merge loops of bitmap.c as computations on values, and what they leave of the old value of DST. */
module Merging {
  import opened Words
  import opened Elements

  /** Whether a merge's last written element is a combination that came out zero: such a result
      is stored in the next recycled element, but the merge does not move past it. */
  ghost predicate Trailing(op: Op, a: seq<Elt>, i: nat, b: seq<Elt>, j: nat, pending: bool)
    requires i <= |a| && j <= |b|
    decreases |a| - i + |b| - j
  {
    if i == |a| && j == |b| then pending
    else if j == |b| || (i < |a| && a[i].indx < b[j].indx) then
      Trailing(op, a, i + 1, b, j, pending && !Eval(op, true, false))
    else if i == |a| || b[j].indx < a[i].indx then
      Trailing(op, a, i, b, j + 1, pending && !Eval(op, false, true))
    else
      Trailing(op, a, i + 1, b, j + 1, Zero(Combine(op, a[i].bits, b[j].bits)))
  }

  function Snoc(s: seq<Elt>, e: Elt): seq<Elt> {
    s + [e]
  }

  /** Whether a merge still has something to emit. */
  ghost predicate Emits(op: Op, a: seq<Elt>, i: nat, b: seq<Elt>, j: nat)
    requires i <= |a| && j <= |b|
  {
    Merge(op, a, i, b, j) != []
  }

  /** out is what merging a[..i] and b[..j] emits, and nothing in it reaches the indices still to come. */
  ghost predicate Progress(op: Op, a: seq<Elt>, i: nat, b: seq<Elt>, j: nat, out: seq<Elt>, pending: bool)
  {
    && i <= |a| && j <= |b|
    && out + Merge(op, a, i, b, j) == Merge(op, a, 0, b, 0)
    && (Trailing(op, a, i, b, j, pending) <==> Trailing(op, a, 0, b, 0, false))
    && (out != [] && i < |a| ==> out[|out| - 1].indx < a[i].indx)
    && (out != [] && j < |b| ==> out[|out| - 1].indx < b[j].indx)
  }

  lemma Prefixed(out: seq<Elt>, e: seq<Elt>, rest: seq<Elt>)
    ensures out + (e + rest) == (out + e) + rest
    ensures out + [] == out && [] + rest == rest
  {
  }

  lemma MergeStart(op: Op, a: seq<Elt>, b: seq<Elt>)
    ensures Progress(op, a, 0, b, 0, [], false)
  {
    Prefixed([], [], Merge(op, a, 0, b, 0));
  }

  lemma MergeA(op: Op, a: seq<Elt>, i: nat, b: seq<Elt>, j: nat, out: seq<Elt>, pending: bool)
    requires Sorted(a) && Sorted(b) && Progress(op, a, i, b, j, out, pending)
    requires i < |a| && (j == |b| || a[i].indx < b[j].indx)
    ensures if Eval(op, true, false) then Progress(op, a, i + 1, b, j, Snoc(out, a[i]), false)
            else Progress(op, a, i + 1, b, j, out, pending)
  {
    hide Combine, Eval;
    Prefixed(out, Keep(Eval(op, true, false), a[i]), Merge(op, a, i + 1, b, j));
  }

  lemma MergeB(op: Op, a: seq<Elt>, i: nat, b: seq<Elt>, j: nat, out: seq<Elt>, pending: bool)
    requires Sorted(a) && Sorted(b) && Progress(op, a, i, b, j, out, pending)
    requires j < |b| && (i == |a| || b[j].indx < a[i].indx)
    ensures if Eval(op, false, true) then Progress(op, a, i, b, j + 1, Snoc(out, b[j]), false)
            else Progress(op, a, i, b, j + 1, out, pending)
  {
    hide Combine, Eval;
    Prefixed(out, Keep(Eval(op, false, true), b[j]), Merge(op, a, i, b, j + 1));
  }

  lemma MergeBoth(op: Op, a: seq<Elt>, i: nat, b: seq<Elt>, j: nat, out: seq<Elt>, pending: bool, e: Elt)
    requires Sorted(a) && Sorted(b) && Progress(op, a, i, b, j, out, pending)
    requires i < |a| && j < |b| && a[i].indx == b[j].indx
    requires e == Elt(a[i].indx, Combine(op, a[i].bits, b[j].bits))
    ensures if Zero(e.bits) then Progress(op, a, i + 1, b, j + 1, out, true)
            else Progress(op, a, i + 1, b, j + 1, Snoc(out, e), false)
    ensures out != [] ==> e.indx > out[|out| - 1].indx
  {
    hide Combine, Eval;
    Prefixed(out, Emit(e), Merge(op, a, i + 1, b, j + 1));
  }

  lemma {:induction false} DropAll(op: Op, a: seq<Elt>, i: nat, b: seq<Elt>, j: nat, pending: bool)
    requires i <= |a| && j <= |b|
    requires (j == |b| && !Eval(op, true, false)) || (i == |a| && !Eval(op, false, true)) || (i == |a| && j == |b|)
    ensures Merge(op, a, i, b, j) == [] && !Emits(op, a, i, b, j)
    ensures Trailing(op, a, i, b, j, pending) <==> pending
    decreases |a| - i + |b| - j
  {
    hide Combine;
    if j == |b| && i < |a| {
      DropAll(op, a, i + 1, b, j, pending);
    } else if j < |b| {
      DropAll(op, a, i, b, j + 1, pending);
    }
  }

  /** A merge is over when what is left on either side would be dropped. */
  lemma MergeDone(op: Op, a: seq<Elt>, i: nat, b: seq<Elt>, j: nat, out: seq<Elt>, pending: bool)
    requires Progress(op, a, i, b, j, out, pending)
    requires (j == |b| && !Eval(op, true, false)) || (i == |a| && !Eval(op, false, true)) || (i == |a| && j == |b|)
    ensures out == Merge(op, a, 0, b, 0)
    ensures out != [] && i < |a| ==> out[|out| - 1].indx < a[i].indx
    ensures pending <==> Trailing(op, a, 0, b, 0, false)
  {
    DropAll(op, a, i, b, j, pending);
    Prefixed(out, [], []);
  }

  /** Exactly when the merge leaves dst.current inside the list: v0 and cur0 are dst's value and
      cache position before it, r the result, pending as for Trailing. bitmap_elt_clear_from only
      moves current if its index exceeds that of the last element kept, and by then the merge has
      overwritten those indices. */
  ghost predicate CurrentSurvives(v0: seq<Elt>, cur0: int, r: seq<Elt>, pending: bool) {
    || r == []
    || !(|r| <= cur0 < |v0|)
    || (cur0 == |r| && pending)
    || v0[cur0].indx > r[|r| - 1].indx
  }

  /** The caller's way to be safe: dst is empty, or its cache is on its first element. */
  lemma SurvivesWhenFirst(v0: seq<Elt>, cur0: int, r: seq<Elt>, pending: bool)
    requires v0 == [] || cur0 == 0
    ensures CurrentSurvives(v0, cur0, r, pending)
  {
  }

  /** A destination holding elements 0, 1 and 2 with its cache on the last, and a result that
      consists of element 5 alone: current is left pointing to a freed element. */
  lemma DanglingCurrent(x: Bits)
    requires !Zero(x)
    ensures
      var v0, a, b := [Elt(0, x), Elt(1, x), Elt(2, x)], [Elt(5, x)], [];
      && Canonical(v0) && Canonical(a) && Canonical(b)
      && !CurrentSurvives(v0, 2, Merge(Or, a, 0, b, 0), Trailing(Or, a, 0, b, 0, false))
  {
    var a: seq<Elt>, b: seq<Elt> := [Elt(5, x)], [];
    assert Merge(Or, a, 1, b, 0) == [];
    assert Merge(Or, a, 0, b, 0) == [a[0]] + [];
  }

  /** What a merge has left of dst's old value v0 behind the part out it has written. pending says
      that the slot after out was overwritten by a result that came out zero. */
  ghost predicate Leftover(v: seq<Elt>, cur: int, out: seq<Elt>, pending: bool, v0: seq<Elt>, cur0: int)
  {
    var d := |out|;
    && d <= |v| && v[..d] == out
    && (d < |v| ==> if pending then (out != [] ==> v[d].indx > out[d - 1].indx)
       else d < |v0| && v[d].indx == v0[d].indx)
    && |v0| <= |v| && (d + 1 < |v| ==> |v| == |v0|)
    && (forall k :: d < k < |v0| ==> v[k].indx == v0[k].indx)
    && (v0 != [] ==> cur == cur0)
    && (v0 == [] && v != [] ==> cur == 0)
  }

  lemma LeftoverStore(v: seq<Elt>, cur: int, out: seq<Elt>, pending: bool, v0: seq<Elt>, cur0: int, e: Elt,
                      v': seq<Elt>, cur': int)
    requires Leftover(v, cur, out, pending, v0, cur0)
    requires v' == if |out| < |v| then v[|out| := e] else v + [e]
    requires cur' == if v == [] then 0 else cur
    ensures Leftover(v', cur', Snoc(out, e), false, v0, cur0)
    ensures (out != [] ==> e.indx > out[|out| - 1].indx) ==> Leftover(v', cur', out, true, v0, cur0)
  {
    var d := |out|;
    assert v'[..d] == out && v'[..d + 1] == Snoc(out, e);
    forall k | d < k < |v0| ensures v'[k].indx == v0[k].indx {
      assert v'[k] == v[k];
    }
  }

  lemma EvalTable()
    ensures !Eval(And, true, false) && !Eval(And, false, true)
    ensures Eval(AndNot, true, false) && !Eval(AndNot, false, true)
    ensures Eval(Or, true, false) && Eval(Or, false, true)
    ensures Eval(Xor, true, false) && Eval(Xor, false, true)
    ensures !Eval(NotAnd, true, false) && Eval(NotAnd, false, true)
  {
  }

  /** Merging a value with itself. */
  lemma MergeSelf(op: Op, a: seq<Elt>)
    requires Canonical(a) && op in {And, AndNot, Xor, Or}
    ensures Merge(op, a, 0, a, 0) == if op in {And, Or} then a else []
  {
    MergeMembers(op, a, a);
    CanonicalUnique(Merge(op, a, 0, a, 0), if op in {And, Or} then a else []);
  }

  lemma OrKeeps(x: Bits, y: Bits)
    requires !Zero(x)
    ensures !Zero(Combine(Or, x, y))
  {
    OrZero(x[0], y[0]);
    OrZero(x[1], y[1]);
  }

  // ---- which merges come out empty ------------------------------------------------------------

  lemma SomeA(op: Op, a: seq<Elt>, i: nat, b: seq<Elt>, j: nat)
    requires i < |a| && j <= |b| && (j == |b| || a[i].indx < b[j].indx)
    ensures Emits(op, a, i, b, j) <==> Eval(op, true, false) || Emits(op, a, i + 1, b, j)
  {
    hide Combine, Eval;
  }

  lemma SomeB(op: Op, a: seq<Elt>, i: nat, b: seq<Elt>, j: nat)
    requires i <= |a| && j < |b| && (i == |a| || b[j].indx < a[i].indx)
    ensures Emits(op, a, i, b, j) <==> Eval(op, false, true) || Emits(op, a, i, b, j + 1)
  {
    hide Combine, Eval;
  }

  lemma SomeBoth(op: Op, a: seq<Elt>, i: nat, b: seq<Elt>, j: nat)
    requires i < |a| && j < |b| && a[i].indx == b[j].indx
    ensures Emits(op, a, i, b, j) <==>
      !Zero(Combine(op, a[i].bits, b[j].bits)) || Emits(op, a, i + 1, b, j + 1)
  {
    hide Combine, Eval;
  }

  lemma EmptyValue()
    ensures Canonical([]) && Members([]) == {}
  {
  }

  lemma DisjointSets(x: set<nat>, y: set<nat>)
    ensures x - y == x <==> x * y == {}
    ensures x + y == x <==> y - x == {}
  {
    if x - y == x { assert forall e :: e in x * y ==> e in x - y; assert x * y == {}; }
    if x * y == {} {
      assert forall e :: e in x && e in y ==> e in x * y;
      assert x - y == x;
    }
    if x + y == x { assert forall e :: e in y ==> e in x + y; assert y - x == {}; }
    if y - x == {} {
      assert forall e :: e in y && e !in x ==> e in y - x;
      assert x + y == x;
    }
  }

  lemma SameAs(v: seq<Elt>, w: seq<Elt>)
    requires Canonical(v) && Canonical(w)
    ensures v == w <==> Members(v) == Members(w)
  {
    if Members(v) == Members(w) {
      CanonicalUnique(v, w);
    }
  }

  lemma MergeSame(op: Op, a: seq<Elt>, b: seq<Elt>, w: seq<Elt>)
    requires Canonical(a) && Canonical(b) && Canonical(w)
    ensures Merge(op, a, 0, b, 0) == w <==> SetOp(op, Members(a), Members(b)) == Members(w)
  {
    hide Merge;
    MergeMembers(op, a, b);
    SameAs(Merge(op, a, 0, b, 0), w);
  }

  /** A \ B differs from A exactly when A and B meet; A | B differs from A exactly when B reaches outside A. */
  lemma ChangesWhen(a: seq<Elt>, b: seq<Elt>)
    requires Canonical(a) && Canonical(b)
    ensures Merge(AndNot, a, 0, b, 0) != a <==> Emits(And, a, 0, b, 0)
    ensures Merge(Or, a, 0, b, 0) != a <==> Emits(NotAnd, a, 0, b, 0)
  {
    hide Merge, Members, Canonical;
    MergeSame(AndNot, a, b, a);
    MergeSame(Or, a, b, a);
    EmptyValue();
    MergeSame(And, a, b, []);
    MergeSame(NotAnd, a, b, []);
    DisjointSets(Members(a), Members(b));
  }

  lemma OrSameBits(x: Bits, y: Bits)
    ensures Combine(Or, x, y) == x <==> Zero(Combine(NotAnd, x, y))
  {
    hide Apply;
    OrSame(x[0], y[0]);
    OrSame(x[1], y[1]);
    var c, d := Combine(Or, x, y), Combine(NotAnd, x, y);
    assert c == [c[0], c[1]] && d == [d[0], d[1]] && x == [x[0], x[1]];
  }
}
