/** Reading the node graph back (gspin-io.c). The file is mapped at mem_seg, and its offsets are turned
    into addresses in place. */
module GspinRead {
  import opened Mempools
  import opened GspinNodes

  const NO_SECTION: int := -1

  ghost function SegSize(table: seq<nat>, seg: seq<nat>, o: nat): nat {
    if o < |seg| then NodeSize(table, Code(seg[o])) else 0
  }

  /** Operand j of the node at o leads into the file. */
  ghost predicate KidBound(seg: seq<nat>, o: nat, j: nat) {
    WholeWord(seg, KidAt(o, j)) && seg[KidAt(o, j)] < |seg|
  }

  /** The node at o is in the file, and so is what its operands lead to. */
  ghost predicate NodeBound(table: seq<nat>, seg: seq<nat>, o: nat) {
    && 0 < SegSize(table, seg, o) && o + SegSize(table, seg, o) <= |seg|
    && (forall j: nat :: j < Arity(table, Code(seg[o])) ==> KidBound(seg, o, j))
    && (Code(seg[o]) == IB_STRING ==> WholeWord(seg, o + WORD))
  }

  /** The node at o in a file whose nodes end at end, and the padding behind it. */
  ghost predicate SegStep(table: seq<nat>, seg: seq<nat>, starts: seq<nat>, end: nat, k: nat)
    requires k < |starts|
  {
    var o, n := starts[k], SegSize(table, seg, starts[k]);
    && o % WORD == 0 && o + n <= Next(starts, k, end) <= end <= |seg| && SegGap(seg, o + n, Next(starts, k, end))
    && (k + 1 < |starts| ==> starts[k + 1] < end) && (k + 1 == |starts| ==> o + n == end)
    && NodeBound(table, seg, o) && (Code(seg[o]) == IB_STRING ==> end <= seg[o + WORD])
  }

  ghost predicate Readable(table: seq<nat>, seg: seq<nat>, starts: seq<nat>, end: nat) {
    starts != [] && starts[0] == 0 && forall k: nat :: k < |starts| ==> SegStep(table, seg, starts, end, k)
  }

  ghost predicate StringNode(seg: seq<nat>, starts: seq<nat>, k: nat) {
    k < |starts| && starts[k] < |seg| && Code(seg[starts[k]]) == IB_STRING
  }

  ghost predicate NoStringBefore(seg: seq<nat>, starts: seq<nat>, k: nat) {
    forall l: nat :: l < k ==> !StringNode(seg, starts, l)
  }

  /** Where gs_read takes the strings to begin, once it has read k nodes. */
  ghost function SectionAt(seg: seq<nat>, starts: seq<nat>, k: nat): int
    requires k <= |starts|
  {
    if k == 0 then NO_SECTION
    else if SectionAt(seg, starts, k - 1) == NO_SECTION && StringNode(seg, starts, k - 1) &&
      starts[k - 1] + WORD < |seg|
      then seg[starts[k - 1] + WORD]
    else SectionAt(seg, starts, k - 1)
  }

  ghost predicate StringInside(seg: seq<nat>, o: nat) {
    o < |seg| && Code(seg[o]) == IB_STRING ==> o + WORD < |seg| && seg[o + WORD] < |seg|
  }

  /** No string begins at the end of the file, as an empty one might. */
  ghost predicate StringsInside(seg: seq<nat>, starts: seq<nat>) {
    forall k: nat :: k < |starts| ==> StringInside(seg, starts[k])
  }

  function Relocated(v: nat, base: nat): nat {
    if v == 0 then NULL else base + v
  }

  ghost predicate KidRead(seg: seq<nat>, cur: seq<nat>, base: nat, o: nat, j: nat) {
    KidAt(o, j) < |seg| && |cur| == |seg| && cur[KidAt(o, j)] == Relocated(seg[KidAt(o, j)], base)
  }

  /** The node at o after gs_read. */
  ghost predicate NodeRead(table: seq<nat>, seg: seq<nat>, cur: seq<nat>, base: nat, o: nat) {
    var n := SegSize(table, seg, o);
    && |cur| == |seg| && 0 < n && o + n <= |seg| && cur[o] == seg[o]
    && if Arity(table, Code(seg[o])) > 0 then
         forall j: nat :: j < Arity(table, Code(seg[o])) ==> KidRead(seg, cur, base, o, j)
       else if Code(seg[o]) == IB_STRING then cur[o + WORD] == base + seg[o + WORD]
       else forall y :: o <= y < o + n ==> cur[y] == seg[y]
  }

  ghost predicate Outside(seg: seq<nat>, cur: seq<nat>, i: nat, j: nat) {
    |cur| == |seg| && forall y :: 0 <= y < |seg| && !(i <= y < j) ==> cur[y] == seg[y]
  }

  lemma NodeReadKept(table: seq<nat>, seg: seq<nat>, cur: seq<nat>, cur1: seq<nat>, base: nat, o: nat, i: nat, j: nat)
    requires NodeRead(table, seg, cur, base, o) && Outside(cur, cur1, i, j) && o + SegSize(table, seg, o) <= i
    ensures NodeRead(table, seg, cur1, base, o)
  {
    forall l: nat | Arity(table, Code(seg[o])) > 0 && l < Arity(table, Code(seg[o]))
      ensures KidRead(seg, cur1, base, o, l)
    {
      KidInside(table, Code(seg[o]), l);
      assert KidRead(seg, cur, base, o, l);
    }
  }

  /** Whether gs_read looks at cell p. */
  predicate Goes(seg: seq<nat>, section: int, p: nat) {
    p < |seg| && (section == NO_SECTION || p < section)
  }

  /** Where the loop over padding ends. */
  function Skip(seg: seq<nat>, section: int, p: nat): (q: nat)
    ensures p <= q && (q - p) % WORD == 0
    ensures Goes(seg, section, q) ==> Code(seg[q]) != DOT
    decreases |seg| - p
  {
    if Goes(seg, section, p) && Code(seg[p]) == DOT then Skip(seg, section, p + WORD) else p
  }

  ghost predicate NullAt(seg: seq<nat>, x: nat) {
    WordAt(seg, x) == NULL
  }

  /** The cells at p, taken for a node, have nothing in the file that gs_read would change: the code of a leaf,
      of a node all of whose operands are NULL, or of a string whose pointer lies behind the end of the file. */
  ghost predicate Idle(table: seq<nat>, seg: seq<nat>, p: nat) {
    && NodeSize(table, Code(ByteAt(seg, p))) > 0
    && (Code(ByteAt(seg, p)) == IB_STRING ==> |seg| <= p + WORD)
    && forall j: nat :: j < Arity(table, Code(ByteAt(seg, p))) ==> NullAt(seg, KidAt(p, j))
  }

  /** From p on gs_read comes to its end without changing anything: it only meets padding and idle cells. */
  ghost predicate Passes(table: seq<nat>, seg: seq<nat>, section: int, p: nat)
    decreases |seg| - p
  {
    if !Goes(seg, section, p) then true
    else if Code(seg[p]) == DOT then Passes(table, seg, section, p + WORD)
    else Idle(table, seg, p) && Passes(table, seg, section, p + NodeSize(table, Code(seg[p])))
  }

  lemma {:induction false} SkipPasses(table: seq<nat>, seg: seq<nat>, section: int, p: nat)
    ensures Passes(table, seg, section, Skip(seg, section, p)) <==> Passes(table, seg, section, p)
    decreases |seg| - p
  {
    if Goes(seg, section, p) && Code(seg[p]) == DOT { SkipPasses(table, seg, section, p + WORD); }
  }

  /** The same cells from p on are skipped the same. */
  lemma {:induction false} SkipSame(seg: seq<nat>, cur: seq<nat>, section: int, p: nat)
    requires |cur| == |seg| && forall y :: p <= y < |seg| ==> cur[y] == seg[y]
    ensures Skip(cur, section, p) == Skip(seg, section, p)
    decreases |seg| - p
  {
    if Goes(seg, section, p) && Code(seg[p]) == DOT { SkipSame(seg, cur, section, p + WORD); }
  }

  /** Padding up to stop, and no more, or the strings begin there. */
  lemma {:induction false} SkipTo(seg: seq<nat>, section: int, p: nat, stop: nat)
    requires p <= stop <= |seg| && (stop - p) % WORD == 0 && (section == NO_SECTION || section >= stop)
    requires forall x: nat :: p <= x < stop && (x - p) % WORD == 0 ==> Code(seg[x]) == DOT
    requires stop < |seg| ==> Code(seg[stop]) != DOT
    ensures Skip(seg, section, p) == stop
    decreases stop - p
  {
    if p < stop { SkipTo(seg, section, p + WORD, stop); }
  }

  /** Put the word v at x. */
  function SetWord(seg: seq<nat>, x: nat, v: nat): (out: seq<nat>)
    requires x < |seg|
    ensures |out| == |seg| && out[x] == v && Outside(seg, out, x, x + WORD)
  {
    seq(|seg|, y requires 0 <= y < |seg| => if y == x then v else if x < y < x + WORD then 0 else seg[y])
  }

  lemma SameWord(seg: seq<nat>, cur: seq<nat>, x: nat)
    requires |cur| == |seg| && forall y :: x <= y < |seg| ==> cur[y] == seg[y]
    ensures WordAt(cur, x) == WordAt(seg, x)
  {
  }

  lemma WordChanges(seg: seq<nat>, x: nat, base: nat)
    requires x < |seg| && base > 0
    ensures seg[x] < base + WordAt(seg, x)
  {
  }

  lemma Whole(seg: seq<nat>, x: nat)
    requires WholeWord(seg, x)
    ensures WordAt(seg, x) == seg[x]
  {
  }

  /** One more operand is done. */
  lemma OneKid(seg: seq<nat>, was: seq<nat>, cur: seq<nat>, base: nat, p: nat, j: nat)
    requires base > 0 && Outside(seg, was, p + 1, KidAt(p, j))
    requires forall l: nat :: l < j && KidBound(seg, p, l) ==> KidRead(seg, was, base, p, l)
    requires was == seg <==> forall l: nat :: l < j ==> NullAt(seg, KidAt(p, l))
    requires if NullAt(seg, KidAt(p, j)) then cur == was
             else KidAt(p, j) < |seg| && cur == SetWord(was, KidAt(p, j), base + WordAt(seg, KidAt(p, j)))
    ensures Outside(seg, cur, p + 1, KidAt(p, j + 1))
    ensures forall l: nat :: l < j + 1 && KidBound(seg, p, l) ==> KidRead(seg, cur, base, p, l)
    ensures cur == seg <==> forall l: nat :: l < j + 1 ==> NullAt(seg, KidAt(p, l))
  {
    var x := KidAt(p, j);
    hide WordAt;
    forall l: nat | l < j + 1 && KidBound(seg, p, l) ensures KidRead(seg, cur, base, p, l) {
      if l == j { Whole(seg, x); } else { assert KidRead(seg, was, base, p, l); }
    }
    if !NullAt(seg, x) { WordChanges(seg, x, base); }
  }

  /** Turn the offsets in the operands of the node at p into addresses. ok is false where one is not in the file. */
  method ReadKids(table: seq<nat>, seg: seq<nat>, base: nat, p: nat) returns (ok: bool, cur: seq<nat>)
    requires p < |seg| && base > 0
    ensures Outside(seg, cur, p + 1, KidAt(p, Arity(table, Code(seg[p]))))
    ensures (forall j: nat :: j < Arity(table, Code(seg[p])) ==> KidBound(seg, p, j)) ==>
      ok && forall j: nat :: j < Arity(table, Code(seg[p])) ==> KidRead(seg, cur, base, p, j)
    ensures ok && cur == seg <==> forall j: nat :: j < Arity(table, Code(seg[p])) ==> NullAt(seg, KidAt(p, j))
  {
    cur, ok := seg, true;
    var j: nat := 0;
    while j < Arity(table, Code(cur[p]))
      invariant ok && j <= Arity(table, Code(seg[p])) && Outside(seg, cur, p + 1, KidAt(p, j))
      invariant forall l: nat :: l < j && KidBound(seg, p, l) ==> KidRead(seg, cur, base, p, l)
      invariant cur == seg <==> forall l: nat :: l < j ==> NullAt(seg, KidAt(p, l))
    {
      var x := KidAt(p, j);
      var w := WordAt(cur, x);
      SameWord(seg, cur, x);
      if w != NULL && w >= |cur| {
        ok := false;
        assert !NullAt(seg, x);
        if KidBound(seg, p, j) { Whole(seg, x); }
        return;
      }
      ghost var was := cur;
      if w != NULL {
        cur := SetWord(cur, x, base + w);
      }
      OneKid(seg, was, cur, base, p, j);
      j := j + 1;
    }
  }

  /** One node of the file: turn its offsets into addresses, and note where the strings begin. */
  method ReadNode(table: seq<nat>, seg: seq<nat>, base: nat, p: nat, section0: int)
    returns (ok: bool, cur: seq<nat>, section: int)
    requires Table(table) && p < |seg| && base > 0
    ensures Outside(seg, cur, p + 1, p + NodeSize(table, Code(seg[p])))
    ensures NodeBound(table, seg, p) && (Code(seg[p]) == IB_STRING ==> seg[p + WORD] < |seg|) ==>
      ok && NodeRead(table, seg, cur, base, p)
    ensures section == if Code(seg[p]) == IB_STRING && section0 == NO_SECTION then WordAt(seg, p + WORD) else section0
    ensures ok && Code(seg[p]) == IB_STRING ==> WordAt(seg, p + WORD) < |seg|
    ensures ok ==> NodeSize(table, Code(seg[p])) > 0
    ensures ok && cur == seg <==> Idle(table, seg, p)
  {
    ok, cur, section := true, seg, section0;
    if Arity(table, Code(seg[p])) > 0 {
      ok, cur := ReadKids(table, seg, base, p);
    } else if Code(seg[p]) == IB_STRING {
      var w := WordAt(seg, p + WORD);
      if section == NO_SECTION {
        section := w;
      }
      ok := w < |seg|;
      if ok && p + WORD < |seg| {
        WordChanges(seg, p + WORD, base);
        cur := SetWord(cur, p + WORD, base + w);
      }
    }
    ok := ok && NodeSize(table, Code(seg[p])) > 0;
  }

  /** Past the padding. */
  method SkipDots(cur: seq<nat>, section: int, p0: nat) returns (p: nat)
    ensures p == Skip(cur, section, p0)
  {
    p := p0;
    while p < |cur| && (section == NO_SECTION || p < section) && Code(cur[p]) == DOT
      invariant Skip(cur, section, p) == Skip(cur, section, p0)
      decreases |cur| - p
    {
      p := p + WORD;
    }
  }

  ghost predicate Same(seg: seq<nat>, cur: seq<nat>, i: nat) {
    |cur| == |seg| && forall y :: i <= y < |seg| ==> cur[y] == seg[y]
  }

  /** gs_read so far: all nodes before the k-th are read, and nothing from p on is touched yet. */
  ghost predicate Progress(table: seq<nat>, seg: seq<nat>, cur: seq<nat>, base: nat, starts: seq<nat>, k: nat, p: nat)
    requires k <= |starts|
  {
    && Same(seg, cur, p) && forall l: nat :: l < k ==> NodeRead(table, seg, cur, base, starts[l])
  }

  /** Behind the nodes, gs_read at p has changed nothing there and will not just if it passes from end on. */
  ghost predicate Behind(table: seq<nat>, seg: seq<nat>, cur: seq<nat>, end: nat, first: int, section: int, p: nat) {
    && end <= p && (Goes(seg, section, p) ==> Code(seg[p]) != DOT)
    && (Passes(table, seg, first, end) <==> Same(seg, cur, end) && Passes(table, seg, section, p))
  }

  /** gs_read before cell p, having come through k nodes, and the strings begin at section as far as it knows. */
  ghost predicate Reading(table: seq<nat>, seg: seq<nat>, cur: seq<nat>, base: nat, starts: seq<nat>, end: nat, k: nat,
                          section: int, p: nat) {
    && k <= |starts| && Progress(table, seg, cur, base, starts, k, p)
    && (forall l: nat :: l < k ==> StringInside(seg, starts[l]))
    && if k < |starts| then p == starts[k] && section == SectionAt(seg, starts, k)
       else Behind(table, seg, cur, end, SectionAt(seg, starts, |starts|), section, p)
  }

  lemma ReadStart(table: seq<nat>, seg: seq<nat>, base: nat, starts: seq<nat>, end: nat)
    requires Readable(table, seg, starts, end)
    ensures starts != [] && starts[0] == 0 && 0 < end <= |seg| && end % WORD == 0
    ensures Reading(table, seg, seg, base, starts, end, 0, NO_SECTION, 0)
  {
    assert SegStep(table, seg, starts, end, 0);
    assert SegStep(table, seg, starts, end, |starts| - 1);
  }

  lemma StepFacts(table: seq<nat>, seg: seq<nat>, starts: seq<nat>, end: nat, k: nat)
    requires Readable(table, seg, starts, end) && k < |starts|
    ensures SegStep(table, seg, starts, end, k) && starts[k] < |seg|
    ensures starts[k] + SegSize(table, seg, starts[k]) <= Next(starts, k, end) <= end <= |seg|
    ensures 0 < SegSize(table, seg, starts[k]) && (k + 1 < |starts| ==> starts[k + 1] < end)
  {
  }

  lemma {:induction false} Ordered(table: seq<nat>, seg: seq<nat>, starts: seq<nat>, end: nat, l: nat, k: nat)
    requires Readable(table, seg, starts, end) && l < k < |starts|
    ensures Next(starts, l, end) <= starts[k]
  {
    if l + 1 < k {
      StepFacts(table, seg, starts, end, k - 1);
      Ordered(table, seg, starts, end, l, k - 1);
    }
  }

  /** The strings begin behind the nodes. */
  lemma {:induction false} SectionBehind(table: seq<nat>, seg: seq<nat>, starts: seq<nat>, end: nat, k: nat)
    requires Readable(table, seg, starts, end) && k <= |starts|
    ensures SectionAt(seg, starts, k) == NO_SECTION || SectionAt(seg, starts, k) >= end
  {
    if k > 0 {
      SectionBehind(table, seg, starts, end, k - 1);
      StepFacts(table, seg, starts, end, k - 1);
    }
  }

  /** The strings are taken to begin at the string of the first string node. */
  lemma {:induction false} SectionFirst(table: seq<nat>, seg: seq<nat>, starts: seq<nat>, end: nat, k: nat, l: nat)
    requires Readable(table, seg, starts, end) && k <= |starts|
    ensures SectionAt(seg, starts, k) == NO_SECTION <==> NoStringBefore(seg, starts, k)
    ensures l < k && StringNode(seg, starts, l) && NoStringBefore(seg, starts, l) ==>
      starts[l] + WORD < |seg| && SectionAt(seg, starts, k) == seg[starts[l] + WORD]
  {
    if k > 0 {
      SectionFirst(table, seg, starts, end, k - 1, l);
      StepFacts(table, seg, starts, end, k - 1);
    }
  }

  lemma StillRead(table: seq<nat>, seg: seq<nat>, was: seq<nat>, cur: seq<nat>, base: nat, starts: seq<nat>, end: nat,
                  p: nat, n: nat)
    requires Readable(table, seg, starts, end) && Progress(table, seg, was, base, starts, |starts|, p) && end <= p
    requires Outside(was, cur, p + 1, p + n)
    ensures Progress(table, seg, cur, base, starts, |starts|, p + n)
  {
    hide NodeRead, SegSize, SegStep, Readable;
    forall l: nat | l < |starts| ensures NodeRead(table, seg, cur, base, starts[l]) {
      StepFacts(table, seg, starts, end, l);
      NodeReadKept(table, seg, was, cur, base, starts[l], p + 1, p + n);
    }
  }

  /** What gs_read meets at p is still as it is in the file. */
  lemma SameNode(table: seq<nat>, seg: seq<nat>, cur: seq<nat>, p: nat)
    requires Same(seg, cur, p) && p < |seg|
    ensures cur[p] == seg[p] && WordAt(cur, p + WORD) == WordAt(seg, p + WORD)
    ensures NodeBound(table, cur, p) <==> NodeBound(table, seg, p)
    ensures Idle(table, cur, p) <==> Idle(table, seg, p)
  {
    hide WordAt;
    forall j: nat ensures NullAt(cur, KidAt(p, j)) <==> NullAt(seg, KidAt(p, j)) {
      SameWord(seg, cur, KidAt(p, j));
    }
    forall j: nat ensures KidBound(cur, p, j) <==> KidBound(seg, p, j) {
    }
    SameWord(seg, cur, p + WORD);
  }

  lemma FromHere(table: seq<nat>, seg: seq<nat>, was: seq<nat>, cur: seq<nat>, base: nat, o: nat)
    requires NodeRead(table, was, cur, base, o) && Same(seg, was, o)
    ensures NodeRead(table, seg, cur, base, o)
  {
    forall j: nat | Arity(table, Code(was[o])) > 0 && j < Arity(table, Code(was[o]))
      ensures KidRead(seg, cur, base, o, j)
    {
      assert KidRead(was, cur, base, o, j);
    }
  }

  lemma NotPadding(table: seq<nat>, w: nat)
    requires Table(table) && 0 < NodeSize(table, Code(w))
    ensures Code(w) != DOT
  {
    assert NodeSize(table, DOT) == 0;
  }

  /** Where the loop over padding ends behind node k. */
  lemma SkipHere(table: seq<nat>, seg: seq<nat>, starts: seq<nat>, end: nat, k: nat, section: int)
    requires Table(table) && Readable(table, seg, starts, end) && k + 1 < |starts|
    requires section == NO_SECTION || section >= end
    ensures Skip(seg, section, starts[k] + SegSize(table, seg, starts[k])) == starts[k + 1]
  {
    hide KidBound, NodeSize;
    assert SegStep(table, seg, starts, end, k) && SegStep(table, seg, starts, end, k + 1);
    NotPadding(table, seg[starts[k + 1]]);
    SkipTo(seg, section, starts[k] + SegSize(table, seg, starts[k]), starts[k + 1]);
  }

  /** gs_read takes the cells at p for a node. */
  lemma BehindStep(table: seq<nat>, seg: seq<nat>, was: seq<nat>, cur: seq<nat>, end: nat, first: int, section0: int,
                   section: int, p: nat, n: nat, ok: bool)
    requires Behind(table, seg, was, end, first, section0, p) && Goes(seg, section0, p) && Same(seg, was, p)
    requires n == NodeSize(table, Code(seg[p])) && Outside(was, cur, p + 1, p + n)
    requires ok && cur == was <==> Idle(table, seg, p)
    requires section == if Code(seg[p]) == IB_STRING && section0 == NO_SECTION then WordAt(seg, p + WORD) else section0
    ensures Passes(table, seg, first, end) <==> ok && Same(seg, cur, end) && Passes(table, seg, section, p + n)
    ensures ok && n > 0 ==> Behind(table, seg, cur, end, first, section, Skip(seg, section, p + n))
  {
    hide WordAt, NodeSize;
    if ok && cur != was {
      var y :| p < y < p + n && y < |seg| && cur[y] != was[y];
      assert !Same(seg, cur, end);
    }
    if Idle(table, seg, p) && section != section0 {
      assert !Goes(seg, section, p + n) && !Goes(seg, section0, p + n);
      assert Passes(table, seg, section, p + n) && Passes(table, seg, section0, p + n);
    }
    assert Passes(table, seg, section0, p) <==> Idle(table, seg, p) && Passes(table, seg, section0, p + n);
    if ok && n > 0 { SkipPasses(table, seg, section, p + n); }
  }

  lemma AtEnd(table: seq<nat>, seg: seq<nat>, cur: seq<nat>, end: nat, first: int)
    requires Same(seg, cur, end)
    ensures Behind(table, seg, cur, end, first, first, Skip(seg, first, end))
  {
    SkipPasses(table, seg, first, end);
  }

  /** gs_read has come to node k. */
  lemma NodeStep(table: seq<nat>, seg: seq<nat>, was: seq<nat>, cur: seq<nat>, base: nat, starts: seq<nat>, end: nat,
                 k: nat, section: int, ok: bool)
    requires Table(table) && Readable(table, seg, starts, end) && k < |starts|
    requires Progress(table, seg, was, base, starts, k, starts[k])
    requires NodeBound(table, seg, starts[k]) && StringInside(seg, starts[k]) ==>
      ok && NodeRead(table, was, cur, base, starts[k])
    requires Outside(was, cur, starts[k] + 1, starts[k] + SegSize(table, seg, starts[k])) && starts[k] < |seg|
    requires ok && Code(seg[starts[k]]) == IB_STRING ==> WordAt(seg, starts[k] + WORD) < |seg|
    requires section ==
      if Code(seg[starts[k]]) == IB_STRING && SectionAt(seg, starts, k) == NO_SECTION then WordAt(seg, starts[k] + WORD)
      else SectionAt(seg, starts, k)
    ensures ok <==> StringInside(seg, starts[k])
    ensures
      var p := starts[k] + SegSize(table, seg, starts[k]);
      ok ==>
        && section == SectionAt(seg, starts, k + 1)
        && Progress(table, seg, cur, base, starts, k + 1, p)
        && (k + 1 < |starts| ==> Skip(seg, section, p) == starts[k + 1])
        && (k + 1 == |starts| ==> Behind(table, seg, cur, end, section, section, Skip(seg, section, p)))
  {
    hide NodeSize, NodeRead, Behind, Passes, Skip, WordAt;
    StepFacts(table, seg, starts, end, k);
    var n := SegSize(table, seg, starts[k]);
    if Code(seg[starts[k]]) == IB_STRING { Whole(seg, starts[k] + WORD); }
    if ok {
      FromHere(table, seg, was, cur, base, starts[k]);
      forall l: nat | l < k ensures NodeRead(table, seg, cur, base, starts[l]) {
        Ordered(table, seg, starts, end, l, k);
        StepFacts(table, seg, starts, end, l);
        NodeReadKept(table, seg, was, cur, base, starts[l], starts[k] + 1, starts[k] + n);
      }
      SectionBehind(table, seg, starts, end, k + 1);
      if k + 1 < |starts| {
        SkipHere(table, seg, starts, end, k, section);
      } else {
        AtEnd(table, seg, cur, end, section);
      }
    }
  }

  function Count(starts: seq<nat>, k: nat): nat {
    if k < |starts| then k + 1 else k
  }

  lemma ReadingStep(table: seq<nat>, seg: seq<nat>, was: seq<nat>, cur: seq<nat>, base: nat, starts: seq<nat>, end: nat,
                    k: nat, section0: int, section: int, p: nat, ok: bool)
    requires Table(table) && Readable(table, seg, starts, end) && Goes(seg, section0, p)
    requires Reading(table, seg, was, base, starts, end, k, section0, p)
    requires Outside(was, cur, p + 1, p + NodeSize(table, Code(was[p])))
    requires NodeBound(table, was, p) && (Code(was[p]) == IB_STRING ==> was[p + WORD] < |was|) ==>
      ok && NodeRead(table, was, cur, base, p)
    requires section == if Code(was[p]) == IB_STRING && section0 == NO_SECTION then WordAt(was, p + WORD) else section0
    requires ok && Code(was[p]) == IB_STRING ==> WordAt(was, p + WORD) < |was|
    requires ok ==> NodeSize(table, Code(was[p])) > 0
    requires ok && cur == was <==> Idle(table, was, p)
    ensures !ok ==>
      !(Passes(table, seg, SectionAt(seg, starts, |starts|), end) && StringsInside(seg, starts))
    ensures
      var n := NodeSize(table, Code(was[p]));
      ok ==>
        cur[p] == was[p] &&
        Reading(table, seg, cur, base, starts, end, Count(starts, k), section, Skip(cur, section, p + n))
  {
    hide NodeRead, NodeBound, NodeSize, Readable, SegStep, Passes, Skip, SectionAt, Idle, WordAt;
    SameNode(table, seg, was, p);
    var n := NodeSize(table, Code(was[p]));
    SkipSame(seg, cur, section, p + n);
    if k < |starts| {
      NodeStep(table, seg, was, cur, base, starts, end, k, section, ok);
    } else {
      BehindStep(table, seg, was, cur, end, SectionAt(seg, starts, |starts|), section0, section, p, n, ok);
      StillRead(table, seg, was, cur, base, starts, end, p, n);
    }
  }

  /** The loop of gs_read ends behind the nodes. */
  lemma ReadingDone(table: seq<nat>, seg: seq<nat>, cur: seq<nat>, base: nat, starts: seq<nat>, end: nat, k: nat,
                    section: int, p: nat)
    requires Readable(table, seg, starts, end) && !Goes(seg, section, p)
    requires Reading(table, seg, cur, base, starts, end, k, section, p)
    ensures forall l: nat :: l < |starts| ==> NodeRead(table, seg, cur, base, starts[l])
    ensures StringsInside(seg, starts)
    ensures Same(seg, cur, end) <==>
      Passes(table, seg, SectionAt(seg, starts, |starts|), end) && StringsInside(seg, starts)
  {
    hide NodeRead, NodeBound, NodeSize;
    if k < |starts| {
      StepFacts(table, seg, starts, end, k);
      SectionBehind(table, seg, starts, end, k);
    }
  }

  /** gs_read. ok is false where it gives up: at an offset that is not in the file, or a code that no node has. */
  method Read(table: seq<nat>, seg: seq<nat>, base: nat, ghost starts: seq<nat>, ghost end: nat)
    returns (ok: bool, cur: seq<nat>)
    requires Table(table) && Readable(table, seg, starts, end) && base > 0
    ensures |cur| == |seg| && (ok ==> forall k: nat :: k < |starts| ==> NodeRead(table, seg, cur, base, starts[k]))
    ensures ok ==> StringsInside(seg, starts)
    ensures ok && Same(seg, cur, end) <==>
      Passes(table, seg, SectionAt(seg, starts, |starts|), end) && StringsInside(seg, starts)
  {
    hide NodeRead, NodeBound, NodeSize, Readable, SegStep, Outside, Behind, Passes, Skip, SectionAt, Idle, WordAt,
      Reading;
    ok, cur := true, seg;
    var p: nat := 0;
    var section := NO_SECTION;
    ghost var k: nat := 0;
    ReadStart(table, seg, base, starts, end);
    while p < |cur| && (section == NO_SECTION || p < section)
      invariant ok && |cur| == |seg| && Reading(table, seg, cur, base, starts, end, k, section, p)
      decreases |seg| - p
    {
      ghost var was, section0 := cur, section;
      ok, cur, section := ReadNode(table, cur, base, p, section);
      ReadingStep(table, seg, was, cur, base, starts, end, k, section0, section, p, ok);
      if !ok {
        return;
      }
      k := Count(starts, k);
      p := SkipDots(cur, section, p + NodeSize(table, Code(cur[p])));
    }
    ReadingDone(table, seg, cur, base, starts, end, k, section, p);
  }

  /** From p up to the strings there is only padding. */
  ghost predicate OnlyPadding(seg: seq<nat>, section: int, p: nat) {
    forall x: nat :: p <= x && x % WORD == 0 && Goes(seg, section, x) ==> Code(seg[x]) == DOT
  }

  /** gs_read takes nothing behind the nodes for a node exactly if there is only padding up to the string of the
      first string node; then it comes to its end there. */
  lemma {:induction false} ReaderStops(table: seq<nat>, seg: seq<nat>, section: int, p: nat)
    requires p % WORD == 0
    ensures !Goes(seg, section, Skip(seg, section, p)) <==> OnlyPadding(seg, section, p)
    ensures OnlyPadding(seg, section, p) ==> Passes(table, seg, section, p)
    decreases |seg| - p
  {
    if Goes(seg, section, p) && Code(seg[p]) == DOT {
      ReaderStops(table, seg, section, p + WORD);
      forall x: nat | p <= x && x % WORD == 0 && Goes(seg, section, x) && OnlyPadding(seg, section, p + WORD)
        ensures Code(seg[x]) == DOT
      {
        assert x == p || p + WORD <= x;
      }
    }
  }

  /** What is taken for a string node gets its pointer changed. */
  lemma NotPast(table: seq<nat>, seg: seq<nat>, section: int, p: nat)
    requires p % WORD == 0 && Goes(seg, section, p) && Code(seg[p]) == IB_STRING && p + WORD < |seg|
    ensures !OnlyPadding(seg, section, p) && !Passes(table, seg, section, p)
  {
  }

  lemma StringHead(table: seq<nat>, w: nat)
    requires Table(table) && Code(w) == IB_STRING
    ensures NodeSize(table, Code(w)) == 2 * WORD && Arity(table, Code(w)) == 0
  {
  }

  /** A file of two string nodes and the bytes of their strings. */
  function TwoStrings(w: nat, u: nat, w1: nat, u1: nat, bytes: seq<nat>): seq<nat> {
    [w, 0, 0, 0, u, 0, 0, 0, w1, 0, 0, 0, u1, 0, 0, 0] + bytes
  }

  lemma TwoStringsReadable(table: seq<nat>, w: nat, u: nat, w1: nat, u1: nat, bytes: seq<nat>)
    requires Table(table) && Code(w) == Code(w1) == IB_STRING
    requires 16 <= u < 16 + |bytes| && 16 <= u1 < 16 + |bytes|
    ensures var seg := TwoStrings(w, u, w1, u1, bytes);
      Readable(table, seg, [0, 8], 16) && StringsInside(seg, [0, 8]) && SectionAt(seg, [0, 8], 2) == u
  {
    hide NodeSize, Arity;
    var seg := TwoStrings(w, u, w1, u1, bytes);
    StringHead(table, w);
    StringHead(table, w1);
    assert SegStep(table, seg, [0, 8], 16, 0) && SegStep(table, seg, [0, 8], 16, 1);
    assert SectionAt(seg, [0, 8], 1) == u;
  }

  /** Two string nodes, the second of which was given its string first: what lies before the other string is taken
      for a node. Its code is that of a string, and there is no string where it points. */
  lemma StringsOutOfOrder(table: seq<nat>)
    requires Table(table)
    ensures
      var seg := TwoStrings(IB_STRING + 512, 24, IB_STRING + 8 * 512, 16, [IB_STRING, 97, 97, 97, 97, 97, 97, 97, 97]);
      && Readable(table, seg, [0, 8], 16) && StringsInside(seg, [0, 8]) && SectionAt(seg, [0, 8], 2) == 24
      && Code(seg[16]) != DOT && !OnlyPadding(seg, 24, 16) && !Passes(table, seg, 24, 16)
  {
    hide OnlyPadding, Passes, Readable, StringsInside, SectionAt;
    var bytes: seq<nat> := [IB_STRING, 97, 97, 97, 97, 97, 97, 97, 97];
    TwoStringsReadable(table, IB_STRING + 512, 24, IB_STRING + 8 * 512, 16, bytes);
    NotPast(table, TwoStrings(IB_STRING + 512, 24, IB_STRING + 8 * 512, 16, bytes), 24, 16);
  }

  /** The same with an empty C string for the second node: it is skipped like padding. */
  lemma EmptyStringFirst(table: seq<nat>)
    requires Table(table)
    ensures
      var seg := TwoStrings(IB_STRING + 512, 17, IB_STRING + 512, 16, [0, 97]);
      && Readable(table, seg, [0, 8], 16) && StringsInside(seg, [0, 8]) && SectionAt(seg, [0, 8], 2) == 17
      && OnlyPadding(seg, 17, 16) && Passes(table, seg, 17, 16)
  {
    hide Readable, StringsInside, SectionAt;
    var seg := TwoStrings(IB_STRING + 512, 17, IB_STRING + 512, 16, [0, 97]);
    TwoStringsReadable(table, IB_STRING + 512, 17, IB_STRING + 512, 16, [0, 97]);
    assert seg[16] == 0 && forall p: nat :: p > 16 ==> !Goes(seg, 17, p);
  }
}
