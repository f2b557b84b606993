/** The value of a bitmap: the sequence of (index, bits) pairs along its element list, and the set it denotes. */
module Elements {
  import opened Words

  const ELEMENT_WORDS: nat := 2
  const ELEMENT_BITS: nat := 128

  type Bits = s: seq<Word> | |s| == ELEMENT_WORDS witness [0, 0]

  const ZERO_BITS: Bits := [0, 0]

  datatype Elt = Elt(indx: nat, bits: Bits)

  /** bitmap_element_zerop. */
  predicate Zero(bits: Bits) {
    bits == ZERO_BITS
  }

  /** Whether bit number b is set in element e. */
  predicate EltHas(e: Elt, b: nat) {
    b / ELEMENT_BITS == e.indx && Bit(e.bits[b / WORD_BITS % ELEMENT_WORDS], b % WORD_BITS)
  }

  ghost predicate HasFrom(v: seq<Elt>, i: nat, b: nat) {
    exists k :: i <= k < |v| && EltHas(v[k], b)
  }

  ghost predicate Sorted(v: seq<Elt>) {
    forall i, j :: 0 <= i < j < |v| ==> v[i].indx < v[j].indx
  }

  ghost predicate NonZero(v: seq<Elt>) {
    forall i :: 0 <= i < |v| ==> v[i].bits != ZERO_BITS
  }

  ghost predicate Canonical(v: seq<Elt>) {
    Sorted(v) && NonZero(v)
  }

  ghost function EltSet(e: Elt): set<nat> {
    set b | e.indx * ELEMENT_BITS <= b < (e.indx + 1) * ELEMENT_BITS && EltHas(e, b)
  }

  /** The set of naturals that a bitmap value denotes. */
  ghost function Members(v: seq<Elt>): set<nat> {
    if v == [] then {} else EltSet(v[0]) + Members(v[1..])
  }

  lemma {:induction false} MembersHas(v: seq<Elt>, b: nat)
    ensures b in Members(v) <==> HasFrom(v, 0, b)
  {
    if v != [] {
      MembersHas(v[1..], b);
      assert EltHas(v[0], b) ==> v[0].indx * ELEMENT_BITS <= b < (v[0].indx + 1) * ELEMENT_BITS;
      if k :| 0 <= k < |v| && EltHas(v[k], b) {
        assert k > 0 ==> v[1..][k - 1] == v[k];
      }
      if k :| 0 <= k < |v[1..]| && EltHas(v[1..][k], b) {
        assert v[k + 1] == v[1..][k];
      }
    }
  }

  /** Two-word version of a word operation, as the merge loops compute it word by word. */
  function Combine(op: Op, x: Bits, y: Bits): (r: Bits) {
    [Apply(op, x[0], y[0]), Apply(op, x[1], y[1])]
  }

  lemma CombineHas(op: Op, x: Elt, y: Elt, b: nat)
    requires x.indx == y.indx == b / ELEMENT_BITS
    ensures EltHas(Elt(x.indx, Combine(op, x.bits, y.bits)), b) <==> Eval(op, EltHas(x, b), EltHas(y, b))
  {
    var w := b / WORD_BITS % ELEMENT_WORDS;
    ApplyBit(op, x.bits[w], y.bits[w], b % WORD_BITS);
  }

  lemma ZeroHasNothing(e: Elt, b: nat)
    requires e.bits == ZERO_BITS
    ensures !EltHas(e, b)
  {
    ZeroBits(b % WORD_BITS);
  }

  lemma NonZeroHas(e: Elt) returns (b: nat)
    requires e.bits != ZERO_BITS
    ensures EltHas(e, b)
  {
    var w := if e.bits[0] != 0 then 0 else 1;
    var j := SomeBit(e.bits[w]);
    b := e.indx * ELEMENT_BITS + w * WORD_BITS + j;
  }

  // ---- merging two sorted values -------------------------------------------------------------

  function Emit(e: Elt): seq<Elt> {
    if e.bits == ZERO_BITS then [] else [e]
  }

  function Keep(keep: bool, e: Elt): seq<Elt> {
    if keep then [e] else []
  }

  /** Merge of a[i..] and b[j..] by index: matching elements are combined with op. */
  function Merge(op: Op, a: seq<Elt>, i: nat, b: seq<Elt>, j: nat): seq<Elt>
    requires i <= |a| && j <= |b|
    decreases |a| - i + |b| - j
  {
    if i == |a| && j == |b| then []
    else if j == |b| || (i < |a| && a[i].indx < b[j].indx) then
      Keep(Eval(op, true, false), a[i]) + Merge(op, a, i + 1, b, j)
    else if i == |a| || b[j].indx < a[i].indx then
      Keep(Eval(op, false, true), b[j]) + Merge(op, a, i, b, j + 1)
    else
      Emit(Elt(a[i].indx, Combine(op, a[i].bits, b[j].bits))) + Merge(op, a, i + 1, b, j + 1)
  }

  lemma HasConcat(s: seq<Elt>, t: seq<Elt>, x: nat)
    ensures HasFrom(s + t, 0, x) <==> HasFrom(s, 0, x) || HasFrom(t, 0, x)
  {
    if k :| 0 <= k < |s| && EltHas(s[k], x) { assert (s + t)[k] == s[k]; }
    if k :| 0 <= k < |t| && EltHas(t[k], x) { assert (s + t)[|s| + k] == t[k]; }
  }

  lemma HasOne(e: Elt, x: nat)
    ensures HasFrom([e], 0, x) <==> EltHas(e, x)
    ensures HasFrom(Emit(e), 0, x) <==> EltHas(e, x)
  {
    assert [e][0] == e;
    if e.bits == ZERO_BITS {
      ZeroHasNothing(e, x);
    }
  }

  lemma HasStep(v: seq<Elt>, i: nat, x: nat)
    requires i < |v|
    ensures HasFrom(v, i, x) <==> EltHas(v[i], x) || HasFrom(v, i + 1, x)
  {
  }

  /** Past the index of x nothing in a sorted value contains x. */
  lemma HasNotBelow(v: seq<Elt>, i: nat, x: nat)
    requires Sorted(v) && i <= |v| && (i < |v| ==> x / ELEMENT_BITS < v[i].indx)
    ensures !HasFrom(v, i, x)
  {
  }

  /** An index present on one side only: the element is kept or dropped whole. */
  lemma OneSide(keep: bool, v: seq<Elt>, i: nat, other: seq<Elt>, j: nat, rest: seq<Elt>, x: nat)
    requires Sorted(v) && Sorted(other) && i < |v| && j <= |other|
    requires j < |other| ==> v[i].indx < other[j].indx
    ensures HasFrom(Keep(keep, v[i]) + rest, 0, x) <==> (keep && EltHas(v[i], x)) || HasFrom(rest, 0, x)
    ensures HasFrom(v, i, x) <==> EltHas(v[i], x) || HasFrom(v, i + 1, x)
    ensures EltHas(v[i], x) ==> !HasFrom(v, i + 1, x) && !HasFrom(other, j, x)
  {
    HasConcat(Keep(keep, v[i]), rest, x);
    HasOne(v[i], x);
    HasStep(v, i, x);
    if EltHas(v[i], x) {
      HasNotBelow(other, j, x);
      HasNotBelow(v, i + 1, x);
    }
  }

  lemma BothSides(op: Op, a: seq<Elt>, i: nat, b: seq<Elt>, j: nat, rest: seq<Elt>, x: nat)
    requires Sorted(a) && Sorted(b) && i < |a| && j < |b| && a[i].indx == b[j].indx
    requires HasFrom(rest, 0, x) <==> Eval(op, HasFrom(a, i + 1, x), HasFrom(b, j + 1, x))
    ensures HasFrom(Emit(Elt(a[i].indx, Combine(op, a[i].bits, b[j].bits))) + rest, 0, x)
       <==> Eval(op, HasFrom(a, i, x), HasFrom(b, j, x))
  {
    var e := Elt(a[i].indx, Combine(op, a[i].bits, b[j].bits));
    HasConcat(Emit(e), rest, x);
    HasOne(e, x);
    HasStep(a, i, x);
    HasStep(b, j, x);
    if x / ELEMENT_BITS == e.indx {
      CombineHas(op, a[i], b[j], x);
      HasNotBelow(a, i + 1, x);
      HasNotBelow(b, j + 1, x);
    }
  }

  lemma {:induction false} MergeHas(op: Op, a: seq<Elt>, i: nat, b: seq<Elt>, j: nat, x: nat)
    requires i <= |a| && j <= |b| && Sorted(a) && Sorted(b)
    ensures HasFrom(Merge(op, a, i, b, j), 0, x) <==> Eval(op, HasFrom(a, i, x), HasFrom(b, j, x))
    decreases |a| - i + |b| - j
  {
    hide EltHas, Combine, Apply;
    if i == |a| && j == |b| {
    } else if j == |b| || (i < |a| && a[i].indx < b[j].indx) {
      MergeHas(op, a, i + 1, b, j, x);
      OneSide(Eval(op, true, false), a, i, b, j, Merge(op, a, i + 1, b, j), x);
    } else if i == |a| || b[j].indx < a[i].indx {
      MergeHas(op, a, i, b, j + 1, x);
      OneSide(Eval(op, false, true), b, j, a, i, Merge(op, a, i, b, j + 1), x);
    } else {
      MergeHas(op, a, i + 1, b, j + 1, x);
      BothSides(op, a, i, b, j, Merge(op, a, i + 1, b, j + 1), x);
    }
  }

  /** A canonical value all of whose indices are at least lo. */
  ghost predicate CanonicalFrom(v: seq<Elt>, lo: nat) {
    Canonical(v) && forall k :: 0 <= k < |v| ==> lo <= v[k].indx
  }

  lemma CanonicalAt(v: seq<Elt>, i: nat)
    requires Canonical(v) && i < |v|
    ensures v[i].bits != ZERO_BITS && !Zero(v[i].bits)
    ensures i + 1 < |v| ==> v[i].indx + 1 <= v[i + 1].indx
  {
  }

  lemma CanonicalNil(lo: nat)
    ensures CanonicalFrom([], lo)
  {
  }

  lemma CanonicalWeaken(v: seq<Elt>, hi: nat, lo: nat)
    requires CanonicalFrom(v, hi) && lo <= hi
    ensures CanonicalFrom([] + v, lo)
  {
    assert [] + v == v;
  }

  lemma CanonicalCons(e: Elt, v: seq<Elt>, lo: nat)
    requires e.bits != ZERO_BITS && lo <= e.indx && CanonicalFrom(v, e.indx + 1)
    ensures CanonicalFrom([e] + v, lo)
  {
    var r := [e] + v;
    assert forall k :: 1 <= k < |r| ==> r[k] == v[k - 1];
  }

  lemma {:induction false} MergeSorted(op: Op, a: seq<Elt>, i: nat, b: seq<Elt>, j: nat, lo: nat)
    requires i <= |a| && j <= |b| && Canonical(a) && Canonical(b)
    requires (i < |a| ==> lo <= a[i].indx) && (j < |b| ==> lo <= b[j].indx)
    ensures CanonicalFrom(Merge(op, a, i, b, j), lo)
    decreases |a| - i + |b| - j
  {
    hide Combine, Canonical, CanonicalFrom;
    if i < |a| { CanonicalAt(a, i); }
    if j < |b| { CanonicalAt(b, j); }
    if i == |a| && j == |b| {
      CanonicalNil(lo);
    } else if j == |b| || (i < |a| && a[i].indx < b[j].indx) {
      MergeSorted(op, a, i + 1, b, j, a[i].indx + 1);
      CanonicalCons(a[i], Merge(op, a, i + 1, b, j), lo);
      CanonicalWeaken(Merge(op, a, i + 1, b, j), a[i].indx + 1, lo);
    } else if i == |a| || b[j].indx < a[i].indx {
      MergeSorted(op, a, i, b, j + 1, b[j].indx + 1);
      CanonicalCons(b[j], Merge(op, a, i, b, j + 1), lo);
      CanonicalWeaken(Merge(op, a, i, b, j + 1), b[j].indx + 1, lo);
    } else {
      var e := Elt(a[i].indx, Combine(op, a[i].bits, b[j].bits));
      MergeSorted(op, a, i + 1, b, j + 1, e.indx + 1);
      if e.bits != ZERO_BITS {
        CanonicalCons(e, Merge(op, a, i + 1, b, j + 1), lo);
      } else {
        CanonicalWeaken(Merge(op, a, i + 1, b, j + 1), e.indx + 1, lo);
      }
    }
  }

  ghost function SetOp(op: Op, x: set<nat>, y: set<nat>): set<nat> {
    match op
    case And => x * y
    case AndNot => x - y
    case Or => x + y
    case Xor => (x - y) + (y - x)
    case NotAnd => y - x
  }

  /** Merging values is the set operation, and the result is again a canonical value. */
  lemma MergeMembers(op: Op, a: seq<Elt>, b: seq<Elt>)
    requires Canonical(a) && Canonical(b)
    ensures Canonical(Merge(op, a, 0, b, 0))
    ensures Members(Merge(op, a, 0, b, 0)) == SetOp(op, Members(a), Members(b))
  {
    MergeSorted(op, a, 0, b, 0, 0);
    forall x: nat ensures x in Members(Merge(op, a, 0, b, 0)) <==> x in SetOp(op, Members(a), Members(b)) {
      MembersHas(a, x);
      MembersHas(b, x);
      MembersHas(Merge(op, a, 0, b, 0), x);
      MergeHas(op, a, 0, b, 0, x);
    }
  }

  // ---- a canonical value is determined by its set ---------------------------------------------

  lemma EltExtensional(e: Elt, f: Elt)
    requires e.indx == f.indx
    requires forall b: nat | b / ELEMENT_BITS == e.indx :: EltHas(e, b) <==> EltHas(f, b)
    ensures e == f
  {
    forall w: nat | w < ELEMENT_WORDS ensures e.bits[w] == f.bits[w] {
      forall j: nat | j < WORD_BITS ensures Bit(e.bits[w], j) == Bit(f.bits[w], j) {
        var b := e.indx * ELEMENT_BITS + w * WORD_BITS + j;
        assert EltHas(e, b) <==> EltHas(f, b);
      }
      WordExtensional(e.bits[w], f.bits[w]);
    }
  }

  lemma HeadAgrees(v: seq<Elt>, w: seq<Elt>)
    requires Canonical(v) && Canonical(w) && v != [] && w != []
    requires forall x: nat :: HasFrom(v, 0, x) <==> HasFrom(w, 0, x)
    ensures v[0] == w[0]
  {
    var x := NonZeroHas(v[0]);
    var y := NonZeroHas(w[0]);
    assert HasFrom(v, 0, x) && HasFrom(w, 0, y);
    var k :| 0 <= k < |w| && EltHas(w[k], x);
    var l :| 0 <= l < |v| && EltHas(v[l], y);
    assert v[0].indx == w[0].indx;
    forall b: nat | b / ELEMENT_BITS == v[0].indx ensures EltHas(v[0], b) <==> EltHas(w[0], b) {
      HasStep(v, 0, b);
      HasStep(w, 0, b);
      HasNotBelow(v, 1, b);
      HasNotBelow(w, 1, b);
      assert HasFrom(v, 0, b) <==> HasFrom(w, 0, b);
    }
    EltExtensional(v[0], w[0]);
  }

  lemma {:induction false} CanonicalSame(v: seq<Elt>, w: seq<Elt>)
    requires Canonical(v) && Canonical(w)
    requires forall x: nat :: HasFrom(v, 0, x) <==> HasFrom(w, 0, x)
    ensures v == w
    decreases |v|
  {
    if v == [] {
      if w != [] {
        var x := NonZeroHas(w[0]);
        assert HasFrom(w, 0, x);
      }
    } else if w == [] {
      var x := NonZeroHas(v[0]);
      assert HasFrom(v, 0, x);
    } else {
      HeadAgrees(v, w);
      forall x: nat ensures HasFrom(v[1..], 0, x) <==> HasFrom(w[1..], 0, x) {
        assert HasFrom(v, 0, x) <==> HasFrom(w, 0, x);
        HasConcat([v[0]], v[1..], x);
        HasConcat([w[0]], w[1..], x);
        HasOne(v[0], x);
        assert v == [v[0]] + v[1..] && w == [w[0]] + w[1..];
        if EltHas(v[0], x) {
          HasNotBelow(v[1..], 0, x);
          HasNotBelow(w[1..], 0, x);
        }
      }
      CanonicalSame(v[1..], w[1..]);
    }
  }

  lemma {:induction false} CanonicalUnique(v: seq<Elt>, w: seq<Elt>)
    requires Canonical(v) && Canonical(w) && Members(v) == Members(w)
    ensures v == w
  {
    forall x: nat ensures HasFrom(v, 0, x) <==> HasFrom(w, 0, x) {
      MembersHas(v, x);
      MembersHas(w, x);
    }
    CanonicalSame(v, w);
  }
}
