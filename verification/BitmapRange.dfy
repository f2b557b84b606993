/** bitmap_clear_range. */
module BitmapRange {
  import opened Helpers
  import opened Words
  import opened Elements
  import opened BitSets
  import opened Obstacks
  import opened Bitmaps
  import opened BitmapBits

  /** ~w. */
  function Not(w: Word): (r: Word) {
    WORD_LIMIT - 1 - w
  }

  lemma {:induction false} ComplementBit(n: nat, w: nat, j: nat)
    requires w < Pow2(n) && j < n
    ensures Bit(Pow2(n) - 1 - w, j) <==> !Bit(w, j)
  {
    if j > 0 {
      assert (Pow2(n) - 1 - w) / 2 == Pow2(n - 1) - 1 - w / 2;
      ComplementBit(n - 1, w / 2, j - 1);
    }
  }

  lemma NotBit(w: Word, j: nat)
    requires j < WORD_BITS
    ensures Bit(Not(w), j) <==> !Bit(w, j)
  {
    Pow2Word();
    ComplementBit(WORD_BITS, w, j);
  }

  /** (1 << n) - 1. */
  function LowBits(n: nat): (r: Word)
    requires n < WORD_BITS
  {
    PowerIsWord(n);
    Pow2(n) - 1
  }

  /** Bit j of word w of an element, as an offset into the element. */
  function Offset(w: nat, j: nat): nat {
    w * WORD_BITS + j
  }

  /** Whether bit j of word w of element ix is at or above start. */
  predicate From(start: nat, ix: nat, w: nat, j: nat) {
    start <= ix * ELEMENT_BITS + Offset(w, j)
  }

  /** Where bit b of element ix lies. */
  lemma Position(b: nat, ix: nat)
    requires ix * ELEMENT_BITS <= b < (ix + 1) * ELEMENT_BITS
    ensures var w := (b - ix * ELEMENT_BITS) / WORD_BITS;
      w < ELEMENT_WORDS && b == ix * ELEMENT_BITS + Offset(w, b % WORD_BITS)
  {
    assert WORD_BITS == 64 && ELEMENT_BITS == 128;
    var k := b - ix * 128;
    assert b % 64 == k % 64 && k == k / 64 * 64 + k % 64;
  }

  /** The first word to change, and a mask with ones in all bits of it from start on. */
  method FirstMask(start: nat, ix: nat) returns (first_word_to_mod: nat, first_mask: Word)
    requires start < (ix + 1) * ELEMENT_BITS
    ensures first_word_to_mod < ELEMENT_WORDS
    ensures forall j: nat :: j < WORD_BITS ==> (Bit(first_mask, j) <==> From(start, ix, first_word_to_mod, j))
    ensures first_word_to_mod > 0 ==> ix * ELEMENT_BITS + first_word_to_mod * WORD_BITS <= start
    ensures start < ix * ELEMENT_BITS + (first_word_to_mod + 1) * WORD_BITS
  {
    var elt_start_bit := ix * ELEMENT_BITS;
    if elt_start_bit <= start {
      Position(start, ix);
      first_word_to_mod := (start - elt_start_bit) / WORD_BITS;
      first_mask := LowBits(start % WORD_BITS);
      first_mask := Not(first_mask);
    } else {
      first_word_to_mod := 0;
      first_mask := 0;
      first_mask := Not(first_mask);
    }
    forall j: nat | j < WORD_BITS ensures Bit(first_mask, j) <==> From(start, ix, first_word_to_mod, j) {
      if elt_start_bit <= start {
        NotBit(LowBits(start % WORD_BITS), j);
        MaskBit(start % WORD_BITS, j);
      } else {
        NotBit(0, j);
        ZeroBits(j);
      }
    }
  }

  /** The last word to change, and a mask with ones below the end bit. */
  method LastMask(end_bit_plus1: nat, ix: nat) returns (last_word_to_mod: nat, last_mask: Word)
    requires ix * ELEMENT_BITS < end_bit_plus1
    ensures last_word_to_mod < ELEMENT_WORDS
    ensures forall j: nat :: j < WORD_BITS ==> (Bit(last_mask, j) <==> !From(end_bit_plus1, ix, last_word_to_mod, j))
    ensures ix * ELEMENT_BITS + last_word_to_mod * WORD_BITS <= end_bit_plus1
    ensures last_word_to_mod + 1 < ELEMENT_WORDS ==>
      end_bit_plus1 < ix * ELEMENT_BITS + (last_word_to_mod + 1) * WORD_BITS
  {
    var elt_start_bit := ix * ELEMENT_BITS;
    var elt_end_bit_plus1 := elt_start_bit + ELEMENT_BITS;
    if elt_end_bit_plus1 <= end_bit_plus1 {
      last_word_to_mod := ELEMENT_WORDS - 1;
      last_mask := 0;
      last_mask := Not(last_mask);
    } else {
      Position(end_bit_plus1, ix);
      last_word_to_mod := (end_bit_plus1 - elt_start_bit) / WORD_BITS;
      last_mask := LowBits(end_bit_plus1 % WORD_BITS);
    }
    forall j: nat | j < WORD_BITS ensures Bit(last_mask, j) <==> !From(end_bit_plus1, ix, last_word_to_mod, j) {
      if elt_end_bit_plus1 <= end_bit_plus1 {
        NotBit(0, j);
        ZeroBits(j);
      } else {
        MaskBit(end_bit_plus1 % WORD_BITS, j);
      }
    }
  }

  /** Word w of element ix keeps of x just the bits outside [start, end). */
  ghost predicate Trimmed(x: Word, r: Word, w: nat, ix: nat, start: nat, end: nat) {
    forall j: nat :: j < WORD_BITS ==>
      (Bit(r, j) <==> Bit(x, j) && !(From(start, ix, w, j) && !From(end, ix, w, j)))
  }

  /** x & ~mask. */
  lemma Masked(x: Word, mask: Word, w: nat, ix: nat, start: nat, end: nat)
    requires forall j: nat :: j < WORD_BITS ==> (Bit(mask, j) <==> From(start, ix, w, j) && !From(end, ix, w, j))
    ensures Trimmed(x, Apply(And, x, Not(mask)), w, ix, start, end)
  {
    hide Apply, From;
    forall j: nat | j < WORD_BITS
      ensures Bit(Apply(And, x, Not(mask)), j) <==> Bit(x, j) && !(From(start, ix, w, j) && !From(end, ix, w, j))
    {
      ApplyBit(And, x, Not(mask), j);
      NotBit(mask, j);
    }
  }

  lemma Untouched(x: Word, w: nat, ix: nat, start: nat, end: nat)
    requires ix * ELEMENT_BITS + (w + 1) * WORD_BITS <= start || end <= ix * ELEMENT_BITS + w * WORD_BITS
    ensures Trimmed(x, x, w, ix, start, end)
  {
  }

  /** The range covers only part of this element. */
  method KnockOut(bits: Bits, ix: nat, start: nat, end_bit_plus1: nat) returns (r: Bits)
    requires start <= end_bit_plus1 && ix * ELEMENT_BITS < end_bit_plus1 && start < (ix + 1) * ELEMENT_BITS
    ensures forall w: nat :: w < ELEMENT_WORDS ==> Trimmed(bits[w], r[w], w, ix, start, end_bit_plus1)
  {
    hide Apply, Not, Trimmed;
    r := bits;
    var first_word_to_mod, first_mask := FirstMask(start, ix);
    var last_word_to_mod, last_mask := LastMask(end_bit_plus1, ix);
    if first_word_to_mod == last_word_to_mod {
      var mask := Apply(And, first_mask, last_mask);
      forall j: nat | j < WORD_BITS ensures Bit(mask, j) <==> Bit(first_mask, j) && Bit(last_mask, j) {
        ApplyBit(And, first_mask, last_mask, j);
      }
      Masked(r[first_word_to_mod], mask, first_word_to_mod, ix, start, end_bit_plus1);
      r := r[first_word_to_mod := Apply(And, r[first_word_to_mod], Not(mask))];
    } else {
      Masked(r[first_word_to_mod], first_mask, first_word_to_mod, ix, start, end_bit_plus1);
      r := r[first_word_to_mod := Apply(And, r[first_word_to_mod], Not(first_mask))];
      // An element has two words, so none lies strictly between these two.
      Masked(r[last_word_to_mod], last_mask, last_word_to_mod, ix, start, end_bit_plus1);
      r := r[last_word_to_mod := Apply(And, r[last_word_to_mod], Not(last_mask))];
    }
    forall w: nat | w < ELEMENT_WORDS ensures Trimmed(bits[w], r[w], w, ix, start, end_bit_plus1) {
      if w < first_word_to_mod || last_word_to_mod < w {
        Untouched(bits[w], w, ix, start, end_bit_plus1);
      }
    }
  }

  lemma TrimmedHas(e: Elt, r: Bits, start: nat, end: nat, b: nat)
    requires forall w: nat :: w < ELEMENT_WORDS ==> Trimmed(e.bits[w], r[w], w, e.indx, start, end)
    ensures EltHas(Elt(e.indx, r), b) <==> EltHas(e, b) && !(start <= b < end)
  {
    if IndexOf(b) == e.indx {
      var w, j := WordOf(b), b % WORD_BITS;
      assert Trimmed(e.bits[w], r[w], w, e.indx, start, end);
      assert b == e.indx * ELEMENT_BITS + Offset(w, j);
    }
  }

  // ---- the walk over the elements --------------------------------------------------------------

  ghost predicate Clean(e: Elt, start: nat, end: nat) {
    forall b: nat :: EltHas(e, b) ==> !(start <= b < end)
  }

  /** v is v0 without members of [start, end), and none is left in v[..d]. */
  ghost predicate Trimming(v0: seq<Elt>, v: seq<Elt>, d: nat, start: nat, end: nat) {
    && Canonical(v) && d <= |v|
    && (forall b: nat :: HasFrom(v, 0, b) ==> HasFrom(v0, 0, b))
    && (forall b: nat :: HasFrom(v0, 0, b) && !(start <= b < end) ==> HasFrom(v, 0, b))
    && (forall i :: 0 <= i < d ==> Clean(v[i], start, end))
    && (forall i :: d <= i < |v| ==> IndexOf(start) <= v[i].indx)
  }

  lemma RemoveParts(v: seq<Elt>, d: nat, b: nat)
    requires Canonical(v) && d < |v|
    ensures HasFrom(v[..d] + v[d + 1..], 0, b) <==> HasFrom(v, 0, b) && IndexOf(b) != v[d].indx
    ensures IndexOf(b) == v[d].indx ==> (HasFrom(v, 0, b) <==> EltHas(v[d], b))
    ensures Canonical(v[..d] + v[d + 1..])
  {
    hide HasFrom, EltHas;
    RemoveHas(v, d, b);
    if IndexOf(b) == v[d].indx { PresentHas(v, d, b); }
  }

  lemma TrimRemove(v0: seq<Elt>, v: seq<Elt>, d: nat, start: nat, end: nat)
    requires Trimming(v0, v, d, start, end) && d < |v|
    requires forall b: nat :: EltHas(v[d], b) ==> start <= b < end
    ensures Trimming(v0, v[..d] + v[d + 1..], d, start, end)
  {
    hide Canonical, EltHas, Clean;
    var v' := v[..d] + v[d + 1..];
    forall b: nat ensures HasFrom(v', 0, b) <==> HasFrom(v, 0, b) && IndexOf(b) != v[d].indx {
      RemoveParts(v, d, b);
    }
    forall b: nat | HasFrom(v0, 0, b) && !(start <= b < end) ensures HasFrom(v', 0, b) {
      if IndexOf(b) == v[d].indx { RemoveParts(v, d, b); }
    }
    RemoveParts(v, d, 0);
    assert forall i :: 0 <= i < d ==> v'[i] == v[i];
  }

  lemma UpdateParts(v: seq<Elt>, d: nat, e: Elt, b: nat)
    requires Canonical(v) && d < |v| && e.indx == v[d].indx
    ensures HasFrom(v[d := e], 0, b) <==> if IndexOf(b) == e.indx then EltHas(e, b) else HasFrom(v, 0, b)
    ensures IndexOf(b) == v[d].indx ==> (HasFrom(v, 0, b) <==> EltHas(v[d], b))
    ensures e.bits != ZERO_BITS ==> Canonical(v[d := e])
  {
    hide HasFrom, EltHas;
    UpdateHas(v, d, e, b);
    if IndexOf(b) == v[d].indx { PresentHas(v, d, b); }
  }

  lemma TrimUpdate(v0: seq<Elt>, v: seq<Elt>, d: nat, start: nat, end: nat, e: Elt)
    requires Trimming(v0, v, d, start, end) && d < |v| && e.indx == v[d].indx && e.bits != ZERO_BITS
    requires forall b: nat :: EltHas(e, b) <==> EltHas(v[d], b) && !(start <= b < end)
    ensures Trimming(v0, v[d := e], d + 1, start, end)
  {
    hide Canonical, EltHas, HasFrom;
    forall b: nat
      ensures HasFrom(v[d := e], 0, b) <==> if IndexOf(b) == e.indx then EltHas(e, b) else HasFrom(v, 0, b)
    {
      UpdateParts(v, d, e, b);
    }
    forall b: nat | IndexOf(b) == e.indx ensures HasFrom(v, 0, b) <==> EltHas(v[d], b) {
      UpdateParts(v, d, e, b);
    }
    UpdateParts(v, d, e, 0);
  }

  lemma TrimDone(v0: seq<Elt>, v: seq<Elt>, d: nat, start: nat, end: nat)
    requires Trimming(v0, v, d, start, end) && 0 < end
    requires d < |v| ==> (end - 1) / ELEMENT_BITS < v[d].indx
    ensures forall b: nat :: b in Members(v) <==> b in Members(v0) && !(start <= b < end)
  {
    hide Members;
    forall b: nat ensures b in Members(v) <==> b in Members(v0) && !(start <= b < end) {
      MembersHas(v, b);
      MembersHas(v0, b);
      forall i | 0 <= i < |v| && EltHas(v[i], b) ensures !(start <= b < end) {
        if i < d {
          assert Clean(v[i], start, end);
        } else {
          assert v[d].indx <= v[i].indx;
        }
      }
    }
  }

  lemma WholeInside(e: Elt, start: nat, end: nat)
    requires start <= e.indx * ELEMENT_BITS && (e.indx + 1) * ELEMENT_BITS <= end
    ensures forall b: nat :: EltHas(e, b) ==> start <= b < end
  {
  }

  lemma TrimmedElt(e: Elt, r: Bits, start: nat, end: nat)
    requires forall w: nat :: w < ELEMENT_WORDS ==> Trimmed(e.bits[w], r[w], w, e.indx, start, end)
    ensures forall b: nat :: EltHas(Elt(e.indx, r), b) <==> EltHas(e, b) && !(start <= b < end)
    ensures r == ZERO_BITS ==> forall b: nat :: EltHas(e, b) ==> start <= b < end
  {
    forall b: nat ensures EltHas(Elt(e.indx, r), b) <==> EltHas(e, b) && !(start <= b < end) {
      TrimmedHas(e, r, start, end, b);
    }
    if r == ZERO_BITS {
      forall b: nat | EltHas(e, b) ensures start <= b < end {
        ZeroHasNothing(Elt(e.indx, r), b);
      }
    }
  }

  lemma TrimCanonical(v0: seq<Elt>, v: seq<Elt>, d: nat, start: nat, end: nat)
    requires Trimming(v0, v, d, start, end)
    ensures Canonical(v)
    ensures d < |v| ==> IndexOf(start) <= v[d].indx
  {
  }

  /** One element of the walk: free it whole, or clear the part of it that lies in the range. */
  method ClearStep(head: Bitmap, elt: Element, ghost d: nat, start: nat, end_bit_plus1: nat, ghost v0: seq<Elt>)
    returns (ghost d': nat)
    requires head.Valid() && head.obstack.Valid() && head.repr !! head.obstack.repr
    requires d < |head.view| && elt == head.nodes[d] && Trimming(v0, head.view, d, start, end_bit_plus1)
    requires start <= end_bit_plus1 && elt.indx * ELEMENT_BITS < end_bit_plus1 && start < (elt.indx + 1) * ELEMENT_BITS
    modifies head.repr, head.obstack
    ensures head.Valid() && head.obstack.Valid() && Recycled(head)
    ensures Trimming(v0, head.view, d', start, end_bit_plus1)
    ensures At(head.nodes, d') == old(elt.next)
    ensures |head.view| - d' == |old(head.view)| - d - 1
    ensures head.repr <= old(head.repr)
  {
    hide Elts, Distinct, Bitmap.Chain, Obstack.Valid, Sorted, NonZero, Trimming, Trimmed, EltHas, HasFrom,
      Bitmap.Cached;
    head.InvFacts();
    head.obstack.Facts();
    head.NodeFacts(d);
    d' := d;
    ghost var e := head.view[d];
    var next_elt := elt.next;
    var elt_start_bit := elt.indx * ELEMENT_BITS;
    var elt_end_bit_plus1 := elt_start_bit + ELEMENT_BITS;
    if elt_start_bit >= start && elt_end_bit_plus1 <= end_bit_plus1 {
      WholeInside(e, start, end_bit_plus1);
      TrimRemove(v0, head.view, d, start, end_bit_plus1);
      head.ElementFree(elt, d);
      TrimCanonical(v0, head.view, d, start, end_bit_plus1);
    } else {
      var bits := KnockOut(elt.bits, elt.indx, start, end_bit_plus1);
      TrimmedElt(e, bits, start, end_bit_plus1);
      if Zero(bits) {
        TrimRemove(v0, head.view, d, start, end_bit_plus1);
      } else {
        TrimUpdate(v0, head.view, d, start, end_bit_plus1, Elt(e.indx, bits));
      }
      head.SetBits(elt, d, bits);
      head.NodeFacts(d);
      if Zero(elt.bits) {
        assert head.view[..d] + head.view[d + 1..] == old(head.view[..d] + head.view[d + 1..]);
        head.ElementFree(elt, d);
      } else {
        d' := d + 1;
      }
      TrimCanonical(v0, head.view, d', start, end_bit_plus1);
    }
  }

  method SetCurrent(head: Bitmap, elt: Element, ghost d: nat)
    requires head.Valid() && d < |head.nodes| && elt == head.nodes[d]
    modifies head`current, head`indx, head`cur
    ensures head.Valid()
  {
    hide Elts, Distinct, Bitmap.Chain;
    head.ChainFacts();
    head.NodeFacts(d);
    head.current := elt;
    head.indx := head.current.indx;
    head.cur := d;
  }

  lemma TrimStart(v: seq<Elt>, d: nat, ix: nat, start: nat, end: nat)
    requires Canonical(v) && d <= |v| && ix == IndexOf(start)
    requires (forall i :: 0 <= i < d ==> v[i].indx < ix) && forall i :: d <= i < |v| ==> ix <= v[i].indx
    ensures Trimming(v, v, d, start, end)
  {
    forall i | 0 <= i < d ensures Clean(v[i], start, end) {
      assert v[i].indx < ix;
    }
  }

  /** bitmap_clear_range: exactly the bits start to start + count - 1 go. */
  method ClearRange(head: Bitmap, start: nat, count: nat)
    requires head.Valid() && head.obstack.Valid() && head.repr !! head.obstack.repr
    requires start + count > 0
    modifies head.repr, head.obstack
    ensures head.Valid() && head.obstack.Valid() && Recycled(head)
    ensures forall b: nat :: b in head.Contents() <==> b in old(head.Contents()) && !(start <= b < start + count)
  {
    hide Elts, Distinct, Bitmap.Chain, Obstack.Valid, Sorted, NonZero, Trimming, Members;
    head.InvFacts();
    head.obstack.Facts();
    ghost var v0 := head.view;
    var first_index := start / ELEMENT_BITS;
    var end_bit_plus1 := start + count;
    var end_bit := end_bit_plus1 - 1;
    var last_index := end_bit / ELEMENT_BITS;
    var elt := FindBit(head, start);
    ghost var d := head.cur;
    if head.view != [] { CacheBounds(head); }
    if elt == null {
      if head.current != null {
        if head.indx < first_index {
          head.NodeFacts(head.cur);
          elt := head.current.next;
          d := head.cur + 1;
          if elt == null {
            TrimStart(v0, d, first_index, start, end_bit_plus1);
            TrimDone(v0, v0, d, start, end_bit_plus1);
            return;
          }
        } else {
          elt := head.current;
        }
      } else {
        TrimStart(v0, 0, first_index, start, end_bit_plus1);
        TrimDone(v0, v0, 0, start, end_bit_plus1);
        return;
      }
    }
    head.InvFacts();
    TrimStart(v0, d, first_index, start, end_bit_plus1);
    while elt != null && elt.indx <= last_index
      invariant head.Valid() && head.obstack.Valid() && Recycled(head)
      invariant 0 <= d <= |head.view| == |head.nodes| && elt == At(head.nodes, d)
      invariant Trimming(v0, head.view, d, start, end_bit_plus1)
      invariant head.repr <= old(head.repr)
      decreases |head.view| - d
    {
      head.NodeFacts(d);
      TrimCanonical(v0, head.view, d, start, end_bit_plus1);
      var next_elt := elt.next;
      d := ClearStep(head, elt, d, start, end_bit_plus1, v0);
      elt := next_elt;
      head.InvFacts();
    }
    head.InvFacts();
    if elt != null { head.NodeFacts(d); }
    TrimDone(v0, head.view, d, start, end_bit_plus1);
    if elt != null {
      SetCurrent(head, elt, d);
    }
  }
}
