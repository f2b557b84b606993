/** What storing, inserting and removing single elements and bits does to the set of a bitmap value. */
module BitSets {
  import opened Words
  import opened Elements

  function WordOf(b: nat): (w: nat)
    ensures w < ELEMENT_WORDS
  {
    b / WORD_BITS % ELEMENT_WORDS
  }

  function IndexOf(b: nat): nat {
    b / ELEMENT_BITS
  }

  /** A bit number is made of the index of its element, its word and its place in the word. */
  lemma Address(b: nat)
    ensures b == IndexOf(b) * ELEMENT_BITS + WordOf(b) * WORD_BITS + b % WORD_BITS
  {
    assert WORD_BITS == 64 && ELEMENT_BITS == 128 && ELEMENT_WORDS == 2;
    var q := b / 64;
    assert b == q * 64 + b % 64 && q == q / 2 * 2 + q % 2 && b / 128 == q / 2;
  }

  lemma Located(ix: nat, word_no: nat, bit_no: nat)
    requires word_no < ELEMENT_WORDS
    requires ix * ELEMENT_BITS + word_no * WORD_BITS <= bit_no < ix * ELEMENT_BITS + (word_no + 1) * WORD_BITS
    ensures IndexOf(bit_no) == ix && WordOf(bit_no) == word_no
    ensures bit_no % WORD_BITS == bit_no - (ix * ELEMENT_BITS + word_no * WORD_BITS)
  {
    assert WORD_BITS == 64 && ELEMENT_BITS == 128 && ELEMENT_WORDS == 2;
    assert bit_no / 64 == 2 * ix + word_no && bit_no / 128 == ix;
  }

  lemma EltHasBit(e: Elt, b: nat)
    ensures EltHas(e, b) <==> IndexOf(b) == e.indx && Bit(e.bits[WordOf(b)], b % WORD_BITS)
  {
  }

  lemma PresentHas(v: seq<Elt>, k: nat, b: nat)
    requires Sorted(v) && k < |v| && v[k].indx == IndexOf(b)
    ensures HasFrom(v, 0, b) <==> EltHas(v[k], b)
  {
  }

  lemma UpdateHas(v: seq<Elt>, k: nat, e: Elt, b: nat)
    requires Sorted(v) && k < |v| && e.indx == v[k].indx
    ensures HasFrom(v[k := e], 0, b) <==> if IndexOf(b) == e.indx then EltHas(e, b) else HasFrom(v, 0, b)
    ensures Sorted(v[k := e]) && (Canonical(v) && e.bits != ZERO_BITS ==> Canonical(v[k := e]))
  {
    var w := v[k := e];
    if IndexOf(b) == e.indx {
      PresentHas(w, k, b);
    } else {
      if i :| 0 <= i < |v| && EltHas(v[i], b) { assert w[i] == v[i]; }
    }
  }

  lemma InsertHas(v: seq<Elt>, k: nat, e: Elt, b: nat)
    requires k <= |v|
    ensures HasFrom(v[..k] + [e] + v[k..], 0, b) <==> HasFrom(v, 0, b) || EltHas(e, b)
  {
    HasConcat(v[..k], v[k..], b);
    assert v == v[..k] + v[k..];
    HasConcat(v[..k] + [e], v[k..], b);
    HasConcat(v[..k], [e], b);
    HasOne(e, b);
  }

  lemma InsertCanonical(v: seq<Elt>, k: nat, e: Elt)
    requires Canonical(v) && k <= |v| && e.bits != ZERO_BITS
    requires (forall i :: 0 <= i < k ==> v[i].indx < e.indx) && forall i :: k <= i < |v| ==> e.indx < v[i].indx
    ensures Canonical(v[..k] + [e] + v[k..])
  {
    var w := v[..k] + [e] + v[k..];
    assert forall i :: 0 <= i < |w| ==> w[i] == if i < k then v[i] else if i == k then e else v[i - 1];
  }

  lemma SortedApart(v: seq<Elt>, i: nat, k: nat)
    requires Sorted(v) && i < |v| && k < |v| && i != k
    ensures v[i].indx != v[k].indx
  {
  }

  lemma HasIndex(e: Elt, b: nat)
    ensures EltHas(e, b) ==> e.indx == IndexOf(b)
  {
  }

  lemma RemoveSorted(v: seq<Elt>, k: nat)
    requires Sorted(v) && k < |v|
    ensures Sorted(v[..k] + v[k + 1..]) && (Canonical(v) ==> Canonical(v[..k] + v[k + 1..]))
  {
    var w := v[..k] + v[k + 1..];
    assert forall i :: 0 <= i < |w| ==> w[i] == v[if i < k then i else i + 1];
  }

  lemma RemoveHas(v: seq<Elt>, k: nat, b: nat)
    requires Sorted(v) && k < |v|
    ensures HasFrom(v[..k] + v[k + 1..], 0, b) <==> HasFrom(v, 0, b) && IndexOf(b) != v[k].indx
    ensures Sorted(v[..k] + v[k + 1..]) && (Canonical(v) ==> Canonical(v[..k] + v[k + 1..]))
  {
    hide EltHas, Sorted;
    RemoveSorted(v, k);
    var w := v[..k] + v[k + 1..];
    if HasFrom(w, 0, b) {
      var i :| 0 <= i < |w| && EltHas(w[i], b);
      var l := if i < k then i else i + 1;
      assert w[i] == v[l];
      HasIndex(v[l], b);
      SortedApart(v, l, k);
    }
    if HasFrom(v, 0, b) && IndexOf(b) != v[k].indx {
      var l :| 0 <= l < |v| && EltHas(v[l], b);
      HasIndex(v[l], b);
      assert w[if l < k then l else l - 1] == v[l];
    }
  }

  /** Two bits of the same element are the same bit if they agree in word and position. */
  lemma SameBit(b: nat, c: nat)
    requires IndexOf(b) == IndexOf(c) && WordOf(b) == WordOf(c) && b % WORD_BITS == c % WORD_BITS
    ensures b == c
  {
  }

  lemma {:induction false} PowerMonotone(m: nat, n: nat)
    requires m <= n
    ensures Pow2(m) <= Pow2(n) && (m < n ==> Pow2(m) < Pow2(n))
  {
    if m < n { PowerMonotone(m, n - 1); }
  }

  lemma PowerIsWord(n: nat)
    requires n < WORD_BITS
    ensures Pow2(n) < WORD_LIMIT
  {
    PowerMonotone(n, WORD_BITS);
    Pow2Word();
  }

  /** bits with one bit put in by op Or, or taken out by op AndNot. */
  function PutBit(op: Op, bits: Bits, bit: nat): (r: Bits) {
    PowerIsWord(bit % WORD_BITS);
    bits[WordOf(bit) := Apply(op, bits[WordOf(bit)], Pow2(bit % WORD_BITS))]
  }

  lemma PutBitHas(op: Op, ix: nat, bits: Bits, bit: nat, b: nat)
    requires ix == IndexOf(bit) && op in {Or, AndNot}
    ensures EltHas(Elt(ix, PutBit(op, bits, bit)), b)
      <==> if b == bit then op == Or else EltHas(Elt(ix, bits), b)
  {
    var n := bit % WORD_BITS;
    PowerIsWord(n);
    if IndexOf(b) == ix && WordOf(b) == WordOf(bit) {
      ApplyBit(op, bits[WordOf(bit)], Pow2(n), b % WORD_BITS);
      Pow2Bit(n, b % WORD_BITS);
      if b % WORD_BITS == n { SameBit(b, bit); }
    }
  }

  lemma ZeroPut(bit: nat)
    ensures Pow2(bit % WORD_BITS) < WORD_LIMIT
    ensures PutBit(Or, ZERO_BITS, bit) == ZERO_BITS[WordOf(bit) := Pow2(bit % WORD_BITS)]
  {
    var n := bit % WORD_BITS;
    PowerIsWord(n);
    forall j: nat | j < WORD_BITS ensures Bit(Apply(Or, 0, Pow2(n)), j) == Bit(Pow2(n), j) {
      ApplyBit(Or, 0, Pow2(n), j);
      ZeroBits(j);
    }
    WordExtensional(Apply(Or, 0, Pow2(n)), Pow2(n));
  }

  lemma PutNonZero(bits: Bits, bit: nat)
    ensures PutBit(Or, bits, bit) != ZERO_BITS
  {
    var e := Elt(IndexOf(bit), PutBit(Or, bits, bit));
    PutBitHas(Or, e.indx, bits, bit, bit);
    if e.bits == ZERO_BITS { ZeroHasNothing(e, bit); }
  }

  // ---- the effect on the set ------------------------------------------------------------------

  lemma PutMembers(op: Op, v: seq<Elt>, k: nat, bit: nat)
    requires Canonical(v) && k < |v| && v[k].indx == IndexOf(bit) && op in {Or, AndNot}
    ensures
      var v' := v[k := Elt(v[k].indx, PutBit(op, v[k].bits, bit))];
      && Members(v') == (if op == Or then Members(v) + {bit} else Members(v) - {bit})
      && Sorted(v') && (v'[k].bits != ZERO_BITS ==> Canonical(v'))
  {
    hide Members, PutBit, EltHas;
    var e := Elt(v[k].indx, PutBit(op, v[k].bits, bit));
    var v' := v[k := e];
    forall b: nat ensures b in Members(v') <==> if b == bit then op == Or else b in Members(v) {
      MembersHas(v, b);
      MembersHas(v', b);
      UpdateHas(v, k, e, b);
      if IndexOf(b) == e.indx { PresentHas(v, k, b); }
      PutBitHas(op, e.indx, v[k].bits, bit, b);
    }
    UpdateHas(v, k, e, bit);
  }

  lemma InsertMembers(v: seq<Elt>, k: nat, bit: nat)
    requires Canonical(v) && k <= |v|
    requires forall i :: 0 <= i < k ==> v[i].indx < IndexOf(bit)
    requires forall i :: k <= i < |v| ==> IndexOf(bit) < v[i].indx
    ensures
      var v' := v[..k] + [Elt(IndexOf(bit), PutBit(Or, ZERO_BITS, bit))] + v[k..];
      Canonical(v') && Members(v') == Members(v) + {bit}
  {
    hide Members, PutBit, EltHas;
    var e := Elt(IndexOf(bit), PutBit(Or, ZERO_BITS, bit));
    PutNonZero(ZERO_BITS, bit);
    InsertCanonical(v, k, e);
    var v' := v[..k] + [e] + v[k..];
    forall b: nat ensures b in Members(v') <==> b in Members(v) || b == bit {
      MembersHas(v, b);
      MembersHas(v', b);
      InsertHas(v, k, e, b);
      PutBitHas(Or, e.indx, ZERO_BITS, bit, b);
      ZeroHasNothing(Elt(e.indx, ZERO_BITS), b);
    }
  }

  /** Dropping an element that has become zero does not change the set. */
  lemma DropZero(u: seq<Elt>, k: nat, e: Elt)
    requires Canonical(u) && k < |u| && e.indx == u[k].indx && e.bits == ZERO_BITS
    ensures var v := u[k := e];
      Canonical(v[..k] + v[k + 1..]) && Members(v[..k] + v[k + 1..]) == Members(v)
  {
    var v := u[k := e];
    hide Members, EltHas;
    var v' := v[..k] + v[k + 1..];
    forall b: nat ensures b in Members(v') <==> b in Members(v) {
      MembersHas(v, b);
      MembersHas(v', b);
      RemoveHas(v, k, b);
      if IndexOf(b) == v[k].indx { PresentHas(v, k, b); }
      ZeroHasNothing(v[k], b);
    }
    RemoveHas(v, k, 0);
    assert forall i :: 0 <= i < |v'| ==> v'[i] == v[if i < k then i else i + 1];
  }

  lemma AbsentMember(v: seq<Elt>, bit: nat)
    requires forall i :: 0 <= i < |v| ==> v[i].indx != IndexOf(bit)
    ensures bit !in Members(v)
  {
    MembersHas(v, bit);
  }

  lemma PresentMember(v: seq<Elt>, k: nat, bit: nat)
    requires Sorted(v) && k < |v| && v[k].indx == IndexOf(bit)
    ensures bit in Members(v) <==> Bit(v[k].bits[WordOf(bit)], bit % WORD_BITS)
  {
    MembersHas(v, bit);
    PresentHas(v, k, bit);
  }
}
