/** The queries of bitmap.c that walk one or two element lists and change nothing. */
module BitmapQueries {
  import opened Helpers
  import opened Words
  import opened Elements
  import opened Merging
  import opened BitSets
  import opened Obstacks
  import opened Bitmaps
  import opened BitmapOps

  /** The word loop of bitmap_equal_p. */
  method SameWords(x: Bits, y: Bits) returns (r: bool)
    ensures r <==> x == y
  {
    var ix: nat := ELEMENT_WORDS;
    while ix != 0
      invariant ix <= ELEMENT_WORDS
      invariant forall k :: ix <= k < ELEMENT_WORDS ==> x[k] == y[k]
    {
      ix := ix - 1;
      if x[ix] != y[ix] {
        return false;
      }
    }
    return true;
  }

  /** bitmap_equal_p. */
  method EqualP(a: Bitmap, b: Bitmap) returns (r: bool)
    requires a.Valid() && b.Valid()
    ensures r <==> a.Contents() == b.Contents()
  {
    hide Cursor, At, Canonical, Sorted, NonZero, Distinct, Elts, Bitmap.Valid, Bitmap.Inv, Bitmap.Chain, Bitmap.Cached,
      Members;
    CursorStart(a);
    CursorStart(b);
    SameAs(a.view, b.view);
    var a_elt, b_elt := a.first, b.first;
    ghost var i := 0;
    while a_elt != null && b_elt != null
      invariant Cursor(a, a_elt, i) && Cursor(b, b_elt, i) && i <= |a.view| && i <= |b.view|
      invariant a.view[..i] == b.view[..i]
      decreases |a.view| - i
    {
      CursorFacts(a, a_elt, i);
      CursorFacts(b, b_elt, i);
      if a_elt.indx != b_elt.indx {
        return false;
      }
      var same := SameWords(a_elt.bits, b_elt.bits);
      if !same {
        return false;
      }
      a_elt, b_elt, i := a_elt.next, b_elt.next, i + 1;
    }
    CursorFacts(a, a_elt, i);
    CursorFacts(b, b_elt, i);
    assert a.view[..|a.view|] == a.view && b.view[..|b.view|] == b.view;
    return a_elt == null && b_elt == null;
  }

  /** The word loops of bitmap_intersect_p and bitmap_intersect_compl_p. */
  method AnyWord(op: Op, x: Bits, y: Bits) returns (r: bool)
    ensures r <==> !Zero(Combine(op, x, y))
  {
    hide Apply;
    var c := Combine(op, x, y);
    var ix: nat := ELEMENT_WORDS;
    while ix != 0
      invariant ix <= ELEMENT_WORDS
      invariant forall k :: ix <= k < ELEMENT_WORDS ==> c[k] == 0
    {
      ix := ix - 1;
      if Apply(op, x[ix], y[ix]) != 0 {
        return true;
      }
    }
    return false;
  }

  lemma SomeMembers(op: Op, a: seq<Elt>, b: seq<Elt>)
    requires Canonical(a) && Canonical(b)
    ensures Emits(op, a, 0, b, 0) <==> SetOp(op, Members(a), Members(b)) != {}
  {
    hide Merge, Members, Canonical;
    EmptyValue();
    MergeSame(op, a, b, []);
  }

  /** bitmap_intersect_p. */
  method IntersectP(a: Bitmap, b: Bitmap) returns (r: bool)
    requires a.Valid() && b.Valid()
    ensures r <==> a.Contents() * b.Contents() != {}
  {
    hide Cursor, At, Canonical, Sorted, NonZero, Distinct, Elts, Bitmap.Valid, Bitmap.Inv, Bitmap.Chain, Bitmap.Cached,
      Members, Emits, Combine, Eval, Zero, Merge;
    CursorStart(a);
    CursorStart(b);
    SomeMembers(And, a.view, b.view);
    EvalTable();
    var a_elt, b_elt := a.first, b.first;
    ghost var i, j := 0, 0;
    while a_elt != null && b_elt != null
      invariant Cursor(a, a_elt, i) && Cursor(b, b_elt, j) && i <= |a.view| && j <= |b.view|
      invariant Emits(And, a.view, 0, b.view, 0) <==> Emits(And, a.view, i, b.view, j)
      decreases |a.view| - i + |b.view| - j
    {
      CursorFacts(a, a_elt, i);
      CursorFacts(b, b_elt, j);
      if a_elt.indx < b_elt.indx {
        SomeA(And, a.view, i, b.view, j);
        a_elt, i := a_elt.next, i + 1;
      } else if b_elt.indx < a_elt.indx {
        SomeB(And, a.view, i, b.view, j);
        b_elt, j := b_elt.next, j + 1;
      } else {
        SomeBoth(And, a.view, i, b.view, j);
        var any := AnyWord(And, a_elt.bits, b_elt.bits);
        if any {
          return true;
        }
        a_elt, b_elt, i, j := a_elt.next, b_elt.next, i + 1, j + 1;
      }
    }
    CursorFacts(a, a_elt, i);
    CursorFacts(b, b_elt, j);
    DropAll(And, a.view, i, b.view, j, false);
    return false;
  }

  /** bitmap_intersect_compl_p. */
  method IntersectComplP(a: Bitmap, b: Bitmap) returns (r: bool)
    requires a.Valid() && b.Valid()
    ensures r <==> a.Contents() - b.Contents() != {}
  {
    hide Cursor, At, Canonical, Sorted, NonZero, Distinct, Elts, Bitmap.Valid, Bitmap.Inv, Bitmap.Chain, Bitmap.Cached,
      Members, Emits, Combine, Eval, Zero, Merge;
    CursorStart(a);
    CursorStart(b);
    SomeMembers(AndNot, a.view, b.view);
    EvalTable();
    var a_elt, b_elt := a.first, b.first;
    ghost var i, j := 0, 0;
    while a_elt != null && b_elt != null
      invariant Cursor(a, a_elt, i) && Cursor(b, b_elt, j) && i <= |a.view| && j <= |b.view|
      invariant Emits(AndNot, a.view, 0, b.view, 0) <==> Emits(AndNot, a.view, i, b.view, j)
      decreases |a.view| - i + |b.view| - j
    {
      CursorFacts(a, a_elt, i);
      CursorFacts(b, b_elt, j);
      if a_elt.indx < b_elt.indx {
        SomeA(AndNot, a.view, i, b.view, j);
        return true;
      } else if b_elt.indx < a_elt.indx {
        SomeB(AndNot, a.view, i, b.view, j);
        b_elt, j := b_elt.next, j + 1;
      } else {
        SomeBoth(AndNot, a.view, i, b.view, j);
        var any := AnyWord(AndNot, a_elt.bits, b_elt.bits);
        if any {
          return true;
        }
        a_elt, b_elt, i, j := a_elt.next, b_elt.next, i + 1, j + 1;
      }
    }
    CursorFacts(a, a_elt, i);
    CursorFacts(b, b_elt, j);
    if a_elt == null {
      DropAll(AndNot, a.view, i, b.view, j, false);
    } else {
      SomeA(AndNot, a.view, i, b.view, j);
    }
    return a_elt != null;
  }

  // ---- the first set bit -----------------------------------------------------------------------

  ghost predicate SomeBelow(word: Word, n: nat) {
    exists j: nat :: j < n && Bit(word, j)
  }

  /** word is w0 with its low k bits, all clear, shifted out. */
  ghost predicate Shifted(w0: Word, k: nat, word: Word) {
    word == Shr(w0, k) && forall j: nat :: j < k ==> !Bit(w0, j)
  }

  lemma {:induction false} ShrShr(w: nat, m: nat, n: nat)
    ensures Shr(Shr(w, m), n) == Shr(w, m + n)
  {
    if m > 0 { ShrShr(w / 2, m - 1, n); }
  }

  lemma LowPart(word: Word, n: nat)
    requires 0 < n < WORD_BITS && SomeBelow(word, 2 * n)
    ensures Pow2(n) - 1 < WORD_LIMIT
    ensures if Apply(And, word, Pow2(n) - 1) == 0 then
      (forall j: nat :: j < n ==> !Bit(word, j)) && SomeBelow(Shr(word, n), n)
            else SomeBelow(word, n)
  {
    hide Apply;
    PowerIsWord(n);
    var low := Apply(And, word, Pow2(n) - 1);
    forall j: nat | j < WORD_BITS ensures Bit(low, j) <==> Bit(word, j) && j < n {
      ApplyBit(And, word, Pow2(n) - 1, j);
      MaskBit(n, j);
    }
    if low == 0 {
      forall j: nat | j < n ensures !Bit(word, j) { ZeroBits(j); assert !Bit(low, j); }
      var j: nat :| j < 2 * n && Bit(word, j);
      BitShr(word, n, j - n);
    } else {
      var j := SomeBit(low);
    }
  }

  lemma ShiftMore(w0: Word, k: nat, word: Word, n: nat)
    requires Shifted(w0, k, word) && forall j: nat :: j < n ==> !Bit(word, j)
    ensures Shifted(w0, k + n, Shr(word, n))
  {
    ShrShr(w0, k, n);
    forall j: nat | j < k + n ensures !Bit(w0, j) {
      if j >= k {
        BitShr(w0, k, j - k);
      }
    }
  }

  /** One step of the binary search: if the low n bits are clear, shift them out. */
  method Halve(word: Word, bit_no: nat, n: nat, ghost w0: Word, ghost k: nat)
    returns (word': Word, bit_no': nat, ghost k': nat)
    requires 0 < n < WORD_BITS && SomeBelow(word, 2 * n) && Shifted(w0, k, word)
    ensures SomeBelow(word', n) && Shifted(w0, k', word') && bit_no' - k' == bit_no - k
  {
    hide Apply, Bit, Shr, SomeBelow, Shifted;
    word', bit_no', k' := word, bit_no, k;
    LowPart(word, n);
    if Apply(And, word, Pow2(n) - 1) == 0 {
      ShiftMore(w0, k, word, n);
      word', bit_no', k' := Shr(word, n), bit_no + n, k + n;
    }
  }

  lemma LowestStart(w0: Word)
    requires w0 != 0
    ensures SomeBelow(w0, 64) && Shifted(w0, 0, w0)
  {
    var j := SomeBit(w0);
  }

  lemma LowestEnd(w0: Word, k: nat, word: Word)
    requires SomeBelow(word, 1) && Shifted(w0, k, word)
    ensures word % 2 == 1 && k < WORD_BITS && Bit(w0, k) && forall j: nat :: j < k ==> !Bit(w0, j)
  {
    BitShr(w0, k, 0);
    var j := SomeBit(w0);
  }

  /** The binary search for the first set bit of a word. */
  method LowestBit(w0: Word, bit_no0: nat) returns (bit_no: nat)
    requires w0 != 0
    ensures bit_no0 <= bit_no < bit_no0 + WORD_BITS && Bit(w0, bit_no - bit_no0)
    ensures forall j: nat :: j < bit_no - bit_no0 ==> !Bit(w0, j)
  {
    hide Bit, Shr, SomeBelow, Shifted;
    var word := w0;
    bit_no := bit_no0;
    ghost var k := 0;
    LowestStart(w0);
    word, bit_no, k := Halve(word, bit_no, 32, w0, k);
    word, bit_no, k := Halve(word, bit_no, 16, w0, k);
    word, bit_no, k := Halve(word, bit_no, 8, w0, k);
    word, bit_no, k := Halve(word, bit_no, 4, w0, k);
    word, bit_no, k := Halve(word, bit_no, 2, w0, k);
    word, bit_no, k := Halve(word, bit_no, 1, w0, k);
    LowestEnd(w0, k, word);
  }

  lemma LaterElement(v: seq<Elt>, k: nat)
    requires Sorted(v) && 0 < k < |v|
    ensures v[0].indx * ELEMENT_BITS + ELEMENT_BITS <= v[k].indx * ELEMENT_BITS
  {
  }

  lemma FirstMember(v: seq<Elt>, ix: nat, bit_no: nat)
    requires Canonical(v) && v != [] && ix < ELEMENT_WORDS
    requires forall k :: 0 <= k < ix ==> v[0].bits[k] == 0
    requires var base := v[0].indx * ELEMENT_BITS + ix * WORD_BITS;
      && base <= bit_no < base + WORD_BITS && Bit(v[0].bits[ix], bit_no - base)
      && forall j: nat :: j < bit_no - base ==> !Bit(v[0].bits[ix], j)
    ensures bit_no in Members(v) && forall b :: b in Members(v) ==> bit_no <= b
  {
    hide Members, EltHas, Bit, IndexOf, WordOf;
    MembersHas(v, bit_no);
    Located(v[0].indx, ix, bit_no);
    EltHasBit(v[0], bit_no);
    forall b | b in Members(v) ensures bit_no <= b {
      MembersHas(v, b);
      var k :| 0 <= k < |v| && EltHas(v[k], b);
      EltHasBit(v[k], b);
      Address(b);
      if k == 0 {
        ZeroBits(b % WORD_BITS);
      } else {
        LaterElement(v, k);
      }
    }
  }

  /** bitmap_first_set_bit: the least member. */
  method FirstSetBit(a: Bitmap) returns (bit_no: nat)
    requires a.Valid() && a.first != null
    ensures bit_no in a.Contents() && forall b :: b in a.Contents() ==> bit_no <= b
  {
    hide Elts, Distinct, Members, EltHas, Bit, HasFrom;
    var elt := a.first;
    a.NodeFacts(0);
    bit_no := elt.indx * ELEMENT_BITS;
    var ix: nat := 0;
    CanonicalAt(a.view, 0);
    assert elt.bits == [elt.bits[0], elt.bits[1]];
    while ix != ELEMENT_WORDS && elt.bits[ix] == 0
      invariant ix <= ELEMENT_WORDS
      invariant forall k :: 0 <= k < ix ==> elt.bits[k] == 0
    {
      ix := ix + 1;
    }
    var word := elt.bits[ix];
    bit_no := bit_no + ix * WORD_BITS;
    bit_no := LowestBit(word, bit_no);
    FirstMember(a.view, ix, bit_no);
  }

  // ---- counting --------------------------------------------------------------------------------

  /** The number of ones among the low n bits of w; for n = 64, __builtin_popcountl. */
  function PopCount(w: Word, n: nat): nat {
    if n == 0 then 0 else PopCount(w, n - 1) + if Bit(w, n - 1) then 1 else 0
  }

  /** Members of e among its first n bit positions. */
  ghost function Low(e: Elt, n: nat): set<nat> {
    set b | e.indx * ELEMENT_BITS <= b < e.indx * ELEMENT_BITS + n && EltHas(e, b)
  }

  lemma LowStep(e: Elt, n: nat)
    requires 0 < n
    ensures |Low(e, n)| == |Low(e, n - 1)| + if EltHas(e, e.indx * ELEMENT_BITS + n - 1) then 1 else 0
  {
    hide EltHas;
    var b := e.indx * ELEMENT_BITS + n - 1;
    if EltHas(e, b) {
      assert Low(e, n) == Low(e, n - 1) + {b};
    } else {
      assert Low(e, n) == Low(e, n - 1);
    }
  }

  lemma Position(ix: nat, k: nat)
    requires k < ELEMENT_BITS
    ensures var b := ix * ELEMENT_BITS + k;
      IndexOf(b) == ix && WordOf(b) == k / WORD_BITS && b % WORD_BITS == k % WORD_BITS
  {
    Located(ix, k / WORD_BITS, ix * ELEMENT_BITS + k);
  }

  lemma {:induction false} LowCount(e: Elt, n: nat)
    requires n <= ELEMENT_BITS
    ensures |Low(e, n)| == if n <= WORD_BITS then PopCount(e.bits[0], n)
      else PopCount(e.bits[0], WORD_BITS) + PopCount(e.bits[1], n - WORD_BITS)
  {
    hide Bit;
    if n == 0 {
      assert Low(e, 0) == {};
    } else {
      hide Low;
      LowCount(e, n - 1);
      LowStep(e, n);
      Position(e.indx, n - 1);
    }
  }

  lemma EltCount(e: Elt)
    ensures |EltSet(e)| == PopCount(e.bits[0], WORD_BITS) + PopCount(e.bits[1], WORD_BITS)
  {
    LowCount(e, ELEMENT_BITS);
    assert EltSet(e) == Low(e, ELEMENT_BITS);
  }

  /** The sum of the population counts of v[i..]. */
  ghost function Total(v: seq<Elt>, i: nat): nat
    requires i <= |v|
    decreases |v| - i
  {
    if i == |v| then 0
    else PopCount(v[i].bits[0], WORD_BITS) + PopCount(v[i].bits[1], WORD_BITS) + Total(v, i + 1)
  }

  lemma {:induction false} TotalIsCount(v: seq<Elt>, i: nat)
    requires Sorted(v) && i <= |v|
    ensures Total(v, i) == |Members(v[i..])|
    decreases |v| - i
  {
    if i < |v| {
      TotalIsCount(v, i + 1);
      EltCount(v[i]);
      assert v[i..][0] == v[i] && v[i..][1..] == v[i + 1..];
      forall b | b in EltSet(v[i]) ensures b !in Members(v[i + 1..]) {
        MembersHas(v[i + 1..], b);
      }
    }
  }

  /** bitmap_count_bits: the cardinality of the set. */
  method CountBits(a: Bitmap) returns (count: nat)
    requires a.Valid()
    ensures count == |a.Contents()|
  {
    hide Cursor, At, Canonical, Distinct, Elts, Bitmap.Valid, Bitmap.Inv, Bitmap.Chain, Bitmap.Cached, Members,
      PopCount, Sorted;
    CursorStart(a);
    TotalIsCount(a.view, 0);
    assert a.view[0..] == a.view;
    count := 0;
    var elt := a.first;
    ghost var i := 0;
    while elt != null
      invariant Cursor(a, elt, i) && i <= |a.view|
      invariant count + Total(a.view, i) == Total(a.view, 0)
      decreases |a.view| - i
    {
      CursorFacts(a, elt, i);
      var ix: nat := 0;
      ghost var before := count;
      while ix != ELEMENT_WORDS
        invariant ix <= ELEMENT_WORDS
        invariant count == before + (if ix > 0 then PopCount(elt.bits[0], WORD_BITS) else 0)
          + (if ix > 1 then PopCount(elt.bits[1], WORD_BITS) else 0)
      {
        count := count + PopCount(elt.bits[ix], WORD_BITS);
        ix := ix + 1;
      }
      elt, i := elt.next, i + 1;
    }
    CursorFacts(a, elt, i);
  }
}
