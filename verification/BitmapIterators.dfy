/** The bitmap iterators of bitmap.h. */
module BitmapIterators {
  import opened Helpers
  import opened Words
  import opened Elements
  import opened BitSets
  import opened Obstacks
  import opened Bitmaps
  import opened BitmapOps

  /** Whether an iterator delivers one bitmap, the intersection of two, or the first without the second. */
  datatype Kind = Only | Both | Without

  /** The words an iterator of this kind sees at an element of its first bitmap: y are the words of
      the second bitmap's element with the same index. */
  function Seen(kind: Kind, x: Bits, y: Bits): (r: Bits) {
    match kind
    case Only => x
    case Both => Combine(And, x, y)
    case Without => Combine(AndNot, x, y)
  }

  // ---- inside one element ----------------------------------------------------------------------

  /** bits is word word_no of element ix, shifted right so that bit bit_no is the lowest; a zero word
      is never left at its first bit. */
  ghost predicate OnWord(ix: nat, cur: Bits, word_no: nat, bits: Word, bit_no: nat) {
    var base := ix * ELEMENT_BITS + word_no * WORD_BITS;
    && word_no < ELEMENT_WORDS && base <= bit_no <= base + WORD_BITS
    && bits == Shr(cur[word_no], bit_no - base)
    && (bits == 0 ==> base < bit_no)
  }

  /** Nothing below bit_no remains to be delivered, and in element ix just what cur has from there. */
  ghost predicate Facing(todo: set<nat>, ix: nat, cur: Bits, bit_no: nat) {
    && (forall b :: b in todo ==> bit_no <= b)
    && (forall b: nat :: IndexOf(b) == ix && bit_no <= b ==> (b in todo <==> EltHas(Elt(ix, cur), b)))
  }

  ghost predicate Exhausted(todo: set<nat>, ix: nat) {
    forall b :: b in todo ==> IndexOf(b) != ix
  }

  /** About to look at word word_no of element ix; or done with all its words. */
  ghost predicate Scanning(todo: set<nat>, ix: nat, cur: Bits, word_no: nat, bit_no: nat) {
    if word_no == ELEMENT_WORDS then Exhausted(todo, ix)
    else
      word_no < ELEMENT_WORDS && bit_no == ix * ELEMENT_BITS + word_no * WORD_BITS && Facing(todo, ix, cur, bit_no)
  }

  lemma {:induction false} ShrHalf(w: nat, n: nat)
    ensures Shr(w, n + 1) == Shr(w, n) / 2
  {
    if n > 0 { ShrHalf(w / 2, n - 1); }
  }

  lemma {:induction false} ShrZero(w: nat, n: nat)
    requires w < Pow2(n)
    ensures Shr(w, n) == 0
  {
    if n > 0 { ShrZero(w / 2, n - 1); }
  }

  lemma ShrWord(w: Word)
    ensures Shr(w, WORD_BITS) == 0
  {
    Pow2Word();
    ShrZero(w, WORD_BITS);
  }

  /** The lowest bit of bits says whether bit_no is due. */
  lemma LowBit(todo: set<nat>, ix: nat, cur: Bits, word_no: nat, bits: Word, bit_no: nat)
    requires OnWord(ix, cur, word_no, bits, bit_no) && Facing(todo, ix, cur, bit_no) && bits != 0
    ensures bit_no < ix * ELEMENT_BITS + (word_no + 1) * WORD_BITS
    ensures IndexOf(bit_no) == ix
    ensures bits % 2 == 1 <==> bit_no in todo
  {
    var n := bit_no - (ix * ELEMENT_BITS + word_no * WORD_BITS);
    ShrWord(cur[word_no]);
    Located(ix, word_no, bit_no);
    BitShr(cur[word_no], n, 0);
  }

  lemma StepBit(ix: nat, cur: Bits, word_no: nat, bits: Word, bit_no: nat)
    requires OnWord(ix, cur, word_no, bits, bit_no) && bits != 0
    ensures OnWord(ix, cur, word_no, bits / 2, bit_no + 1)
  {
    ShrWord(cur[word_no]);
    ShrHalf(cur[word_no], bit_no - (ix * ELEMENT_BITS + word_no * WORD_BITS));
  }

  lemma FacingSkip(todo: set<nat>, ix: nat, cur: Bits, bit_no: nat, todo': set<nat>)
    requires Facing(todo, ix, cur, bit_no) && todo' == todo - {bit_no}
    ensures Facing(todo', ix, cur, bit_no + 1)
  {
  }

  /** next_bit: shift out zeros until the lowest bit is set. */
  method NextBit(bits0: Word, bit_no0: nat, ghost todo: set<nat>, ghost ix: nat, ghost cur: Bits, ghost word_no: nat)
    returns (bits: Word, bit_no: nat)
    requires OnWord(ix, cur, word_no, bits0, bit_no0) && Facing(todo, ix, cur, bit_no0) && bits0 != 0
    ensures OnWord(ix, cur, word_no, bits, bit_no) && Facing(todo, ix, cur, bit_no) && bits != 0
    ensures bit_no in todo && forall b :: b in todo ==> bit_no <= b
    ensures IndexOf(bit_no) == ix
  {
    hide OnWord, EltHas;
    bits, bit_no := bits0, bit_no0;
    LowBit(todo, ix, cur, word_no, bits, bit_no);
    while bits % 2 == 0
      invariant OnWord(ix, cur, word_no, bits, bit_no) && Facing(todo, ix, cur, bit_no) && bits != 0
      invariant bits % 2 == 1 <==> bit_no in todo
      invariant IndexOf(bit_no) == ix
      decreases bits
    {
      StepBit(ix, cur, word_no, bits, bit_no);
      FacingSkip(todo, ix, cur, bit_no, todo);
      bits := bits / 2;
      bit_no := bit_no + 1;
      LowBit(todo, ix, cur, word_no, bits, bit_no);
    }
  }

  lemma Rounding(q: nat, n: nat)
    requires q * WORD_BITS < n <= (q + 1) * WORD_BITS
    ensures (n + WORD_BITS - 1) / WORD_BITS * WORD_BITS == (q + 1) * WORD_BITS
  {
    assert (n + WORD_BITS - 1) / WORD_BITS == q + 1;
  }

  /** A word used up: rounding up gives the start of the next word. */
  lemma RoundUp(todo: set<nat>, ix: nat, cur: Bits, word_no: nat, bit_no: nat)
    requires OnWord(ix, cur, word_no, 0, bit_no) && Facing(todo, ix, cur, bit_no)
    ensures Scanning(todo, ix, cur, word_no + 1, (bit_no + WORD_BITS - 1) / WORD_BITS * WORD_BITS)
  {
    var base := ix * ELEMENT_BITS + word_no * WORD_BITS;
    var up := base + WORD_BITS;
    Rounding(ix * ELEMENT_WORDS + word_no, bit_no);
    forall b | b in todo ensures up <= b {
      if b < up {
        Located(ix, word_no, b);
        BitShr(cur[word_no], bit_no - base, b - bit_no);
        ZeroBits(b - bit_no);
      }
    }
  }

  lemma ZeroWord(todo: set<nat>, ix: nat, cur: Bits, word_no: nat)
    requires word_no < ELEMENT_WORDS && cur[word_no] == 0
    requires Facing(todo, ix, cur, ix * ELEMENT_BITS + word_no * WORD_BITS)
    ensures Scanning(todo, ix, cur, word_no + 1, ix * ELEMENT_BITS + (word_no + 1) * WORD_BITS)
  {
    forall b | b in todo ensures ix * ELEMENT_BITS + (word_no + 1) * WORD_BITS <= b {
      if b < ix * ELEMENT_BITS + (word_no + 1) * WORD_BITS {
        Located(ix, word_no, b);
        ZeroBits(b % WORD_BITS);
      }
    }
  }

  /** The word loop: the next nonzero word of the element, if there is one. */
  method FindWord(kind: Kind, x: Bits, y: Bits, word_no0: nat, bit_no0: nat, ghost todo: set<nat>, ghost ix: nat)
    returns (word_no: nat, bits: Word, bit_no: nat)
    requires Scanning(todo, ix, Seen(kind, x, y), word_no0, bit_no0)
    ensures word_no0 == ELEMENT_WORDS ==> word_no == ELEMENT_WORDS
    ensures if word_no == ELEMENT_WORDS then Exhausted(todo, ix)
            else
              bits != 0 && OnWord(ix, Seen(kind, x, y), word_no, bits, bit_no) &&
              Facing(todo, ix, Seen(kind, x, y), bit_no)
  {
    hide EltHas, Apply, Facing, Exhausted;
    word_no, bit_no, bits := word_no0, bit_no0, 0;
    while word_no != ELEMENT_WORDS
      invariant Scanning(todo, ix, Seen(kind, x, y), word_no, bit_no)
      decreases ELEMENT_WORDS - word_no
    {
      bits := x[word_no];
      if kind == Both {
        bits := Apply(And, bits, y[word_no]);
      } else if kind == Without {
        bits := Apply(AndNot, bits, y[word_no]);
      }
      if bits != 0 {
        return;
      }
      ZeroWord(todo, ix, Seen(kind, x, y), word_no);
      bit_no := bit_no + WORD_BITS;
      word_no := word_no + 1;
    }
  }

  // ---- along the element lists -----------------------------------------------------------------

  /** The set an iterator of this kind runs over. */
  ghost function Target(kind: Kind, v1: seq<Elt>, v2: seq<Elt>): set<nat> {
    match kind
    case Only => Members(v1)
    case Both => Members(v1) * Members(v2)
    case Without => Members(v1) - Members(v2)
  }

  /** Past its end a list goes on with the all-zero element of index 0, bitmap_zero_bits. */
  ghost function IndxAt(v: seq<Elt>, i: nat): nat {
    if i < |v| then v[i].indx else 0
  }

  ghost function BitsAt(v: seq<Elt>, i: nat): Bits {
    if i < |v| then v[i].bits else ZERO_BITS
  }

  ghost function CurAt(kind: Kind, v1: seq<Elt>, i: nat, v2: seq<Elt>, j: nat): Bits {
    match kind
    case Only => BitsAt(v1, i)
    case Both => Seen(Both, BitsAt(v1, i), BitsAt(v2, j))
    case Without =>
      if j < |v2| && v2[j].indx == IndxAt(v1, i) then Seen(Without, BitsAt(v1, i), v2[j].bits) else BitsAt(v1, i)
  }

  /** What remains is what the target has in v1[i..]. */
  ghost predicate About(todo: set<nat>, s: set<nat>, v1: seq<Elt>, i: nat) {
    forall b: nat :: b in todo <==> b in s && HasFrom(v1, i, b)
  }

  /** Outside element ix what remains is what the target has behind v1[i]. */
  ghost predicate Ahead(todo: set<nat>, s: set<nat>, v1: seq<Elt>, i: nat, ix: nat) {
    forall b: nat :: IndexOf(b) != ix ==> (b in todo <==> b in s && HasFrom(v1, i + 1, b))
  }

  /** v2[j] is the first element of v2 with an index not below ix. */
  ghost predicate Abreast(v2: seq<Elt>, j: nat, ix: nat) {
    && j <= |v2| && (forall l :: 0 <= l < j ==> v2[l].indx < ix)
    && (j < |v2| ==> ix <= v2[j].indx)
  }

  lemma SecondHas(v2: seq<Elt>, j: nat, b: nat)
    requires Sorted(v2) && Abreast(v2, j, IndexOf(b))
    ensures b in Members(v2) <==> j < |v2| && v2[j].indx == IndexOf(b) && EltHas(v2[j], b)
  {
    MembersHas(v2, b);
    if j < |v2| && v2[j].indx == IndexOf(b) {
      PresentHas(v2, j, b);
    }
  }

  lemma FirstHas(v1: seq<Elt>, i: nat, b: nat)
    requires Sorted(v1) && i < |v1|
    ensures HasFrom(v1, i, b) <==> EltHas(v1[i], b) || HasFrom(v1, i + 1, b)
    ensures HasFrom(v1, i, b) ==> v1[i].indx <= IndexOf(b) && b in Members(v1)
    ensures HasFrom(v1, i + 1, b) ==> v1[i].indx < IndexOf(b)
    ensures IndexOf(b) == v1[i].indx ==>
      (b in Members(v1) <==> EltHas(v1[i], b)) && (HasFrom(v1, i, b) <==> EltHas(v1[i], b))
  {
    MembersHas(v1, b);
    if IndexOf(b) == v1[i].indx { PresentHas(v1, i, b); }
  }

  lemma SeenHas(kind: Kind, ix: nat, x: Bits, y: Bits, b: nat)
    requires IndexOf(b) == ix
    ensures EltHas(Elt(ix, Seen(Both, x, y)), b) <==> EltHas(Elt(ix, x), b) && EltHas(Elt(ix, y), b)
    ensures EltHas(Elt(ix, Seen(Without, x, y)), b) <==> EltHas(Elt(ix, x), b) && !EltHas(Elt(ix, y), b)
  {
    CombineHas(And, Elt(ix, x), Elt(ix, y), b);
    CombineHas(AndNot, Elt(ix, x), Elt(ix, y), b);
  }

  /** In the element at position i the target is what CurAt shows. */
  lemma TargetHas(kind: Kind, v1: seq<Elt>, i: nat, v2: seq<Elt>, j: nat, b: nat)
    requires Sorted(v1) && Sorted(v2) && i < |v1| && IndexOf(b) == v1[i].indx
    requires kind != Only ==> Abreast(v2, j, v1[i].indx)
    requires kind == Both ==> j < |v2| && v2[j].indx == v1[i].indx
    ensures b in Target(kind, v1, v2) <==> EltHas(Elt(v1[i].indx, CurAt(kind, v1, i, v2, j)), b)
  {
    hide EltHas, Members, HasFrom;
    FirstHas(v1, i, b);
    if kind != Only { SecondHas(v2, j, b); }
    SeenHas(kind, v1[i].indx, BitsAt(v1, i), BitsAt(v2, j), b);
  }

  /** What is due from start on, once elements before that of start have been passed over. */
  ghost predicate Due(todo: set<nat>, s: set<nat>, v1: seq<Elt>, i: nat, start: nat) {
    forall b: nat :: b in todo <==> b in s && start <= b && HasFrom(v1, i, b)
  }

  lemma OfIndex(e: Elt, b: nat)
    ensures EltHas(e, b) ==> IndexOf(b) == e.indx
  {
  }

  lemma InFirst(kind: Kind, v1: seq<Elt>, v2: seq<Elt>, b: nat)
    ensures b in Target(kind, v1, v2) ==> b in Members(v1)
  {
  }

  /** Entering element i, at start if that lies in it and otherwise at its first bit. */
  lemma Enter(kind: Kind, todo: set<nat>, v1: seq<Elt>, i: nat, v2: seq<Elt>, j: nat, start: nat)
    requires Sorted(v1) && Sorted(v2) && i < |v1| && IndexOf(start) <= v1[i].indx
    requires kind != Only ==> Abreast(v2, j, v1[i].indx)
    requires kind == Both ==> j < |v2| && v2[j].indx == v1[i].indx
    requires Due(todo, Target(kind, v1, v2), v1, i, start)
    ensures
      var ix := v1[i].indx;
      && Facing(todo, ix, CurAt(kind, v1, i, v2, j), if IndexOf(start) == ix then start else ix * ELEMENT_BITS)
      && Ahead(todo, Target(kind, v1, v2), v1, i, ix)
  {
    hide EltHas, Members, HasFrom, Target, CurAt;
    var ix := v1[i].indx;
    var from := if IndexOf(start) == ix then start else ix * ELEMENT_BITS;
    forall b: nat
      ensures b in todo ==> from <= b
      ensures IndexOf(b) == ix && from <= b ==> (b in todo <==> EltHas(Elt(ix, CurAt(kind, v1, i, v2, j)), b))
      ensures IndexOf(b) != ix ==> (b in todo <==> b in Target(kind, v1, v2) && HasFrom(v1, i + 1, b))
    {
      FirstHas(v1, i, b);
      OfIndex(v1[i], b);
      if IndexOf(b) == ix {
        TargetHas(kind, v1, i, v2, j, b);
        InFirst(kind, v1, v2, b);
      }
    }
  }

  lemma Leave(todo: set<nat>, s: set<nat>, v1: seq<Elt>, i: nat, ix: nat)
    requires Sorted(v1) && ix == IndxAt(v1, i) && Ahead(todo, s, v1, i, ix) && Exhausted(todo, ix)
    ensures About(todo, s, v1, i + 1)
  {
    forall b: nat ensures b in todo <==> b in s && HasFrom(v1, i + 1, b) {
      if i < |v1| { FirstHas(v1, i, b); }
    }
  }

  lemma AboutDue(todo: set<nat>, s: set<nat>, v1: seq<Elt>, i: nat)
    requires About(todo, s, v1, i)
    ensures Due(todo, s, v1, i, 0)
    ensures i >= |v1| ==> todo == {}
  {
  }

  lemma DueAbout(todo: set<nat>, s: set<nat>, v1: seq<Elt>, i: nat, start: nat)
    requires Due(todo, s, v1, i + 1, start) && Sorted(v1) && i < |v1| && IndexOf(start) <= v1[i].indx
    ensures About(todo, s, v1, i + 1)
  {
    var k := i + 1;
    forall b: nat | HasFrom(v1, k, b) ensures start <= b { FirstHas(v1, i, b); }
  }

  lemma AboutAhead(todo: set<nat>, s: set<nat>, v1: seq<Elt>, i: nat)
    requires About(todo, s, v1, i + 1) && Sorted(v1) && i < |v1|
    ensures Ahead(todo, s, v1, i, v1[i].indx) && Exhausted(todo, v1[i].indx)
  {
    forall b: nat | b in todo ensures IndexOf(b) != v1[i].indx { FirstHas(v1, i, b); }
  }

  lemma PastEnd(v2: seq<Elt>, b: nat, ix: nat)
    requires Sorted(v2) && Abreast(v2, |v2|, ix) && ix <= IndexOf(b)
    ensures b !in Members(v2)
  {
    MembersHas(v2, b);
  }

  /** An element of v1 with no partner in v2 adds nothing to the intersection. */
  lemma NoPartner(todo: set<nat>, v1: seq<Elt>, i: nat, v2: seq<Elt>, j: nat, start: nat)
    requires Sorted(v1) && Sorted(v2) && i < |v1| && Abreast(v2, j, v1[i].indx)
    requires j < |v2| ==> v2[j].indx != v1[i].indx
    requires Due(todo, Target(Both, v1, v2), v1, i, start)
    ensures Due(todo, Target(Both, v1, v2), v1, i + 1, start)
    ensures j == |v2| ==> todo == {}
  {
    hide EltHas, Members, HasFrom;
    forall b: nat | b in todo ensures HasFrom(v1, i + 1, b) && j < |v2| {
      FirstHas(v1, i, b);
      OfIndex(v1[i], b);
      if IndexOf(b) == v1[i].indx { SecondHas(v2, j, b); }
      if j == |v2| { PastEnd(v2, b, v1[i].indx); }
    }
    forall b: nat | b in Target(Both, v1, v2) && HasFrom(v1, i + 1, b) && start <= b ensures b in todo {
      FirstHas(v1, i, b);
    }
  }

  /** If the word has nothing left from start on, start itself is not due. */
  lemma NotDue(todo: set<nat>, ix: nat, cur: Bits, start: nat)
    requires IndexOf(start) == ix && Facing(todo, ix, cur, start) && Shr(cur[WordOf(start)], start % WORD_BITS) == 0
    ensures Facing(todo, ix, cur, start + 1)
  {
    hide EltHas, IndexOf, WordOf;
    BitShr(cur[WordOf(start)], start % WORD_BITS, 0);
    EltHasBit(Elt(ix, cur), start);
    FacingSkip(todo, ix, cur, start, todo - {start});
    assert start !in todo;
    assert todo - {start} == todo;
  }

  /** The start of an iteration inside an element: a zero word must not leave bit_no at a word boundary. */
  lemma Begin(todo: set<nat>, ix: nat, cur: Bits, start: nat)
    requires IndexOf(start) == ix && Facing(todo, ix, cur, start)
    ensures
      var bits := Shr(cur[WordOf(start)], start % WORD_BITS);
      var bit_no := if bits == 0 then start + 1 else start;
      OnWord(ix, cur, WordOf(start), bits, bit_no) && Facing(todo, ix, cur, bit_no)
  {
    hide EltHas, Facing, Shr, Bit, IndexOf, WordOf;
    var w := cur[WordOf(start)];
    Address(start);
    ShrHalf(w, start % WORD_BITS);
    if Shr(w, start % WORD_BITS) == 0 { NotDue(todo, ix, cur, start); }
  }

  /** What an iteration from start has to deliver. */
  ghost function Wanted(s: set<nat>, start: nat): (w: set<nat>)
    ensures forall b :: b in w <==> b in s && start <= b
  {
    set b | b in s && start <= b
  }

  lemma WantedDue(kind: Kind, v1: seq<Elt>, i: nat, v2: seq<Elt>, start: nat)
    requires Sorted(v1) && Abreast(v1, i, IndexOf(start))
    ensures Due(Wanted(Target(kind, v1, v2), start), Target(kind, v1, v2), v1, i, start)
    ensures i == |v1| ==> Wanted(Target(kind, v1, v2), start) == {}
  {
    var s := Target(kind, v1, v2);
    forall b: nat | b in s && start <= b ensures HasFrom(v1, i, b) {
      InFirst(kind, v1, v2, b);
      MembersHas(v1, b);
      assert IndexOf(start) <= IndexOf(b);
      assert forall k :: 0 <= k < i ==> !EltHas(v1[k], b);
    }
  }

  /** Past the end nothing is left, and the all-zero element shows nothing. */
  lemma AtEnd(kind: Kind, v1: seq<Elt>, v2: seq<Elt>, j: nat, from: nat)
    requires kind == Both ==> j == |v2|
    ensures Facing({}, 0, CurAt(kind, v1, |v1|, v2, j), from)
    ensures Ahead({}, Target(kind, v1, v2), v1, |v1|, 0)
  {
    hide EltHas;
    forall b: nat | IndexOf(b) == 0 ensures !EltHas(Elt(0, CurAt(kind, v1, |v1|, v2, j)), b) {
      ZeroHasNothing(Elt(0, ZERO_BITS), b);
      SeenHas(kind, 0, ZERO_BITS, BitsAt(v2, j), b);
    }
  }

  /** The word with the start bit, shifted down to it. */
  method Load(kind: Kind, x: Bits, y: Bits, start_bit: nat, ghost todo: set<nat>, ghost ix: nat)
    returns (word_no: nat, bits: Word, bit_no: nat)
    requires IndexOf(start_bit) == ix && Facing(todo, ix, Seen(kind, x, y), start_bit)
    ensures OnWord(ix, Seen(kind, x, y), word_no, bits, bit_no) && Facing(todo, ix, Seen(kind, x, y), bit_no)
  {
    hide Facing, OnWord, Apply, Shr;
    word_no := start_bit / WORD_BITS % ELEMENT_WORDS;
    bits := x[word_no];
    if kind == Both {
      bits := Apply(And, bits, y[word_no]);
    } else if kind == Without {
      bits := Apply(AndNot, bits, y[word_no]);
    }
    bits := Shr(bits, start_bit % WORD_BITS);
    Begin(todo, ix, Seen(kind, x, y), start_bit);
    bit_no := start_bit + if bits == 0 then 1 else 0;
  }

  /** Walk along m from e until the index is not below bound. */
  method SkipTo(m: Bitmap, e0: Element?, ghost i0: nat, bound: nat) returns (e: Element?, ghost i: nat)
    requires Cursor(m, e0, i0) && forall l :: 0 <= l < i0 ==> m.view[l].indx < bound
    ensures Cursor(m, e, i) && Abreast(m.view, i, bound) && i >= i0
    ensures e == null <==> i == |m.view|
    ensures e != null ==> e.indx == m.view[i].indx && e.bits == m.view[i].bits
  {
    hide Cursor;
    e, i := e0, i0;
    CursorFacts(m, e, i);
    while e != null && e.indx < bound
      invariant Cursor(m, e, i) && i0 <= i <= |m.view| && (e == null <==> i == |m.view|)
      invariant e != null ==> e.indx == m.view[i].indx && e.bits == m.view[i].bits
      invariant forall l :: 0 <= l < i ==> m.view[l].indx < bound
      decreases |m.view| - i
    {
      CursorFacts(m, e, i);
      e, i := e.next, i + 1;
      CursorFacts(m, e, i);
    }
  }

  /** bitmap_zero_bits. */
  ghost predicate IsZero(zero: Element)
    reads zero
  {
    zero.next == null && zero.indx == 0 && zero.bits == ZERO_BITS
  }

  /** e is the element of m at position i, or zero at its end. */
  ghost predicate Standing(m: Bitmap, e: Element?, i: nat, zero: Element)
    reads m, m.repr
  {
    if i == |m.view| then m.Valid() && e == zero else Cursor(m, e, i)
  }

  lemma StandingFacts(m: Bitmap, e: Element?, i: nat, zero: Element)
    requires Standing(m, e, i, zero) && IsZero(zero)
    ensures i <= |m.view| && e != null && (e == zero || e in m.repr) && Canonical(m.view) && m in m.repr
    ensures e.indx == IndxAt(m.view, i) && e.bits == BitsAt(m.view, i)
    ensures if i < |m.view| then Cursor(m, e.next, i + 1) else e.next == null
  {
    CursorStart(m);
    if i < |m.view| { CursorFacts(m, e, i); }
  }

  /** The state of an iterator between calls. */
  ghost predicate Within(kind: Kind, v1: seq<Elt>, i: nat, v2: seq<Elt>, j: nat,
                         word_no: nat, bits: Word, bit_no: nat, todo: set<nat>) {
    var ix := IndxAt(v1, i);
    && i <= |v1| && j <= |v2|
    && Ahead(todo, Target(kind, v1, v2), v1, i, ix)
    && (kind != Only && i < |v1| ==> Abreast(v2, j, ix))
    && (kind == Both ==> (i == |v1| <==> j == |v2|))
    && if kind == Both && i < |v1| && v2[j].indx != ix then
         Exhausted(todo, ix) && bits == 0 && word_no == ELEMENT_WORDS - 1
       else
         OnWord(ix, CurAt(kind, v1, i, v2, j), word_no, bits, bit_no) &&
           Facing(todo, ix, CurAt(kind, v1, i, v2, j), bit_no)
  }

  lemma WithinWord(kind: Kind, v1: seq<Elt>, i: nat, v2: seq<Elt>, j: nat,
                   word_no: nat, bits: Word, bit_no: nat, todo: set<nat>)
    requires i <= |v1| && j <= |v2| && Ahead(todo, Target(kind, v1, v2), v1, i, IndxAt(v1, i))
    requires kind != Only && i < |v1| ==> Abreast(v2, j, v1[i].indx)
    requires kind == Both ==> if i < |v1| then j < |v2| && v2[j].indx == v1[i].indx else j == |v2|
    requires OnWord(IndxAt(v1, i), CurAt(kind, v1, i, v2, j), word_no, bits, bit_no)
    requires Facing(todo, IndxAt(v1, i), CurAt(kind, v1, i, v2, j), bit_no)
    ensures Within(kind, v1, i, v2, j, word_no, bits, bit_no, todo)
  {
  }

  lemma WithoutAt(v1: seq<Elt>, k: nat, v2: seq<Elt>, l: nat)
    ensures CurAt(Without, v1, k, v2, l) ==
      if l < |v2| && v2[l].indx == IndxAt(v1, k) then Seen(Without, BitsAt(v1, k), v2[l].bits)
      else Seen(Only, BitsAt(v1, k), ZERO_BITS)
  {
  }

  /** The word loop of bmp_iter_and_compl, which looks at elt2 only if it has elt1's index. */
  method FindWithout(e1: Element, ghost v1: seq<Elt>, ghost k: nat, m2: Bitmap, e2: Element?, ghost l: nat,
                     word_no0: nat, bit_no0: nat, ghost todo: set<nat>)
    returns (word_no: nat, bits: Word, bit_no: nat)
    requires e1.indx == IndxAt(v1, k) && e1.bits == BitsAt(v1, k) && Cursor(m2, e2, l)
    requires Scanning(todo, e1.indx, CurAt(Without, v1, k, m2.view, l), word_no0, bit_no0)
    ensures word_no0 == ELEMENT_WORDS ==> word_no == ELEMENT_WORDS
    ensures if word_no == ELEMENT_WORDS then Exhausted(todo, e1.indx)
            else
              && bits != 0 && OnWord(e1.indx, CurAt(Without, v1, k, m2.view, l), word_no, bits, bit_no)
              && Facing(todo, e1.indx, CurAt(Without, v1, k, m2.view, l), bit_no)
  {
    hide Cursor, Scanning, Facing, OnWord, Exhausted, CurAt, Seen, Bitmap.Valid;
    CursorFacts(m2, e2, l);
    WithoutAt(v1, k, m2.view, l);
    if e2 != null && e2.indx == e1.indx {
      word_no, bits, bit_no := FindWord(Without, e1.bits, e2.bits, word_no0, bit_no0, todo, e1.indx);
    } else {
      word_no, bits, bit_no := FindWord(Only, e1.bits, ZERO_BITS, word_no0, bit_no0, todo, e1.indx);
    }
  }

  lemma ScanStart(todo: set<nat>, ix: nat, cur: Bits, bit_no: nat)
    requires Facing(todo, ix, cur, bit_no) && bit_no == ix * ELEMENT_BITS
    ensures Scanning(todo, ix, cur, 0, bit_no)
  {
  }

  lemma BehindMore(v1: seq<Elt>, k: nat, v2: seq<Elt>, l: nat)
    requires Sorted(v1) && (k < |v1| ==> Abreast(v2, l, v1[k].indx))
    ensures k + 1 < |v1| ==> l <= |v2| && forall q :: 0 <= q < l ==> v2[q].indx < v1[k + 1].indx
  {
  }

  lemma BothAt(v1: seq<Elt>, k: nat, v2: seq<Elt>, l: nat)
    ensures CurAt(Both, v1, k, v2, l) == Seen(Both, BitsAt(v1, k), BitsAt(v2, l))
  {
  }

  /** The intersection is used up as soon as either list is. */
  lemma NothingLeft(v1: seq<Elt>, k: nat, v2: seq<Elt>, l: nat, start: nat)
    requires Sorted(v1) && Sorted(v2) && Abreast(v1, k, IndexOf(start))
    requires k < |v1| ==> Abreast(v2, l, v1[k].indx)
    ensures k == |v1| || l == |v2| ==> Wanted(Members(v1) * Members(v2), start) == {}
  {
    hide Members, Wanted, Abreast, Sorted;
    WantedDue(Both, v1, k, v2, start);
    if k < |v1| && l == |v2| {
      NoPartner(Wanted(Target(Both, v1, v2), start), v1, k, v2, l, start);
    }
  }

  /** Otherwise we must immediately advance elt1. */
  lemma WithinSpent(v1: seq<Elt>, k: nat, v2: seq<Elt>, l: nat, start: nat, bit_no: nat, todo: set<nat>)
    requires Sorted(v1) && Sorted(v2) && Abreast(v1, k, IndexOf(start)) && k < |v1|
    requires l < |v2| && Abreast(v2, l, v1[k].indx) && v1[k].indx != v2[l].indx
    requires todo == Wanted(Target(Both, v1, v2), start)
    ensures Within(Both, v1, k, v2, l, ELEMENT_WORDS - 1, 0, bit_no, todo)
  {
    hide Target, Wanted, Due, About, Ahead, Exhausted;
    WantedDue(Both, v1, k, v2, start);
    NoPartner(todo, v1, k, v2, l, start);
    DueAbout(todo, Target(Both, v1, v2), v1, k, start);
    AboutAhead(todo, Target(Both, v1, v2), v1, k);
  }

  /** One element on, and then past those below the element of the other list. */
  method NotBelow(m1: Bitmap, first: Element, ghost k0: nat, ghost v2: seq<Elt>, ghost l: nat, bound: nat,
                  zero: Element, ghost todo: set<nat>)
    returns (e1: Element?, ghost k: nat)
    requires Standing(m1, first, k0, zero) && IsZero(zero) && Sorted(v2)
    requires k0 < |m1.view| ==> l < |v2| && v2[l].indx == bound && Abreast(v2, l, m1.view[k0].indx)
    requires About(todo, Target(Both, m1.view, v2), m1.view, k0 + 1)
    ensures e1 == null ==> todo == {}
    ensures e1 != null ==>
      && k0 < k < |m1.view| && Cursor(m1, e1, k) && e1.indx == m1.view[k].indx && e1.indx >= bound
      && About(todo, Target(Both, m1.view, v2), m1.view, k) && forall q :: 0 <= q < l ==> v2[q].indx < e1.indx
  {
    hide Cursor, Standing, Bitmap.Valid, Elts, Members, Target, About, Due, NonZero, IsZero;
    StandingFacts(m1, first, k0, zero);
    e1, k := first.next, k0 + 1;
    AboutDue(todo, Target(Both, m1.view, v2), m1.view, k);
    if k0 < |m1.view| { CursorFacts(m1, e1, k); }
    while e1 != null && e1.indx < bound
      invariant e1 == null ==> todo == {}
      invariant e1 != null ==> k0 < k < |m1.view| && Cursor(m1, e1, k) && e1.indx == m1.view[k].indx
      invariant About(todo, Target(Both, m1.view, v2), m1.view, k)
      decreases |m1.view| - k
    {
      CursorFacts(m1, e1, k);
      AboutDue(todo, Target(Both, m1.view, v2), m1.view, k);
      NoPartner(todo, m1.view, k, v2, l, 0);
      DueAbout(todo, Target(Both, m1.view, v2), m1.view, k, 0);
      e1, k := e1.next, k + 1;
      CursorFacts(m1, e1, k);
      AboutDue(todo, Target(Both, m1.view, v2), m1.view, k);
    }
  }

  /** On to the next index that both lists have. */
  method AdvanceBoth(m1: Bitmap, m2: Bitmap, first: Element, ghost k0: nat, second: Element, ghost l0: nat,
                     zero: Element, ghost todo: set<nat>)
    returns (ok: bool, e1: Element?, ghost k: nat, e2: Element?, ghost l: nat)
    requires Standing(m1, first, k0, zero) && Standing(m2, second, l0, zero) && IsZero(zero)
    requires k0 == |m1.view| <==> l0 == |m2.view|
    requires k0 < |m1.view| ==> Abreast(m2.view, l0, m1.view[k0].indx)
    requires About(todo, Target(Both, m1.view, m2.view), m1.view, k0 + 1)
    ensures if ok then
        && k0 < k < |m1.view| && l < |m2.view| && Cursor(m1, e1, k) && Cursor(m2, e2, l)
        && e1 != null && e2 != null && e1.indx == m1.view[k].indx == m2.view[l].indx
        && Abreast(m2.view, l, m1.view[k].indx) && Due(todo, Target(Both, m1.view, m2.view), m1.view, k, 0)
      else todo == {}
  {
    hide Cursor, Bitmap.Valid, Elts, Members, Target, IsZero, About, Due;
    ghost var v1, v2 := m1.view, m2.view;
    e1, k, e2, l := first, k0, second, l0;
    while true
      invariant Standing(m1, e1, k, zero) && Standing(m2, e2, l, zero) && (k == |v1| <==> l == |v2|)
      invariant k0 <= k && (k < |v1| ==> Abreast(v2, l, v1[k].indx))
      invariant About(todo, Target(Both, v1, v2), v1, k + 1)
      decreases |v1| - k
    {
      StandingFacts(m1, e1, k, zero);
      StandingFacts(m2, e2, l, zero);
      e1, k := NotBelow(m1, e1, k, v2, l, e2.indx, zero, todo);
      if e1 == null {
        return false, e1, k, e2, l;
      }
      AboutDue(todo, Target(Both, v1, v2), v1, k);
      e2, l := SkipTo(m2, e2, l, e1.indx);
      if e2 == null {
        NoPartner(todo, v1, k, v2, l, 0);
        return false, e1, k, e2, l;
      }
      if e1.indx == e2.indx {
        return true, e1, k, e2, l;
      }
      NoPartner(todo, v1, k, v2, l, 0);
      DueAbout(todo, Target(Both, v1, v2), v1, k, 0);
    }
  }

  lemma WithinFacts(kind: Kind, v1: seq<Elt>, i: nat, v2: seq<Elt>, j: nat,
                   word_no: nat, bits: Word, bit_no: nat, todo: set<nat>)
    requires Within(kind, v1, i, v2, j, word_no, bits, bit_no, todo)
    ensures i <= |v1| && j <= |v2| && word_no < ELEMENT_WORDS
    ensures Ahead(todo, Target(kind, v1, v2), v1, i, IndxAt(v1, i))
    ensures kind != Both || i == |v1| || v2[j].indx == v1[i].indx ==>
      && OnWord(IndxAt(v1, i), CurAt(kind, v1, i, v2, j), word_no, bits, bit_no)
      && Facing(todo, IndxAt(v1, i), CurAt(kind, v1, i, v2, j), bit_no)
    ensures !(kind != Both || i == |v1| || v2[j].indx == v1[i].indx) ==>
      Exhausted(todo, IndxAt(v1, i)) && bits == 0 && word_no == ELEMENT_WORDS - 1
    ensures kind != Only && i < |v1| ==> Abreast(v2, j, v1[i].indx)
    ensures kind == Both ==> (i == |v1| <==> j == |v2|)
  {
  }

  lemma WithinNext(kind: Kind, v1: seq<Elt>, i: nat, v2: seq<Elt>, j: nat,
                   word_no: nat, bits: Word, bit_no: nat, todo: set<nat>)
    requires Within(kind, v1, i, v2, j, word_no, bits, bit_no, todo) && bits != 0
    ensures Within(kind, v1, i, v2, j, word_no, bits / 2, bit_no + 1, todo - {bit_no})
  {
    hide OnWord, Facing, CurAt, Abreast;
    var ix, cur := IndxAt(v1, i), CurAt(kind, v1, i, v2, j);
    LowBit(todo, ix, cur, word_no, bits, bit_no);
    StepBit(ix, cur, word_no, bits, bit_no);
    FacingSkip(todo, ix, cur, bit_no, todo - {bit_no});
  }

  lemma ValidFrame(m: Bitmap)
    requires m.Valid()
    ensures m in m.repr
  {
  }

  lemma InitFacing(kind: Kind, v1: seq<Elt>, i: nat, v2: seq<Elt>, j: nat, start: nat, todo: set<nat>)
    requires Sorted(v1) && Sorted(v2) && i <= |v1| && Abreast(v1, i, IndexOf(start))
    requires kind != Only && i < |v1| ==> Abreast(v2, j, v1[i].indx)
    requires kind == Both ==> if i < |v1| then j < |v2| && v2[j].indx == v1[i].indx else j == |v2|
    requires todo == Wanted(Target(kind, v1, v2), start)
    ensures
      var ix := IndxAt(v1, i);
      && Facing(todo, ix, CurAt(kind, v1, i, v2, j), if IndexOf(start) == ix then start else ix * ELEMENT_BITS)
      && Ahead(todo, Target(kind, v1, v2), v1, i, ix)
  {
    hide Due, Facing, Ahead, CurAt, Target, Wanted;
    WantedDue(kind, v1, i, v2, start);
    if i < |v1| {
      Enter(kind, todo, v1, i, v2, j, start);
    } else {
      AtEnd(kind, v1, v2, j, if IndexOf(start) == 0 then start else 0);
    }
  }

  /** bitmap_iterator. */
  class BitmapIterator {
    var elt1: Element?
    var elt2: Element?
    var word_no: nat
    var bits: Word
    ghost var i: nat
    ghost var j: nat
    ghost var todo: set<nat>

    constructor () {
      elt1, elt2, word_no, bits := null, null, 0, 0;
    }

    ghost predicate Valid(kind: Kind, m1: Bitmap, m2: Bitmap, zero: Element, bit_no: nat)
      reads this, m1, m1.repr, m2, m2.repr, zero
    {
      && m1.Valid() && m2.Valid() && IsZero(zero) && this !in m1.repr && this !in m2.repr
      && Standing(m1, elt1, i, zero)
      && (kind == Both ==> Standing(m2, elt2, j, zero))
      && (kind == Without ==> Cursor(m2, elt2, j))
      && Within(kind, m1.view, i, m2.view, j, word_no, bits, bit_no, todo)
    }

    /** Write the fields back. */
    method Put(e1: Element?, e2: Element?, w: nat, b: Word, ghost pos1: nat, ghost pos2: nat, ghost due: set<nat>)
      modifies this
      ensures elt1 == e1 && elt2 == e2 && word_no == w && bits == b && i == pos1 && j == pos2 && todo == due
    {
      elt1, elt2, word_no, bits, i, j, todo := e1, e2, w, b, pos1, pos2, due;
    }

    /** ... and be ready for the next call, if live. */
    method Settle(e1: Element?, e2: Element?, w: nat, b: Word, ghost pos1: nat, ghost pos2: nat, ghost due: set<nat>,
                  ghost live: bool, ghost kind: Kind, m1: Bitmap, m2: Bitmap, zero: Element, bit_no: nat)
      requires m1.Valid() && m2.Valid() && IsZero(zero) && this !in m1.repr && this !in m2.repr
      requires live ==> Standing(m1, e1, pos1, zero) && Within(kind, m1.view, pos1, m2.view, pos2, w, b, bit_no, due)
      requires live && kind == Both ==> Standing(m2, e2, pos2, zero)
      requires live && kind == Without ==> Cursor(m2, e2, pos2)
      modifies this
      ensures bits == b && todo == due
      ensures live ==> Valid(kind, m1, m2, zero, bit_no)
    {
      hide Cursor, Standing, Within, IsZero, Bitmap.Valid, Elts;
      ValidFrame(m1);
      ValidFrame(m2);
      Put(e1, e2, w, b, pos1, pos2, due);
    }

    /** bmp_iter_set_init. */
    method SetInit(m: Bitmap, start_bit0: nat, zero: Element) returns (bit_no: nat)
      requires m.Valid() && IsZero(zero) && this !in m.repr
      modifies this
      ensures Valid(Only, m, m, zero, bit_no)
      ensures todo == Wanted(m.Contents(), start_bit0)
    {
      hide Cursor, Due, Facing, Ahead, OnWord, Abreast, Elts, Distinct, Bitmap.Valid, Members, Sorted, NonZero, Shr,
        Wanted, Within;
      var start_bit := start_bit0;
      CursorStart(m);
      var e1, k := SkipTo(m, m.first, 0, start_bit / ELEMENT_BITS);
      CursorFacts(m, e1, k);
      ghost var due := Wanted(m.Contents(), start_bit);
      if e1 == null {
        e1 := zero;
      }
      if e1.indx != start_bit / ELEMENT_BITS {
        start_bit := e1.indx * ELEMENT_BITS;
      }
      InitFacing(Only, m.view, k, m.view, 0, start_bit0, due);
      var w, bs;
      w, bs, bit_no := Load(Only, e1.bits, ZERO_BITS, start_bit, due, e1.indx);
      WithinWord(Only, m.view, k, m.view, 0, w, bs, bit_no, due);
      Settle(e1, null, w, bs, k, 0, due, true, Only, m, m, zero, bit_no);
    }

    /** bmp_iter_next: drop the bit just delivered. */
    method Next(kind: Kind, m1: Bitmap, m2: Bitmap, zero: Element, bit_no0: nat) returns (bit_no: nat)
      requires Valid(kind, m1, m2, zero, bit_no0) && bits != 0
      modifies this
      ensures Valid(kind, m1, m2, zero, bit_no)
      ensures todo == old(todo) - {bit_no0}
    {
      hide Cursor, Standing, Bitmap.Valid, Elts, Within, IsZero;
      WithinNext(kind, m1.view, i, m2.view, j, word_no, bits, bit_no0, todo);
      bit_no := bit_no0 + 1;
      Settle(elt1, elt2, word_no, bits / 2, i, j, todo - {bit_no0}, true, kind, m1, m2, zero, bit_no);
    }

    /** bmp_iter_set: true exactly if a member is left, and then bit_no is the least. */
    method IterSet(m: Bitmap, zero: Element, bit_no0: nat) returns (r: bool, bit_no: nat)
      requires Valid(Only, m, m, zero, bit_no0)
      modifies this
      ensures todo == old(todo) && (r <==> todo != {})
      ensures r ==>
        Valid(Only, m, m, zero, bit_no) && bits != 0 && bit_no in todo &&
        forall b :: b in todo ==> bit_no <= b
    {
      hide Cursor, Ahead, OnWord, Facing, Exhausted, Bitmap.Valid, Elts, Members, Target, Within, IsZero, About, Due,
        EltHas, HasFrom;
      ghost var v, k: nat, due := m.view, i, todo;
      StandingFacts(m, elt1, i, zero);
      WithinFacts(Only, v, i, v, j, word_no, bits, bit_no0, due);
      var e1, w: nat, b: Word := elt1, word_no, bits;
      if b != 0 {
        b, bit_no := NextBit(b, bit_no0, due, e1.indx, e1.bits, w);
        r := true;
      } else {
        RoundUp(due, e1.indx, e1.bits, w, bit_no0);
        bit_no := (bit_no0 + WORD_BITS - 1) / WORD_BITS * WORD_BITS;
        w := w + 1;
        while true
          invariant Standing(m, e1, k, zero)
          invariant Scanning(due, IndxAt(v, k), BitsAt(v, k), w, bit_no)
          invariant Ahead(due, Target(Only, v, v), v, k, IndxAt(v, k))
          modifies {}
          decreases |v| - k
        {
          StandingFacts(m, e1, k, zero);
          w, b, bit_no := FindWord(Only, e1.bits, ZERO_BITS, w, bit_no, due, e1.indx);
          if w != ELEMENT_WORDS {
            b, bit_no := NextBit(b, bit_no, due, e1.indx, e1.bits, w);
            r := true;
            break;
          }
          Leave(due, Target(Only, v, v), v, k, e1.indx);
          AboutDue(due, Target(Only, v, v), v, k + 1);
          e1, k := e1.next, k + 1;
          if e1 == null {
            if k <= |v| { CursorFacts(m, e1, k); }
            r := false;
            break;
          }
          CursorFacts(m, e1, k);
          Enter(Only, due, v, k, v, j, 0);
          bit_no := e1.indx * ELEMENT_BITS;
          w := 0;
        }
      }
      if r { WithinWord(Only, v, k, v, j, w, b, bit_no, due); }
      Settle(e1, elt2, w, b, k, j, due, r, Only, m, m, zero, bit_no);
    }

    /** bmp_iter_and_init. */
    method AndInit(m1: Bitmap, m2: Bitmap, start_bit0: nat, zero: Element) returns (bit_no: nat)
      requires m1.Valid() && m2.Valid() && IsZero(zero) && this !in m1.repr && this !in m2.repr
      modifies this
      ensures Valid(Both, m1, m2, zero, bit_no)
      ensures todo == Wanted(m1.Contents() * m2.Contents(), start_bit0)
    {
      hide Cursor, Due, Facing, Ahead, OnWord, Abreast, Elts, Distinct, Bitmap.Valid, Members, Sorted, NonZero, Shr,
        Wanted, Within, About, Exhausted, CurAt, EltHas, HasFrom, Combine, Canonical, Zero;
      var start_bit := start_bit0;
      ghost var v1, v2, due := m1.view, m2.view, Wanted(m1.Contents() * m2.Contents(), start_bit);
      CursorStart(m1);
      CursorStart(m2);
      var e1, k := SkipTo(m1, m1.first, 0, start_bit / ELEMENT_BITS);
      CursorFacts(m1, e1, k);
      var e2: Element? := null;
      ghost var l: nat := |v2|;
      if e1 != null {
        e2, l := SkipTo(m2, m2.first, 0, e1.indx);
        CursorFacts(m2, e2, l);
      }
      NothingLeft(v1, k, v2, l, start_bit);
      if e2 == null {
        e1, e2 := zero, zero;
        k := |v1|;
      }
      var w: nat, bs: Word;
      if e1.indx == e2.indx {
        if e1.indx != start_bit / ELEMENT_BITS {
          start_bit := e1.indx * ELEMENT_BITS;
        }
        if k == |v1| {
          AtEnd(Both, v1, v2, l, start_bit);
        } else {
          InitFacing(Both, v1, k, v2, l, start_bit0, due);
        }
        BothAt(v1, k, v2, l);
        w, bs, bit_no := Load(Both, e1.bits, e2.bits, start_bit, due, e1.indx);
        WithinWord(Both, v1, k, v2, l, w, bs, bit_no, due);
      } else {
        w := ELEMENT_WORDS - 1;
        bs := 0;
        bit_no := start_bit + 1;
        WithinSpent(v1, k, v2, l, start_bit0, bit_no, due);
      }
      Settle(e1, e2, w, bs, k, l, due, true, Both, m1, m2, zero, bit_no);
    }

    /** bmp_iter_and. */
    method IterAnd(m1: Bitmap, m2: Bitmap, zero: Element, bit_no0: nat) returns (r: bool, bit_no: nat)
      requires Valid(Both, m1, m2, zero, bit_no0)
      modifies this
      ensures todo == old(todo) && (r <==> todo != {})
      ensures r ==>
        Valid(Both, m1, m2, zero, bit_no) && bits != 0 && bit_no in todo &&
        forall b :: b in todo ==> bit_no <= b
    {
      hide Cursor, Ahead, OnWord, Facing, Bitmap.Valid, Elts, Members, Target, Within, IsZero, Abreast, About, Due,
        Exhausted, Combine, CurAt, EltHas, HasFrom, Sorted, NonZero, Seen;
      ghost var v1, v2, k: nat, l: nat, due := m1.view, m2.view, i, j, todo;
      StandingFacts(m1, elt1, i, zero);
      StandingFacts(m2, elt2, j, zero);
      WithinFacts(Both, v1, i, v2, j, word_no, bits, bit_no0, due);
      BothAt(v1, k, v2, l);
      var e1, e2, w: nat, b: Word := elt1, elt2, word_no, bits;
      if b != 0 {
        b, bit_no := NextBit(b, bit_no0, due, e1.indx, Seen(Both, e1.bits, e2.bits), w);
        r := true;
      } else {
        if e1.indx == e2.indx {
          RoundUp(due, e1.indx, Seen(Both, e1.bits, e2.bits), w, bit_no0);
        }
        bit_no := (bit_no0 + WORD_BITS - 1) / WORD_BITS * WORD_BITS;
        w := w + 1;
        while true
          invariant Standing(m1, e1, k, zero) && Standing(m2, e2, l, zero) && (k == |v1| <==> l == |v2|)
          invariant k < |v1| ==> Abreast(v2, l, v1[k].indx)
          invariant Scanning(due, IndxAt(v1, k), Seen(Both, BitsAt(v1, k), BitsAt(v2, l)), w, bit_no)
          invariant Ahead(due, Target(Both, v1, v2), v1, k, IndxAt(v1, k))
          invariant k <= |v1| && l <= |v2| && (w < ELEMENT_WORDS ==> IndxAt(v1, k) == IndxAt(v2, l))
          modifies {}
          decreases |v1| - k
        {
          StandingFacts(m1, e1, k, zero);
          StandingFacts(m2, e2, l, zero);
          w, b, bit_no := FindWord(Both, e1.bits, e2.bits, w, bit_no, due, e1.indx);
          if w != ELEMENT_WORDS {
            b, bit_no := NextBit(b, bit_no, due, e1.indx, Seen(Both, e1.bits, e2.bits), w);
            r := true;
            break;
          }
          Leave(due, Target(Both, v1, v2), v1, k, e1.indx);
          r, e1, k, e2, l := AdvanceBoth(m1, m2, e1, k, e2, l, zero, due);
          if !r {
            break;
          }
          Enter(Both, due, v1, k, v2, l, 0);
          BothAt(v1, k, v2, l);
          bit_no := e1.indx * ELEMENT_BITS;
          w := 0;
        }
      }
      if r {
        BothAt(v1, k, v2, l);
        WithinWord(Both, v1, k, v2, l, w, b, bit_no, due);
      }
      Settle(e1, e2, w, b, k, l, due, r, Both, m1, m2, zero, bit_no);
    }

    /** bmp_iter_and_compl_init. */
    method AndComplInit(m1: Bitmap, m2: Bitmap, start_bit0: nat, zero: Element) returns (bit_no: nat)
      requires m1.Valid() && m2.Valid() && IsZero(zero) && this !in m1.repr && this !in m2.repr
      modifies this
      ensures Valid(Without, m1, m2, zero, bit_no)
      ensures todo == Wanted(m1.Contents() - m2.Contents(), start_bit0)
    {
      hide Cursor, Due, Facing, Ahead, OnWord, Abreast, Elts, Distinct, Bitmap.Valid, Members, Sorted, NonZero, Shr,
        Wanted, Within,
        About, Exhausted, CurAt, EltHas, HasFrom, Combine, Canonical, Zero;
      var start_bit := start_bit0;
      ghost var v1, v2, due := m1.view, m2.view, Wanted(m1.Contents() - m2.Contents(), start_bit);
      CursorStart(m1);
      CursorStart(m2);
      var e1, k := SkipTo(m1, m1.first, 0, start_bit / ELEMENT_BITS);
      CursorFacts(m1, e1, k);
      if e1 == null {
        e1 := zero;
      }
      var e2, l := SkipTo(m2, m2.first, 0, e1.indx);
      CursorFacts(m2, e2, l);
      if e1.indx != start_bit / ELEMENT_BITS {
        start_bit := e1.indx * ELEMENT_BITS;
      }
      InitFacing(Without, v1, k, v2, l, start_bit0, due);
      WithoutAt(v1, k, v2, l);
      var w, bs;
      if e2 != null && e1.indx == e2.indx {
        w, bs, bit_no := Load(Without, e1.bits, e2.bits, start_bit, due, e1.indx);
      } else {
        w, bs, bit_no := Load(Only, e1.bits, ZERO_BITS, start_bit, due, e1.indx);
      }
      WithinWord(Without, v1, k, v2, l, w, bs, bit_no, due);
      Settle(e1, e2, w, bs, k, l, due, true, Without, m1, m2, zero, bit_no);
    }

    /** bmp_iter_and_compl. */
    method IterAndCompl(m1: Bitmap, m2: Bitmap, zero: Element, bit_no0: nat) returns (r: bool, bit_no: nat)
      requires Valid(Without, m1, m2, zero, bit_no0)
      modifies this
      ensures todo == old(todo) && (r <==> todo != {})
      ensures r ==>
        Valid(Without, m1, m2, zero, bit_no) && bits != 0 && bit_no in todo &&
        forall b :: b in todo ==> bit_no <= b
    {
      hide Cursor, Ahead, OnWord, Facing, Bitmap.Valid, Elts, Members, Target, Within, IsZero, Abreast, About, Due,
        Exhausted, Combine,
        CurAt, EltHas, HasFrom, Sorted, NonZero, Seen, Scanning;
      ghost var v1, v2, k: nat, l: nat, due := m1.view, m2.view, i, j, todo;
      StandingFacts(m1, elt1, i, zero);
      WithinFacts(Without, v1, i, v2, j, word_no, bits, bit_no0, due);
      CursorStart(m2);
      var e1, e2, w: nat, b: Word := elt1, elt2, word_no, bits;
      if b != 0 {
        b, bit_no := NextBit(b, bit_no0, due, e1.indx, CurAt(Without, v1, k, v2, l), w);
        r := true;
      } else {
        RoundUp(due, e1.indx, CurAt(Without, v1, k, v2, l), w, bit_no0);
        bit_no := (bit_no0 + WORD_BITS - 1) / WORD_BITS * WORD_BITS;
        w := w + 1;
        while true
          invariant Standing(m1, e1, k, zero) && Cursor(m2, e2, l)
          invariant k < |v1| ==> Abreast(v2, l, v1[k].indx)
          invariant Scanning(due, IndxAt(v1, k), CurAt(Without, v1, k, v2, l), w, bit_no)
          invariant Ahead(due, Target(Without, v1, v2), v1, k, IndxAt(v1, k))
          modifies {}
          decreases |v1| - k
        {
          StandingFacts(m1, e1, k, zero);
          w, b, bit_no := FindWithout(e1, v1, k, m2, e2, l, w, bit_no, due);
          if w != ELEMENT_WORDS {
            b, bit_no := NextBit(b, bit_no, due, e1.indx, CurAt(Without, v1, k, v2, l), w);
            r := true;
            break;
          }
          Leave(due, Target(Without, v1, v2), v1, k, e1.indx);
          AboutDue(due, Target(Without, v1, v2), v1, k + 1);
          BehindMore(v1, k, v2, l);
          e1, k := e1.next, k + 1;
          if e1 == null {
            if k <= |v1| { CursorFacts(m1, e1, k); }
            r := false;
            break;
          }
          CursorFacts(m1, e1, k);
          e2, l := SkipTo(m2, e2, l, e1.indx);
          CursorFacts(m2, e2, l);
          Enter(Without, due, v1, k, v2, l, 0);
          bit_no := e1.indx * ELEMENT_BITS;
          w := 0;
          ScanStart(due, e1.indx, CurAt(Without, v1, k, v2, l), bit_no);
        }
      }
      CursorFacts(m2, e2, l);
      if r { WithinWord(Without, v1, k, v2, l, w, b, bit_no, due); }
      Settle(e1, e2, w, b, k, l, due, r, Without, m1, m2, zero, bit_no);
    }
  }

  // ---- the loops EXECUTE_IF_SET_IN_BITMAP and its companions -----------------------------------

  ghost predicate Increasing(s: seq<nat>) {
    forall i, j :: 0 <= i < j < |s| ==> s[i] < s[j]
  }

  /** out lists all of wanted but todo, in increasing order and below everything in todo. */
  ghost predicate Listed(out: seq<nat>, wanted: set<nat>, todo: set<nat>) {
    && Increasing(out)
    && (forall b :: b in out ==> b in wanted && b !in todo)
    && (forall b :: b in wanted ==> b in out || b in todo)
    && (forall b, c :: b in out && c in todo ==> b < c)
    && todo <= wanted
  }

  lemma ListedMore(out: seq<nat>, wanted: set<nat>, todo: set<nat>, b: nat)
    requires Listed(out, wanted, todo) && b in todo && forall c :: c in todo ==> b <= c
    ensures Listed(out + [b], wanted, todo - {b})
  {
    var more := out + [b];
    assert forall i :: 0 <= i < |out| ==> out[i] in out;
  }

  lemma ListedNone(todo: set<nat>)
    ensures Listed([], todo, todo) && Increasing([])
  {
  }

  lemma NotListed(m: Bitmap, o: object)
    requires m.Valid() && !(o is Element) && !(o is Bitmap)
    ensures o !in m.repr
  {
    EltsNoHead(m.nodes, o);
  }

  /** The body of EXECUTE_IF_SET_IN_BITMAP sees exactly the members from start on, in order. */
  method ForEachSet(m: Bitmap, start: nat, zero: Element) returns (out: seq<nat>)
    requires m.Valid() && IsZero(zero)
    ensures Increasing(out)
    ensures forall b :: b in out <==> b in m.Contents() && start <= b
  {
    hide Bitmap.Valid, Members, Within, Standing, Cursor, Increasing;
    var bi := new BitmapIterator();
    NotListed(m, bi);
    var bit_no := bi.SetInit(m, start, zero);
    out := [];
    ListedNone(bi.todo);
    ghost var wanted := bi.todo;
    var r;
    r, bit_no := bi.IterSet(m, zero, bit_no);
    while r
      invariant Listed(out, wanted, bi.todo) && (r <==> bi.todo != {})
      invariant r ==>
        bi.Valid(Only, m, m, zero, bit_no) && bi.bits != 0 && bit_no in bi.todo &&
        forall b :: b in bi.todo ==> bit_no <= b
      decreases |bi.todo|
    {
      ListedMore(out, wanted, bi.todo, bit_no);
      out := out + [bit_no];
      bit_no := bi.Next(Only, m, m, zero, bit_no);
      r, bit_no := bi.IterSet(m, zero, bit_no);
    }
  }

  /** EXECUTE_IF_AND_IN_BITMAP. */
  method ForEachAnd(m1: Bitmap, m2: Bitmap, start: nat, zero: Element) returns (out: seq<nat>)
    requires m1.Valid() && m2.Valid() && IsZero(zero)
    ensures Increasing(out)
    ensures forall b :: b in out <==> b in m1.Contents() && b in m2.Contents() && start <= b
  {
    hide Bitmap.Valid, Members, Within, Standing, Cursor, Increasing;
    var bi := new BitmapIterator();
    NotListed(m1, bi);
    NotListed(m2, bi);
    var bit_no := bi.AndInit(m1, m2, start, zero);
    out := [];
    ListedNone(bi.todo);
    ghost var wanted := bi.todo;
    var r;
    r, bit_no := bi.IterAnd(m1, m2, zero, bit_no);
    while r
      invariant Listed(out, wanted, bi.todo) && (r <==> bi.todo != {})
      invariant r ==>
        bi.Valid(Both, m1, m2, zero, bit_no) && bi.bits != 0 && bit_no in bi.todo &&
        forall b :: b in bi.todo ==> bit_no <= b
      decreases |bi.todo|
    {
      ListedMore(out, wanted, bi.todo, bit_no);
      out := out + [bit_no];
      bit_no := bi.Next(Both, m1, m2, zero, bit_no);
      r, bit_no := bi.IterAnd(m1, m2, zero, bit_no);
    }
  }

  /** EXECUTE_IF_AND_COMPL_IN_BITMAP. */
  method ForEachAndCompl(m1: Bitmap, m2: Bitmap, start: nat, zero: Element) returns (out: seq<nat>)
    requires m1.Valid() && m2.Valid() && IsZero(zero)
    ensures Increasing(out)
    ensures forall b :: b in out <==> b in m1.Contents() && b !in m2.Contents() && start <= b
  {
    hide Bitmap.Valid, Members, Within, Standing, Cursor, Increasing;
    var bi := new BitmapIterator();
    NotListed(m1, bi);
    NotListed(m2, bi);
    var bit_no := bi.AndComplInit(m1, m2, start, zero);
    out := [];
    ListedNone(bi.todo);
    ghost var wanted := bi.todo;
    var r;
    r, bit_no := bi.IterAndCompl(m1, m2, zero, bit_no);
    while r
      invariant Listed(out, wanted, bi.todo) && (r <==> bi.todo != {})
      invariant r ==>
        bi.Valid(Without, m1, m2, zero, bit_no) && bi.bits != 0 && bit_no in bi.todo &&
        forall b :: b in bi.todo ==> bit_no <= b
      decreases |bi.todo|
    {
      ListedMore(out, wanted, bi.todo, bit_no);
      out := out + [bit_no];
      bit_no := bi.Next(Without, m1, m2, zero, bit_no);
      r, bit_no := bi.IterAndCompl(m1, m2, zero, bit_no);
    }
  }
}
