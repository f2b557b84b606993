/** Single-bit operations of bitmap.c, on top of the search that moves the cache. */
module BitmapBits {
  import opened Helpers
  import opened Words
  import opened Elements
  import opened BitSets
  import opened Obstacks
  import opened Bitmaps

  /** Walk forward from position k while the index is below ix, but not off the end. */
  method SeekForward(head: Bitmap, start: Element, ghost k0: nat, ix: nat) returns (element: Element, ghost k: nat)
    requires head.Valid() && k0 < |head.nodes| && start == head.nodes[k0]
    requires forall i :: 0 <= i < k0 ==> head.view[i].indx < ix
    ensures k < |head.nodes| && element == head.nodes[k] && element.indx == head.view[k].indx
    ensures forall i :: 0 <= i < k ==> head.view[i].indx < ix
    ensures element.indx >= ix || k + 1 == |head.nodes|
  {
    hide Elts, Distinct, Bitmap.Chain, Bitmap.Cached, Sorted, Canonical;
    head.ChainFacts();
    element, k := start, k0;
    head.NodeFacts(k);
    while element.next != null && element.indx < ix
      invariant k < |head.nodes| && element == head.nodes[k] && element.indx == head.view[k].indx
      invariant element.next == At(head.nodes, k + 1)
      invariant forall i :: 0 <= i < k ==> head.view[i].indx < ix
      decreases |head.nodes| - k
    {
      element, k := element.next, k + 1;
      head.NodeFacts(k);
    }
  }

  /** Walk backward from current while the index is above ix, but not off the front. */
  method SeekBackward(head: Bitmap, ix: nat) returns (element: Element, ghost k: nat)
    requires head.Valid() && head.current != null && ix < head.indx
    ensures k < |head.nodes| && element == head.nodes[k] && element.indx == head.view[k].indx
    ensures forall i :: k < i < |head.nodes| ==> ix < head.view[i].indx
    ensures element.indx <= ix || k == 0
  {
    hide Elts, Distinct, Bitmap.Chain;
    head.ChainFacts();
    element, k := head.current, head.cur;
    head.NodeFacts(k);
    while element.prev != null && element.indx > ix
      invariant k < |head.nodes| && element == head.nodes[k] && element.indx == head.view[k].indx
      invariant element.prev == At(head.nodes, k - 1)
      invariant forall i :: k < i < |head.nodes| ==> ix < head.view[i].indx
      decreases k
    {
      element, k := element.prev, k - 1;
      head.NodeFacts(k);
    }
  }

  /** Where the search for index ix leaves the cache of a valid bitmap: on the element with that
      index, or, if there is none, on one of the two neighbours of the place where it belongs. */
  ghost predicate Sought(head: Bitmap, ix: nat)
    reads head
  {
    && (head.current == null <==> head.view == [])
    && (head.view != [] ==>
        && 0 <= head.cur < |head.view| && head.indx == head.view[head.cur].indx
        && (head.indx != ix ==> head.Slot(if head.indx < ix then head.cur + 1 else head.cur, ix)))
  }

  /** A position that a search for index ix stops at has ix, or is next to where ix belongs. */
  lemma Settled(head: Bitmap, k: nat, ix: nat)
    requires head.Valid() && k < |head.view|
    requires
      || ((forall i :: 0 <= i < k ==> head.view[i].indx < ix) && (head.view[k].indx >= ix || k + 1 == |head.view|))
      || ((forall i :: k < i < |head.view| ==> ix < head.view[i].indx) && (head.view[k].indx <= ix || k == 0))
    ensures head.view[k].indx != ix ==> head.Slot(if head.view[k].indx < ix then k + 1 else k, ix)
    ensures head.view[k].indx != ix ==> forall i :: 0 <= i < |head.view| ==> head.view[i].indx != ix
  {
  }

  lemma CacheBounds(head: Bitmap)
    requires head.Valid() && head.view != []
    ensures 0 <= head.cur < |head.view| == |head.nodes| && head.indx == head.view[head.cur].indx
    ensures forall i :: 0 <= i < head.cur ==> head.view[i].indx < head.indx
    ensures forall i :: head.cur < i < |head.view| ==> head.indx < head.view[i].indx
  {
  }

  /** The search ends: the element it came to is kept as the current one. */
  method MoveCache(head: Bitmap, element: Element, ghost k: nat)
    requires head.Valid() && k < |head.nodes| && element == head.nodes[k]
    modifies head`current, head`indx, head`cur
    ensures head.Valid() && head.current == element && head.cur == k < |head.view|
    ensures head.indx == head.view[k].indx == element.indx
  {
    hide Elts, Distinct, Canonical;
    head.NodeFacts(k);
    head.current := element;
    head.indx := element.indx;
    head.cur := k;
  }

  /** bitmap_find_bit: the element that holds bit, or null. */
  method FindBit(head: Bitmap, bit: nat) returns (element: Element?)
    requires head.Valid()
    modifies head`current, head`indx, head`cur
    ensures head.Valid() && Sought(head, IndexOf(bit))
    ensures element == if head.view != [] && head.indx == IndexOf(bit) then head.current else null
    ensures element == null <==> forall i :: 0 <= i < |head.view| ==> head.view[i].indx != IndexOf(bit)
  {
    hide Elts, Distinct, Bitmap.Chain, Bitmap.Slot, Canonical;
    var ix := bit / ELEMENT_BITS;
    head.ChainFacts();
    if head.current != null { CacheBounds(head); }
    if head.current == null || head.indx == ix {
      return head.current;
    }
    ghost var k;
    if head.indx < ix {
      element, k := SeekForward(head, head.current, head.cur, ix);
    } else if head.indx / 2 < ix {
      element, k := SeekBackward(head, ix);
    } else {
      element, k := SeekForward(head, head.first, 0, ix);
    }
    Settled(head, k, ix);
    MoveCache(head, element, k);
    if element.indx != ix {
      element := null;
    }
  }

  /** bitmap_bit_p: membership, whatever the cache position. */
  method BitP(head: Bitmap, bit: nat) returns (r: bool)
    requires head.Valid()
    modifies head`current, head`indx, head`cur
    ensures head.Valid()
    ensures r <==> bit in head.Contents()
  {
    hide Elts, Distinct, Bitmap.Chain, Sorted, NonZero, Members;
    var ptr := FindBit(head, bit);
    if ptr == null {
      AbsentMember(head.view, bit);
      return false;
    }
    head.NodeFacts(head.cur);
    PresentMember(head.view, head.cur, bit);
    BitShr(ptr.bits[WordOf(bit)], bit % WORD_BITS, 0);
    return Shr(ptr.bits[bit / WORD_BITS % ELEMENT_WORDS], bit % WORD_BITS) % 2 == 1;
  }

  /** bitmap_clear_bit removes the bit. */
  method ClearBit(head: Bitmap, bit: nat)
    requires head.Valid() && head.obstack.Valid() && head.repr !! head.obstack.repr
    modifies head.repr, head.obstack
    ensures head.Valid() && head.obstack.Valid() && Recycled(head)
    ensures head.Contents() == old(head.Contents()) - {bit}
  {
    hide Elts, Distinct, Bitmap.Chain, Obstack.Valid, Sorted, NonZero, Members, PutBit;
    head.InvFacts();
    head.obstack.Facts();
    var ptr := FindBit(head, bit);
    if ptr == null {
      AbsentMember(head.view, bit);
      return;
    }
    ghost var k := head.cur;
    head.NodeFacts(k);
    PutMembers(AndNot, head.view, k, bit);
    head.SetBits(ptr, k, PutBit(AndNot, ptr.bits, bit));
    head.NodeFacts(k);
    if Zero(ptr.bits) {
      DropZero(old(head.view), k, head.view[k]);
      head.ElementFree(ptr, k);
    }
  }

  /** The branch of bitmap_set_bit for a bit whose element does not exist yet. */
  method AddElement(head: Bitmap, bit: nat)
    requires head.Valid() && head.obstack.Valid() && head.repr !! head.obstack.repr
    requires forall i :: 0 <= i < |head.view| ==> head.view[i].indx != IndexOf(bit)
    modifies head.repr, head.obstack.repr
    ensures head.Valid() && head.obstack.Valid() && Conserved(head)
    ensures head.Contents() == old(head.Contents()) + {bit}
  {
    hide Elts, Distinct, Bitmap.Chain, Bitmap.Cached, Bitmap.Inv, Obstack.Valid, Sorted, NonZero, Canonical, Members,
      PutBit;
    head.InvFacts();
    head.obstack.Facts();
    var ptr := head.obstack.Allocate();
    ptr.indx := bit / ELEMENT_BITS;
    PowerIsWord(bit % WORD_BITS);
    ZeroPut(bit);
    ptr.bits := ptr.bits[WordOf(bit) := Pow2(bit % WORD_BITS)];
    ghost var k := head.ElementLink(ptr);
    InsertMembers(old(head.view), k, bit);
  }

  /** bitmap_set_bit inserts the bit. */
  method SetBit(head: Bitmap, bit: nat)
    requires head.Valid() && head.obstack.Valid() && head.repr !! head.obstack.repr
    modifies head.repr, head.obstack.repr
    ensures head.Valid() && head.obstack.Valid() && Conserved(head)
    ensures head.Contents() == old(head.Contents()) + {bit}
  {
    hide Elts, Distinct, Bitmap.Chain, Obstack.Valid, Sorted, Members, PutBit;
    head.InvFacts();
    head.obstack.Facts();
    var ptr := FindBit(head, bit);
    if ptr == null {
      AddElement(head, bit);
    } else {
      ghost var k := head.cur;
      head.NodeFacts(k);
      PutMembers(Or, head.view, k, bit);
      PutNonZero(ptr.bits, bit);
      head.SetBits(ptr, k, PutBit(Or, ptr.bits, bit));
    }
  }
}
