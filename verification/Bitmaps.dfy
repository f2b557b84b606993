/** The bitmap head and the list primitives of bitmap.c. */
module Bitmaps {
  import opened Helpers
  import opened Words
  import opened Elements
  import opened Obstacks

  /** The nodes of s from k on are still chained by next. */
  ghost predicate Dangling(s: seq<Element>, k: nat)
    reads s
  {
    forall i {:trigger s[i].next} :: k <= i < |s| ==> s[i].next == At(s, i + 1)
  }

  /** d and o hold what d0 and o0 held, and the elements created since, none of them twice. */
  ghost predicate Balanced(d: set<object>, o: set<object>, created: set<object>,
                           d0: set<object>, o0: set<object>, created0: set<object>)
  {
    d !! o && created0 <= created && d + o == d0 + o0 + (created - created0)
  }

  /** No element was created: what left the list went to the free list. */
  twostate predicate Recycled(a: Bitmap)
    reads a, a.obstack
  {
    && a.repr !! a.obstack.repr && a.obstack.created == old(a.obstack.created)
    && a.repr + a.obstack.repr == old(a.repr + a.obstack.repr)
  }

  /** struct bitmap_head_def. nodes is the element list, view its value, cur the position of current. */
  class Bitmap {
    var first: Element?
    var current: Element?
    var indx: nat
    const obstack: Obstack
    ghost var nodes: seq<Element>
    ghost var view: seq<Elt>
    ghost var cur: int
    ghost var repr: set<object>

    constructor (obstack: Obstack)
      ensures this.obstack == obstack && view == [] && repr == {this} && Valid()
    {
      first, current, indx, nodes, view, cur, repr := null, null, 0, [], [], 0, {this};
      this.obstack := obstack;
    }

    ghost predicate Node(i: nat)
      requires i < |nodes| == |view|
      reads `nodes, `view, nodes
    {
      && nodes[i].next == At(nodes, i + 1)
      && nodes[i].prev == At(nodes, i - 1)
      && nodes[i].indx == view[i].indx
      && nodes[i].bits == view[i].bits
    }

    /** The element list is well linked and shows view. */
    ghost predicate Chain()
      reads `first, `nodes, `view, `repr, repr - {this}
    {
      && this in repr
      && |view| == |nodes|
      && repr == {this} + Elts(nodes)
      && (forall i :: 0 <= i < |nodes| ==> nodes[i] in repr)
      && first == At(nodes, 0)
      && Distinct(nodes)
      && forall i: nat :: i < |nodes| ==> Node(i)
    }

    /** ... and current is null exactly for the empty list, and otherwise one of its elements. */
    ghost predicate Inv()
      reads this, repr
    {
      && Chain()
      && current == At(nodes, cur)
      && (nodes == [] <==> current == null)
    }

    ghost predicate Cached()
      reads this
    {
      0 <= cur < |view| ==> indx == view[cur].indx
    }

    /** The representation invariant that every public operation keeps. */
    ghost predicate Valid()
      reads this, repr
    {
      Inv() && Cached() && Canonical(view)
    }

    /** The set a bitmap represents. */
    ghost function Contents(): set<nat>
      reads this
    {
      Members(view)
    }

    lemma ChainFacts()
      requires Chain()
      ensures this in repr && |view| == |nodes| && first == At(nodes, 0) && Distinct(nodes)
      ensures forall i :: 0 <= i < |nodes| ==> nodes[i] in repr
    {
    }

    lemma InvFacts()
      requires Inv()
      ensures Chain() && this in repr && |view| == |nodes| && first == At(nodes, 0) && current == At(nodes, cur)
      ensures forall i :: 0 <= i < |nodes| ==> nodes[i] in repr
      ensures nodes == [] <==> current == null
      ensures nodes != [] ==> 0 <= cur < |nodes|
    {
    }

    lemma NodeFacts(i: nat)
      requires Chain() && i < |nodes|
      ensures nodes[i].next == At(nodes, i + 1) && nodes[i].prev == At(nodes, i - 1)
      ensures nodes[i].indx == view[i].indx && nodes[i].bits == view[i].bits
    {
      assert Node(i);
    }

    /** Node j after the pointers around node k have been moved past it. */
    ghost predicate Bypassed(k: nat, j: nat)
      requires k < |nodes| == |view| && j < |nodes|
      reads `nodes, `view, nodes
    {
      var e := nodes[j];
      j != k ==>
        && e.next == At(nodes, if j + 1 == k then k + 1 else j + 1)
        && e.prev == At(nodes, if j == k + 1 then k - 1 else j - 1)
        && e.indx == view[j].indx && e.bits == view[j].bits
    }

    ghost method Drop(k: nat)
      requires k < |nodes| == |view|
      requires this in repr && repr == {this} + Elts(nodes) && Distinct(nodes)
      requires forall i :: 0 <= i < |nodes| ==> nodes[i] in repr
      requires first == if k == 0 then At(nodes, 1) else At(nodes, 0)
      requires forall j: nat :: j < |nodes| ==> Bypassed(k, j)
      modifies `nodes, `view, `repr
      ensures Chain()
      ensures nodes == old(nodes[..k] + nodes[k + 1..])
      ensures view == old(view[..k] + view[k + 1..])
      ensures repr == old(repr - {nodes[k]})
    {
      hide Elts;
      EltsRemove(nodes, k);
      ghost var was := nodes;
      nodes, view, repr := nodes[..k] + nodes[k + 1..], view[..k] + view[k + 1..], repr - {nodes[k]};
      assert first == At(nodes, 0);
      forall i: nat | i < |nodes| ensures nodes[i] in repr { EltsIn(nodes, i); }
      forall i: nat | i < |nodes| ensures Node(i) {
        ghost var j := if i < k then i else i + 1;
        ghost var c := old(Bypassed(k, j)); assert c;
        assert nodes[i] == was[j];
      }
    }

    method Unlink(elt: Element, ghost k: nat)
      requires Chain()
      requires k < |nodes| && nodes[k] == elt
      modifies this`first, this`nodes, this`view, this`repr, nodes`next, nodes`prev
      ensures Chain()
      ensures nodes == old(nodes[..k] + nodes[k + 1..])
      ensures view == old(view[..k] + view[k + 1..])
      ensures repr == old(repr) - {elt}
      ensures elt.next == old(elt.next) == At(old(nodes), k + 1)
      ensures elt.prev == old(elt.prev) == At(old(nodes), k - 1)
    {
      hide Elts;
      assert Node(k) && (k > 0 ==> Node(k - 1)) && (k + 1 < |nodes| ==> Node(k + 1));
      var next := elt.next;
      var prev := elt.prev;
      if prev != null {
        prev.next := next;
      }
      if next != null {
        next.prev := prev;
      }
      if first == elt {
        first := next;
      }
      forall j: nat | j < |nodes| ensures Bypassed(k, j) {
        ghost var c := old(Node(j)); assert c;
      }
      Drop(k);
    }

    /** The cache update of bitmap_element_free: make current the next entry in preference to the previous. */
    method MoveCurrent(elt: Element, ghost k: nat, next: Element?, prev: Element?)
      requires Chain() && k <= |nodes| && next == At(nodes, k) && prev == At(nodes, k - 1)
      requires 0 <= cur <= |nodes|
      requires current == if cur < k then At(nodes, cur) else if cur == k then elt else At(nodes, cur - 1)
      requires cur != k ==> current != elt && indx == view[if cur < k then cur else cur - 1].indx
      modifies `current, `indx, `cur
      ensures Inv() && Cached()
      ensures cur == if old(cur) < k || (old(cur) == k && k < |nodes|) then old(cur) else old(cur) - 1
      ensures current == if old(current) != elt then old(current) else if next != null then next else prev
    {
      hide Elts, Chain, Distinct, Node;
      ChainFacts();
      if k < |nodes| { NodeFacts(k); }
      if k > 0 { NodeFacts(k - 1); }
      if current == elt {
        current := if next != null then next else prev;
        if current != null {
          indx := current.indx;
        } else {
          indx := 0;
        }
      }
      cur := if cur < k || (cur == k && k < |nodes|) then cur else cur - 1;
    }

    /** bitmap_element_free. */
    method ElementFree(elt: Element, ghost k: nat)
      requires Inv() && Cached() && obstack.Valid() && repr !! obstack.repr
      requires k < |nodes| && nodes[k] == elt
      modifies repr, obstack
      ensures Inv() && Cached() && obstack.Valid() && repr !! obstack.repr
      ensures nodes == old(nodes[..k] + nodes[k + 1..])
      ensures view == old(view[..k] + view[k + 1..])
      ensures repr == old(repr) - {elt} && obstack.repr == old(obstack.repr) + {elt}
      ensures obstack.free == old(obstack.free) + [elt] && obstack.created == old(obstack.created)
      ensures current ==
        if old(current) != elt then old(current)
        else if k + 1 < old(|nodes|) then old(nodes)[k + 1]
        else At(old(nodes), k - 1)
      ensures cur == if old(cur) < k || (old(cur) == k && k < |nodes|) then old(cur) else old(cur) - 1
    {
      hide Elts, Chain, Distinct, Node;
      ChainFacts();
      Unlink(elt, k);
      ChainFacts();
      MoveCurrent(elt, k, elt.next, elt.prev);
      obstack.ToFreelist(elt);
    }

    /** Node j after the pointers around position k have been redirected to a new node. */
    ghost predicate Spliced(node: Element, k: nat, j: nat)
      requires k <= |nodes| == |view| && j < |nodes|
      reads `nodes, `view, nodes
    {
      var e := nodes[j];
      && e.next == (if j + 1 == k then node else At(nodes, j + 1))
      && e.prev == (if j == k then node else At(nodes, j - 1))
      && e.indx == view[j].indx && e.bits == view[j].bits
    }

    ghost method Grow(node: Element, k: nat)
      requires k <= |nodes| == |view| && node !in repr
      requires this in repr && repr == {this} + Elts(nodes) && Distinct(nodes)
      requires forall i :: 0 <= i < |nodes| ==> nodes[i] in repr
      requires first == if k == 0 then node else At(nodes, 0)
      requires node.next == At(nodes, k) && node.prev == At(nodes, k - 1)
      requires forall j: nat :: j < |nodes| ==> Spliced(node, k, j)
      modifies `nodes, `view, `repr
      ensures Chain()
      ensures nodes == old(nodes[..k] + [node] + nodes[k..])
      ensures view == old(view[..k] + [Elt(node.indx, node.bits)] + view[k..])
      ensures repr == old(repr) + {node}
    {
      hide Elts;
      EltsInsert(nodes, k, node);
      ghost var was := nodes;
      nodes, view, repr :=
        nodes[..k] + [node] + nodes[k..], view[..k] + [Elt(node.indx, node.bits)] + view[k..], repr + {node};
      assert first == At(nodes, 0);
      forall i: nat | i < |nodes| ensures nodes[i] in repr { EltsIn(nodes, i); }
      forall i: nat | i < |nodes| ensures Node(i) {
        if i != k {
          ghost var j := if i < k then i else i - 1;
          ghost var c := old(Spliced(node, k, j)); assert c;
          assert nodes[i] == was[j];
        }
      }
    }

    /** The pointer writes of bitmap_elt_insert_after. */
    method LinkAfter(elt: Element?, node: Element, ghost k: nat)
      requires Chain() && node !in repr
      requires k <= |nodes| && elt == At(nodes, k - 1)
      modifies `first, `nodes, `view, `repr, nodes`next, nodes`prev, node`next, node`prev
      ensures Chain()
      ensures nodes == old(nodes[..k] + [node] + nodes[k..])
      ensures view == old(view[..k] + [Elt(node.indx, node.bits)] + view[k..])
      ensures repr == old(repr) + {node}
    {
      hide Elts;
      assert (k > 0 ==> Node(k - 1)) && (k < |nodes| ==> Node(k));
      if elt == null {
        node.next := first;
        if node.next != null {
          node.next.prev := node;
        }
        first := node;
        node.prev := null;
      } else {
        node.next := elt.next;
        if node.next != null {
          node.next.prev := node;
        }
        elt.next := node;
        node.prev := elt;
      }
      forall j: nat | j < |nodes| ensures Spliced(node, k, j) {
        ghost var c := old(Node(j)); assert c;
      }
      Grow(node, k);
    }

    /** The list half of bitmap_elt_insert_after. */
    method InsertNode(elt: Element?, node: Element, ghost k: nat)
      requires Inv() && node !in repr
      requires k <= |nodes| && elt == At(nodes, k - 1)
      modifies repr, node`next, node`prev
      ensures Inv()
      ensures nodes == old(nodes[..k] + [node] + nodes[k..])
      ensures view == old(view[..k] + [Elt(node.indx, node.bits)] + view[k..])
      ensures repr == old(repr) + {node}
      ensures old(view) == [] ==> cur == 0 && indx == node.indx
      ensures old(view) != [] ==> cur == (if old(cur) < k then old(cur) else old(cur) + 1) && indx == old(indx)
    {
      hide Elts, Distinct, Chain;
      ChainFacts();
      if elt == null && current == null {
        current := node;
        indx := node.indx;
      }
      LinkAfter(elt, node, k);
      cur := if |nodes| == 1 then 0 else if cur < k then cur else cur + 1;
      ChainFacts();
    }

    /** bitmap_elt_insert_after. */
    method EltInsertAfter(elt: Element?, ghost k: nat, ix: nat) returns (node: Element)
      requires Inv() && obstack.Valid() && repr !! obstack.repr
      requires k <= |nodes| && elt == At(nodes, k - 1)
      modifies repr, obstack.repr
      ensures Inv() && obstack.Valid() && repr !! obstack.repr
      ensures nodes == old(nodes[..k] + [node] + nodes[k..])
      ensures view == old(view[..k] + [Elt(ix, ZERO_BITS)] + view[k..])
      ensures Conserved(this)
      ensures old(view) == [] ==> cur == 0 && indx == ix
      ensures old(view) != [] ==> cur == (if old(cur) < k then old(cur) else old(cur) + 1) && indx == old(indx)
    {
      hide Elts, Distinct, Chain, Inv, Obstack.Valid;
      InvFacts();
      obstack.Facts();
      node := obstack.Allocate();
      node.indx := ix;
      InsertNode(elt, node, k);
    }

    /** Store the words of bits into elt->bits. */
    method SetBits(elt: Element, ghost k: nat, bits: Bits)
      requires Inv() && k < |nodes| && elt == nodes[k]
      modifies `view, elt`bits
      ensures Inv() && view == old(view)[k := Elt(old(view)[k].indx, bits)]
      ensures old(Cached()) ==> Cached()
    {
      elt.bits := bits;
      view := view[k := Elt(view[k].indx, bits)];
      forall i: nat | i < |nodes| ensures Node(i) {
        ghost var c := old(Node(i)); assert c;
      }
    }

    /** ... and fill in its words. */
    method InsertFilled(elt: Element?, ghost k: nat, ix: nat, bits: Bits) returns (node: Element)
      requires Inv() && Cached() && obstack.Valid() && repr !! obstack.repr
      requires k <= |nodes| && elt == At(nodes, k - 1)
      modifies repr, obstack.repr
      ensures Inv() && Cached() && obstack.Valid()
      ensures nodes == old(nodes[..k] + [node] + nodes[k..])
      ensures view == old(view[..k] + [Elt(ix, bits)] + view[k..])
      ensures Conserved(this)
    {
      hide Elts, Distinct, Chain, Inv, Obstack.Valid;
      InvFacts();
      node := EltInsertAfter(elt, k, ix);
      InvFacts();
      assert nodes[k] == node;
      SetBits(node, k, bits);
    }

    /** The position at which an element with index ix belongs. */
    ghost predicate Slot(k: nat, ix: nat)
      reads `view
    {
      && k <= |view|
      && (forall i :: 0 <= i < k ==> view[i].indx < ix)
      && (forall i :: k <= i < |view| ==> ix < view[i].indx)
    }

    /** The first loop of bitmap_element_link: the element before which index ix belongs. */
    method SearchBackward(ix: nat) returns (ptr: Element, ghost k: nat)
      requires Valid() && view != []
      requires forall i :: 0 <= i < |view| ==> view[i].indx != ix
      requires ix < indx
      ensures k < |nodes| && ptr == nodes[k] && Slot(k, ix)
    {
      hide Elts, Distinct, Chain;
      ChainFacts();
      ptr := current;
      k := cur;
      NodeFacts(k);
      if k > 0 { NodeFacts(k - 1); }
      while ptr.prev != null && ptr.prev.indx > ix
        invariant k < |nodes| && ptr == nodes[k] && view[k].indx > ix
        invariant ptr.prev == At(nodes, k - 1)
        invariant k > 0 ==> nodes[k - 1].indx == view[k - 1].indx
        decreases k
      {
        ptr, k := ptr.prev, k - 1;
        NodeFacts(k);
        if k > 0 { NodeFacts(k - 1); }
      }
    }

    /** The second loop of bitmap_element_link: the element behind which index ix belongs. */
    method SearchForward(ix: nat) returns (ptr: Element, ghost k: nat)
      requires Valid() && view != []
      requires forall i :: 0 <= i < |view| ==> view[i].indx != ix
      requires indx < ix
      ensures 0 < k <= |nodes| && ptr == nodes[k - 1] && Slot(k, ix)
    {
      hide Elts, Distinct, Chain;
      ChainFacts();
      ptr := current;
      k := cur + 1;
      NodeFacts(k - 1);
      if k < |nodes| { NodeFacts(k); }
      while ptr.next != null && ptr.next.indx < ix
        invariant 0 < k <= |nodes| && ptr == nodes[k - 1] && view[k - 1].indx < ix
        invariant ptr.next == At(nodes, k)
        invariant k < |nodes| ==> nodes[k].indx == view[k].indx
        decreases |nodes| - k
      {
        ptr, k := ptr.next, k + 1;
        NodeFacts(k - 1);
        if k < |nodes| { NodeFacts(k); }
      }
    }

    method LinkFirst(element: Element) returns (ghost k: nat)
      requires Chain() && first == null && element !in repr
      modifies `first, `nodes, `view, `repr, element`next, element`prev
      ensures Chain() && old(Slot(k, element.indx))
      ensures k < |nodes| && nodes[k] == element && view[k].indx == element.indx
      ensures nodes == old(nodes[..k] + [element] + nodes[k..])
      ensures view == old(view[..k] + [Elt(element.indx, element.bits)] + view[k..])
      ensures repr == old(repr) + {element}
    {
      element.next, element.prev := null, null;
      first := element;
      k := 0;
      Grow(element, k);
    }

    method LinkBefore(ptr: Element, element: Element, ghost k: nat)
      requires Chain() && element !in repr && k < |nodes| && ptr == nodes[k]
      modifies `first, `nodes, `view, `repr, nodes`next, nodes`prev, element`next, element`prev
      ensures Chain()
      ensures nodes == old(nodes[..k] + [element] + nodes[k..])
      ensures view == old(view[..k] + [Elt(element.indx, element.bits)] + view[k..])
      ensures repr == old(repr) + {element}
      ensures k < |nodes| && nodes[k] == element && view[k].indx == element.indx
    {
      hide Elts;
      assert Node(k) && (k > 0 ==> Node(k - 1));
      if ptr.prev != null {
        ptr.prev.next := element;
      } else {
        first := element;
      }
      element.prev := ptr.prev;
      element.next := ptr;
      ptr.prev := element;
      forall j: nat | j < |nodes| ensures Spliced(element, k, j) {
        ghost var c := old(Node(j)); assert c;
      }
      Grow(element, k);
    }

    method LinkBehind(ptr: Element, element: Element, ghost k: nat)
      requires Chain() && element !in repr && 0 < k <= |nodes| && ptr == nodes[k - 1]
      modifies `nodes, `view, `repr, nodes`next, nodes`prev, element`next, element`prev
      ensures Chain()
      ensures nodes == old(nodes[..k] + [element] + nodes[k..])
      ensures view == old(view[..k] + [Elt(element.indx, element.bits)] + view[k..])
      ensures repr == old(repr) + {element}
      ensures k < |nodes| && nodes[k] == element && view[k].indx == element.indx
    {
      hide Elts;
      assert Node(k - 1) && (k < |nodes| ==> Node(k));
      if ptr.next != null {
        ptr.next.prev := element;
      }
      element.next := ptr.next;
      element.prev := ptr;
      ptr.next := element;
      forall j: nat | j < |nodes| ensures Spliced(element, k, j) {
        ghost var c := old(Node(j)); assert c;
      }
      Grow(element, k);
    }

    /** bitmap_element_link: search from current, then splice the element in and make it current. */
    method ElementLink(element: Element) returns (ghost k: nat)
      requires Valid() && element !in repr
      requires forall i :: 0 <= i < |view| ==> view[i].indx != element.indx
      modifies this, repr, element`next, element`prev
      ensures Inv() && Cached() && cur == k && old(Slot(k, element.indx))
      ensures nodes == old(nodes[..k] + [element] + nodes[k..])
      ensures view == old(view[..k] + [Elt(element.indx, element.bits)] + view[k..])
      ensures repr == old(repr) + {element}
    {
      hide Elts, Distinct, Chain, Slot, Sorted;
      ChainFacts();
      if first == null {
        k := LinkFirst(element);
      } else if element.indx < indx {
        var ptr: Element;
        ptr, k := SearchBackward(element.indx);
        LinkBefore(ptr, element, k);
      } else {
        var ptr: Element;
        ptr, k := SearchForward(element.indx);
        LinkBehind(ptr, element, k);
      }
      ChainFacts();
      current := element;
      indx := element.indx;
      cur := k;
    }

    /** Node j once the list has been cut before node k. */
    ghost predicate Severed(k: nat, j: nat)
      requires k <= |nodes| == |view| && j < k
      reads `nodes, `view, nodes
    {
      var e := nodes[j];
      && e.next == (if j + 1 == k then null else At(nodes, j + 1))
      && e.prev == At(nodes, j - 1)
      && e.indx == view[j].indx && e.bits == view[j].bits
    }

    ghost method Truncate(k: nat)
      requires k < |nodes| == |view|
      requires this in repr && repr == {this} + Elts(nodes) && Distinct(nodes)
      requires forall i :: 0 <= i < |nodes| ==> nodes[i] in repr
      requires first == if k == 0 then null else At(nodes, 0)
      requires forall j: nat :: j < k ==> Severed(k, j)
      modifies `nodes, `view, `repr
      ensures Chain()
      ensures nodes == old(nodes[..k]) && view == old(view[..k])
      ensures repr == old(repr) - Elts(old(nodes[k..]))
      ensures repr !! Elts(old(nodes[k..])) && Elts(old(nodes[k..])) <= old(repr)
    {
      hide Elts;
      EltsApart(nodes, k);
      EltsNoHead(nodes[k..], this);
      nodes, view, repr := nodes[..k], view[..k], repr - Elts(nodes[k..]);
      forall i: nat | i < |nodes| ensures nodes[i] in repr { EltsIn(nodes, i); }
      forall i: nat | i < |nodes| ensures Node(i) {
        ghost var c := old(Severed(k, i)); assert c;
      }
    }

    /** The case analysis of bitmap_elt_clear_from: does current still point into the list afterwards? */
    ghost predicate Kept(k: nat)
      requires k <= |view|
      reads `view, `cur
    {
      k == 0 || k == |view| || cur < k || (cur < |view| && view[cur].indx > view[k - 1].indx)
    }

    /** The pointer writes of bitmap_elt_clear_from on the list that stays. */
    method Sever(elt: Element, ghost k: nat)
      requires Chain() && k < |nodes| && elt == nodes[k]
      modifies `first, `nodes, `view, `repr, nodes`next
      ensures Chain()
      ensures nodes == old(nodes[..k]) && view == old(view[..k])
      ensures repr == old(repr) - Elts(old(nodes[k..]))
      ensures repr !! Elts(old(nodes[k..])) && Elts(old(nodes[k..])) <= old(repr)
      ensures elt.prev == At(nodes, k - 1)
      ensures Dangling(old(nodes), k)
    {
      hide Elts;
      assert Node(k) && (k > 0 ==> Node(k - 1));
      var prev := elt.prev;
      if prev != null {
        prev.next := null;
      } else {
        first := null;
      }
      forall j: nat | j < k ensures Severed(k, j) {
        ghost var c := old(Node(j)); assert c;
      }
      forall i | k <= i < |nodes| ensures nodes[i].next == At(nodes, i + 1) {
        ghost var c := old(Node(i)); assert c;
      }
      Truncate(k);
    }

    lemma TailHas(i: nat, k: nat)
      requires i < |nodes| && k <= |nodes|
      ensures i >= k ==> nodes[i] in Elts(nodes[k..])
    {
      if i >= k {
        EltsIn(nodes[k..], i - k);
      }
    }

    method CutCurrent(prev: Element?, ghost was: seq<Element>, ghost k: nat)
      requires Chain() && k < |was| && nodes == was[..k] && prev == At(nodes, k - 1)
      requires 0 <= cur < |was| && current == was[cur]
      modifies `current, `indx, `cur
      ensures if prev == null then current == null
              else if old(current.indx) > prev.indx then current == prev && indx == prev.indx && cur == k - 1
              else unchanged(`current, `indx, `cur)
      ensures Chain()
    {
      if prev != null {
        if current.indx > prev.indx {
          current := prev;
          indx := prev.indx;
          cur := k - 1;
        }
      } else {
        current := null;
        indx := 0;
      }
    }

    method FreeTail(elt: Element, ghost was: seq<Element>, ghost k: nat)
      requires obstack.Valid() && k < |was| && was[k] == elt && Distinct(was)
      requires Elts(was[k..]) !! obstack.repr && Dangling(was, k)
      modifies obstack, Elts(was[k..])
      ensures obstack.Valid() && obstack.repr == old(obstack.repr) + Elts(was[k..])
      ensures obstack.free == old(obstack.free) + Reverse(was[k..]) && obstack.created == old(obstack.created)
      ensures forall e :: e in was ==> e.indx == old(e.indx)
    {
      ghost var tail := Reverse(was[k..]);
      EltsReverse(was[k..]);
      forall i | 0 <= i < |tail| ensures tail[i].next == At(tail, i - 1) {
      }
      obstack.ChainToFreelist(elt, tail);
    }

    /** bitmap_elt_clear_from: remove elt and all following elements. */
    method EltClearFrom(elt: Element?, ghost k: nat)
      requires Inv() && obstack.Valid() && repr !! obstack.repr
      requires k <= |nodes| && elt == At(nodes, k)
      modifies repr, obstack
      ensures Chain() && obstack.Valid() && repr !! obstack.repr
      ensures nodes == old(nodes[..k]) && view == old(view[..k])
      ensures Recycled(this)
      ensures old(Kept(k)) ==> Inv()
      ensures old(Kept(k)) && old(Cached()) ==> Cached()
      ensures !old(Kept(k)) ==> current == old(current) != null && current in obstack.repr
    {
      hide Elts, Chain, Distinct, Node, Dangling, Obstack.Valid;
      ChainFacts();
      obstack.Facts();
      if elt == null {
        return;
      }
      NodeFacts(cur);
      if k > 0 { NodeFacts(k - 1); }
      TailHas(cur, k);
      ghost var was := nodes;
      Sever(elt, k);
      ChainFacts();
      CutCurrent(elt.prev, was, k);
      FreeTail(elt, was, k);
    }

    /** elt->indx = ix. */
    method SetIndx(elt: Element, ghost k: nat, ix: nat)
      requires Inv() && k < |nodes| && elt == nodes[k]
      modifies `view, elt`indx
      ensures Inv() && view == old(view)[k := Elt(ix, old(view)[k].bits)]
    {
      elt.indx := ix;
      view := view[k := Elt(ix, view[k].bits)];
      forall i: nat | i < |nodes| ensures Node(i) {
        ghost var c := old(Node(i)); assert c;
      }
    }

    /** The step that every three-operand merge shares: recycle the next old element, or insert a new one. */
    method RecycleOrInsert(dst_elt: Element?, dst_prev: Element?, ghost d: nat, ix: nat) returns (elt: Element)
      requires Inv() && obstack.Valid() && repr !! obstack.repr
      requires d <= |nodes| && dst_elt == At(nodes, d) && dst_prev == At(nodes, d - 1)
      modifies repr, obstack.repr
      ensures Inv() && obstack.Valid()
      ensures Conserved(this)
      ensures d < |nodes| && elt == nodes[d]
      ensures nodes == if d < |old(nodes)| then old(nodes) else old(nodes) + [elt]
      ensures view == if d < |old(view)| then old(view)[d := Elt(ix, old(view)[d].bits)]
        else old(view) + [Elt(ix, ZERO_BITS)]
      ensures cur == if old(view) == [] then 0 else old(cur)
    {
      hide Elts, Distinct, Chain, Inv, Obstack.Valid;
      InvFacts();
      if dst_elt == null {
        elt := EltInsertAfter(dst_prev, d, ix);
      } else {
        elt := dst_elt;
        SetIndx(elt, d, ix);
      }
      InvFacts();
    }

    /** bitmap_clear. */
    method Clear()
      requires Inv() && obstack.Valid() && repr !! obstack.repr
      modifies repr, obstack
      ensures Valid() && obstack.Valid() && view == [] && Contents() == {}
      ensures Recycled(this)
    {
      hide Elts, Distinct, Chain, Obstack.Valid;
      InvFacts();
      if first != null {
        EltClearFrom(first, 0);
      }
    }

    method LinkLast(to_ptr: Element?, to_elt: Element)
      requires Inv() && Cached() && to_elt !in repr && to_ptr == At(nodes, |nodes| - 1)
      modifies repr, to_elt`next, to_elt`prev
      ensures Inv() && Cached() && repr == old(repr) + {to_elt}
      ensures nodes == old(nodes) + [to_elt] && view == old(view) + [Elt(to_elt.indx, to_elt.bits)]
      ensures old(view) != [] ==> cur == old(cur)
    {
      hide Elts, Distinct;
      ghost var n := |nodes|;
      assert n > 0 ==> Node(n - 1);
      if to_ptr == null {
        first, current := to_elt, to_elt;
        indx := to_elt.indx;
        cur := 0;
        to_elt.next, to_elt.prev := null, null;
      } else {
        to_elt.prev := to_ptr;
        to_elt.next := null;
        to_ptr.next := to_elt;
      }
      forall j: nat | j < |nodes| ensures Spliced(to_elt, n, j) {
        ghost var c := old(Node(j)); assert c;
      }
      Grow(to_elt, n);
      assert nodes == old(nodes) + [to_elt] && view == old(view) + [Elt(to_elt.indx, to_elt.bits)];
    }

    /** The loop body of bitmap_copy: allocate an element and enter it behind to_ptr, the last one. */
    method Append(to_ptr: Element?, ix: nat, bits: Bits) returns (to_elt: Element)
      requires Inv() && Cached() && obstack.Valid() && repr !! obstack.repr
      requires to_ptr == At(nodes, |nodes| - 1)
      modifies repr, obstack.repr
      ensures Inv() && Cached() && obstack.Valid() && Conserved(this)
      ensures nodes == old(nodes) + [to_elt] && view == old(view) + [Elt(ix, bits)]
      ensures old(view) != [] ==> cur == old(cur)
    {
      hide Elts, Distinct, Chain, Inv, Obstack.Valid;
      InvFacts();
      obstack.Facts();
      to_elt := obstack.Allocate();
      to_elt.indx := ix;
      to_elt.bits := bits;
      LinkLast(to_ptr, to_elt);
    }
  }

  /** Conservation: dst and its obstack together hold what they held before and the elements created since. */
  twostate predicate Conserved(dst: Bitmap)
    reads dst, dst.obstack
  {
    && Balanced(dst.repr, dst.obstack.repr, dst.obstack.created, old(dst.repr), old(dst.obstack.repr),
       old(dst.obstack.created))
    && fresh(dst.obstack.created - old(dst.obstack.created))
  }

  twostate lemma RecycledConserved(dst: Bitmap)
    requires Recycled(dst)
    ensures Conserved(dst)
  {
    assert dst.obstack.created - old(dst.obstack.created) == {};
  }
}
