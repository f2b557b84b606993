/** Bitmap elements and the obstack's two-level free list (bitmap.h, bitmap.c). */
module Obstacks {
  import opened Helpers
  import opened Words
  import opened Elements

  /** struct bitmap_element_def. */
  class Element {
    var next: Element?
    var prev: Element?
    var indx: nat
    var bits: Bits
    // On the free list: the position in the allocation stack, and the head of the next inner list.
    ghost var pos: nat
    ghost var outer: Element?

    constructor ()
      ensures next == null && prev == null && bits == ZERO_BITS
    {
      next, prev, indx, bits := null, null, 0, ZERO_BITS;
    }
  }

  ghost function At(s: seq<Element>, i: int): Element? {
    if 0 <= i < |s| then s[i] else null
  }

  ghost function Elts(s: seq<Element>): set<object> {
    set i | 0 <= i < |s| :: s[i] as object
  }

  lemma EltsConcat(s: seq<Element>, t: seq<Element>)
    ensures Elts(s + t) == Elts(s) + Elts(t)
  {
    var u := s + t;
    forall o | o in Elts(s) + Elts(t) ensures o in Elts(u) {
      if i :| 0 <= i < |s| && s[i] == o { assert u[i] == o; }
      if i :| 0 <= i < |t| && t[i] == o { assert u[|s| + i] == o; }
    }
  }

  lemma EltsOne(e: Element)
    ensures Elts([e]) == {e}
  {
    assert [e][0] == e;
  }

  lemma EltsIn(s: seq<Element>, i: nat)
    requires i < |s|
    ensures s[i] in Elts(s)
  {
  }

  lemma EltsNotIn(s: seq<Element>, e: Element)
    requires forall i :: 0 <= i < |s| ==> s[i] != e
    ensures e !in Elts(s)
  {
  }

  lemma EltsApart(s: seq<Element>, k: nat)
    requires Distinct(s) && k <= |s|
    ensures Elts(s[..k]) !! Elts(s[k..])
    ensures Elts(s) == Elts(s[..k]) + Elts(s[k..])
  {
    assert s == s[..k] + s[k..];
    EltsConcat(s[..k], s[k..]);
  }

  lemma EltsRemove(s: seq<Element>, k: nat)
    requires Distinct(s) && k < |s|
    ensures Elts(s[..k] + s[k + 1..]) == Elts(s) - {s[k]}
  {
    EltsApart(s, k);
    EltsApart(s[k..], 1);
    assert s[k..][..1] == [s[k]] && s[k..][1..] == s[k + 1..];
    EltsOne(s[k]);
    EltsConcat(s[..k], s[k + 1..]);
  }

  lemma EltsInsert(s: seq<Element>, k: nat, e: Element)
    requires k <= |s|
    ensures Elts(s[..k] + [e] + s[k..]) == Elts(s) + {e}
  {
    EltsConcat(s[..k] + [e], s[k..]);
    EltsConcat(s[..k], [e]);
    EltsConcat(s[..k], s[k..]);
    assert s == s[..k] + s[k..];
    EltsOne(e);
  }

  ghost function Reverse(s: seq<Element>): (r: seq<Element>)
    ensures |r| == |s| && forall i :: 0 <= i < |s| ==> r[i] == s[|s| - 1 - i]
  {
    seq(|s|, i requires 0 <= i < |s| => s[|s| - 1 - i])
  }

  lemma EltsReverse(s: seq<Element>)
    ensures Elts(Reverse(s)) == Elts(s)
    ensures Distinct(s) ==> Distinct(Reverse(s))
  {
    var r := Reverse(s);
    forall o | o in Elts(s) ensures o in Elts(r) {
      var i :| 0 <= i < |s| && s[i] == o;
      assert r[|s| - 1 - i] == o;
    }
    forall o | o in Elts(r) ensures o in Elts(s) {
      var i :| 0 <= i < |r| && r[i] == o;
      assert s[|s| - 1 - i] == o;
    }
  }

  lemma EltsNoHead(s: seq<Element>, o: object)
    requires !(o is Element)
    ensures o !in Elts(s)
  {
  }

  /** struct bitmap_obstack: elements is the head of the free list, a list of lists.
      free is the allocation stack, its top at the end; repr the obstack and its free elements. */
  class Obstack {
    var elements: Element?
    ghost var free: seq<Element>
    ghost var repr: set<object>
    ghost var created: set<object>

    constructor ()
      ensures Valid() && free == [] && created == {} && repr == {this}
    {
      elements, free, created, repr := null, [], {}, {this};
    }

    ghost predicate Cell(i: nat)
      requires i < |free|
      reads this, free
    {
      var e := free[i];
      && e.pos == i
      && if e.next == null then
           e.outer == At(free, i - 1) && (i > 0 ==> free[i - 1].prev == free[i - 1].outer)
         else
           i > 0 && e.next == free[i - 1] && e.next.outer == e.outer
    }

    ghost predicate Valid()
      reads this, repr
    {
      && this in repr
      && (forall i :: 0 <= i < |free| ==> free[i] in repr)
      && repr == {this} + Elts(free)
      && elements == At(free, |free| - 1)
      && (forall i: nat :: i < |free| ==> Cell(i))
      && (|free| > 0 ==> free[|free| - 1].prev == free[|free| - 1].outer)
    }

    lemma Facts()
      requires Valid()
      ensures this in repr && forall i :: 0 <= i < |free| ==> free[i] in repr
    {
    }

    method Pop() returns (element: Element)
      requires Valid() && free != []
      modifies repr
      ensures Valid()
      ensures element == old(free)[|old(free)| - 1] && free == old(free)[..|old(free)| - 1]
      ensures element in old(repr) && repr == old(repr) - {element}
      ensures created == old(created)
    {
      hide Elts;
      element := elements;
      ghost var n := |free| - 1;
      EltsConcat(free[..n], [elements]);
      EltsOne(elements);
      assert free == free[..n] + [elements];
      ghost var last, before := Cell(n), n > 0 ==> Cell(n - 1);
      assert last && before;
      if element.next != null {
        elements := element.next;
        elements.prev := element.prev;
      } else {
        elements := element.prev;
      }
      free, repr := free[..n], repr - {element};
      forall i: nat | i < n ensures Cell(i) && free[i] != element {
        ghost var was, wasBelow := old(Cell(i)), i > 0 ==> old(Cell(i - 1));
        assert was && wasBelow;
      }
      EltsNotIn(free, element);
    }

    /** bitmap_element_allocate: the top of the free list, or a new element, with its bits cleared. */
    method Allocate() returns (element: Element)
      requires Valid()
      modifies repr
      ensures Valid()
      ensures element !in repr && (element in old(repr) || fresh(element))
      ensures repr == old(repr) - {element}
      ensures if old(free) == [] then fresh(element) && free == []
              else element == old(free)[|old(free)| - 1] && free == old(free)[..|old(free)| - 1]
      ensures created == old(created) + (if old(free) == [] then {element} else {})
      ensures element.bits == ZERO_BITS
    {
      if elements != null {
        ghost var c := Cell(|free| - 1);
        assert c;
        element := Pop();
      } else {
        element := new Element();
        created := created + {element};
      }
      element.bits := ZERO_BITS;
    }

    /** bitmap_elem_to_freelist: elt becomes an inner list of its own. */
    method ToFreelist(elt: Element)
      requires Valid() && elt !in repr
      modifies this, elt`next, elt`prev, elt`pos, elt`outer
      ensures Valid() && free == old(free) + [elt] && created == old(created)
      ensures repr == old(repr) + {elt}
    {
      hide Elts;
      EltsConcat(free, [elt]);
      EltsOne(elt);
      elt.next := null;
      elt.prev := elements;
      elements := elt;
      elt.pos, elt.outer := |free|, elt.prev;
      free, repr := free + [elt], repr + {elt};
      forall i: nat | i < |free| ensures Cell(i) {
        if i < |old(free)| { assert old(Cell(i)); }
        if i > 0 { assert old(Cell(i - 1)); }
      }
    }

    ghost method Adopt(chain: seq<Element>)
      requires Valid() && Distinct(chain)
      requires Elts(chain) !! repr
      modifies chain`pos, chain`outer
      ensures Valid()
      ensures forall i :: 0 <= i < |chain| ==> chain[i].pos == |free| + i && chain[i].outer == elements
    {
      forall i: nat | i < |chain| ensures chain[i] !in repr { EltsIn(chain, i); }
      forall e | e in chain { e.outer := elements; }
      forall i | 0 <= i < |chain| { chain[i].pos := |free| + i; }
    }

    /** The tail of bitmap_elt_clear_from: the null-terminated chain that starts at elt becomes
        one inner list. chain lists it from its last element to elt. */
    method ChainToFreelist(elt: Element, ghost chain: seq<Element>)
      requires Valid() && Distinct(chain) && Elts(chain) !! repr
      requires chain != [] && chain[|chain| - 1] == elt
      requires forall i {:trigger chain[i].next} :: 0 <= i < |chain| ==> chain[i].next == At(chain, i - 1)
      modifies this, elt`prev, chain`pos, chain`outer
      ensures Valid() && free == old(free) + chain && created == old(created)
      ensures repr == old(repr) + Elts(chain)
    {
      hide Elts;
      EltsIn(chain, |chain| - 1);
      elt.prev := elements;
      ghost var n := |free|;
      Adopt(chain);
      EltsConcat(free, chain);
      label L:
      elements := elt;
      free, repr := free + chain, repr + Elts(chain);
      forall i: nat | i < |free| ensures Cell(i) {
        if i < n {
          ghost var c := old@L(Cell(i)); assert c;
        } else {
          assert free[i] == chain[i - n] && chain[i - n].next == At(chain, i - n - 1);
          assert i > n ==> free[i - 1] == chain[i - n - 1];
        }
      }
      assert free[|free| - 1] == elt;
      forall i: nat | i < |free| ensures free[i] in repr { if i >= n { EltsIn(chain, i - n); } }
    }
  }
}
