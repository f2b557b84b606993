/** Operations of bitmap.c that go through a temporary bitmap. */
module BitmapCompound {
  import opened Words
  import opened Elements
  import opened Merging
  import opened Obstacks
  import opened Bitmaps
  import opened BitmapOps
  import opened BitmapInto

  /** A scratch bitmap may be taken from obstack o without touching any of these bitmaps. */
  ghost predicate Spare(o: Obstack, others: set<object>)
    reads o, o.repr
  {
    o.Valid() && o.repr !! others
  }

  /** All elements that obstack o has lent are back on its free list, along with those created meanwhile. */
  twostate predicate Returned(o: Obstack)
    reads o
  {
    && old(o.created) <= o.created && o.repr == old(o.repr) + (o.created - old(o.created)) &&
       fresh(o.created - old(o.created))
  }

  /** bitmap_initialize (&tmp, o); bitmap_and_compl (&tmp, from1, from2). */
  method Difference(o: Obstack, from1: Bitmap, from2: Bitmap, ghost others: set<object>) returns (tmp: Bitmap)
    requires Spare(o, others) && from1.Valid() && from2.Valid() && from1.repr <= others && from2.repr <= others
    modifies o.repr
    ensures fresh(tmp) && tmp.obstack == o && tmp.Valid() && o.Valid()
    ensures tmp.repr !! o.repr && tmp.repr + o.repr !! others
    ensures tmp.repr + o.repr == old(o.repr) + {tmp} + (o.created - old(o.created)) && old(o.created) <= o.created
    ensures fresh(o.created - old(o.created)) && tmp !in o.created
    ensures tmp.Contents() == from1.Contents() - from2.Contents()
  {
    hide Bitmap.Valid, Bitmap.Inv, Bitmap.Chain, Bitmap.Cached, Obstack.Valid, Merge, Members, Trailing, Canonical;
    assert forall e :: e in o.created ==> allocated(e);
    tmp := new Bitmap(o);
    BitmapAndCompl(tmp, from1, from2);
  }

  lemma Emptied(tmp: Bitmap)
    requires tmp.Valid() && tmp.view == []
    ensures tmp.repr == {tmp}
  {
    assert tmp.nodes == [];
  }

  /** The balance over the three steps when the temporary t comes from DST's own obstack: its elements t1 and
      the free ones o1 after the first, DST's elements d2 after the second, and the free ones o3 at the end. */
  lemma SettledBalance(d0: set<object>, o0: set<object>, c0: set<object>, t: object, t1: set<object>, o1: set<object>,
                       c1: set<object>,
                d2: set<object>, o2: set<object>, c2: set<object>, o3: set<object>)
    requires t1 + o1 == o0 + {t} + (c1 - c0) && c0 <= c1 && d0 !! o0
    requires Balanced(d2, o2, c2, d0, o1, c1) && t1 + o2 !! d2
    requires {t} + o3 == t1 + o2 && t !in o3 && t !in d0 + o0 + c2
    ensures Balanced(d2, o3, c2, d0, o0, c0)
  {
    forall e ensures e in d2 + o3 <==> e in d0 + o0 + (c2 - c0) {
      if e != t {
        assert e in o3 <==> e in t1 || e in o2;
        assert e in d2 + o2 <==> e in d0 + o1 + (c2 - c1);
        assert e in t1 + o1 <==> e in o0 + (c1 - c0);
      }
    }
  }

  /** The same when it comes from another obstack. */
  lemma SettledApart(o0: set<object>, c0: set<object>, t: object, t1: set<object>, o1: set<object>, c1: set<object>,
                     o3: set<object>)
    requires t1 + o1 == o0 + {t} + (c1 - c0) && {t} + o3 == t1 + o1 && t !in o3 && t !in o0 + c1
    ensures o3 == o0 + (c1 - c0)
  {
    forall e ensures e in o3 <==> e in o0 + (c1 - c0) {
      assert e in {t} + o3 <==> e in t1 + o1;
    }
  }

  /** bitmap_clear (&tmp), which leaves DST as it is. */
  method Release(tmp: Bitmap, dst: Bitmap)
    requires tmp.Valid() && tmp.obstack.Valid() && tmp.repr !! tmp.obstack.repr
    requires dst.Chain() && dst.obstack.Valid() && dst.repr !! tmp.repr + tmp.obstack.repr
    requires tmp.obstack == dst.obstack || tmp.repr + tmp.obstack.repr !! dst.obstack.repr
    modifies tmp.repr, tmp.obstack
    ensures tmp.obstack.Valid() && {tmp} + tmp.obstack.repr == old(tmp.repr + tmp.obstack.repr)
    ensures tmp !in tmp.obstack.repr
    ensures tmp.obstack.created == old(tmp.obstack.created) && dst.repr !! tmp.obstack.repr
    ensures dst.Chain() && dst.obstack.Valid() && (dst.Valid() <==> old(dst.Valid())) && dst.view == old(dst.view)
    ensures dst.repr == old(dst.repr)
    ensures dst.current == old(dst.current) && (old(Stale(dst)) ==> Stale(dst))
    ensures tmp.obstack != dst.obstack ==>
      dst.obstack.repr == old(dst.obstack.repr) && tmp.obstack.repr !! dst.obstack.repr
    ensures tmp.obstack != dst.obstack ==> dst.obstack.created == old(dst.obstack.created)
  {
    hide Bitmap.Valid, Bitmap.Inv, Bitmap.Chain, Obstack.Valid, Members, Canonical;
    ValidFacts(tmp);
    dst.ChainFacts();
    tmp.obstack.Facts();
    dst.obstack.Facts();
    tmp.Clear();
    Emptied(tmp);
  }

  /** bitmap_ior_and_compl: DST = A | (FROM1 & ~FROM2). o is bitmap_default_obstack. */
  method IorAndCompl(dst: Bitmap, a: Bitmap, from1: Bitmap, from2: Bitmap, o: Obstack) returns (changed: bool)
    requires Ready(dst, a) && from1.Valid() && from2.Valid()
    requires Spare(o, dst.repr + a.repr + from1.repr + from2.repr)
    requires o == dst.obstack || o.repr !! dst.obstack.repr
    modifies dst.repr, dst.obstack.repr, o.repr
    ensures dst.Chain() && dst.obstack.Valid() && o.Valid()
    ensures Conserved(dst) && (o != dst.obstack ==> Returned(o) && o.repr !! dst.repr + dst.obstack.repr)
    ensures dst.Contents() == old(a.Contents() + (from1.Contents() - from2.Contents()))
    ensures changed <==> dst.Contents() != old(dst.Contents())
    ensures dst.Valid() <==> CurrentSurvives(old(dst.view), old(dst.cur), dst.view, false)
    ensures !dst.Valid() ==> Stale(dst)
  {
    hide Bitmap.Valid, Bitmap.Inv, Bitmap.Chain, Bitmap.Cached, Obstack.Valid, Merge, Members, Canonical,
      CurrentSurvives;
    ValidFacts(dst);
    ValidFacts(a);
    dst.obstack.Facts();
    o.Facts();
    ValidFacts(from1);
    ValidFacts(from2);
    ghost var recycled := if o == dst.obstack then {} else dst.obstack.repr;
    ghost var others := dst.repr + a.repr + from1.repr + from2.repr + recycled;
    var tmp := Difference(o, from1, from2, others);
    ValidFacts(tmp);
    ghost var d0, o0, c0 := old(dst.repr), old(o.repr), old(o.created);
    ghost var t1, o1, c1 := tmp.repr, o.repr, o.created;
    changed := BitmapIor(dst, a, tmp);
    ghost var o2 := o.repr;
    Release(tmp, dst);
    if o == dst.obstack {
      SettledBalance(d0, o0, c0, tmp, t1, o1, c1, dst.repr, o2, o.created, o.repr);
    } else {
      SettledApart(o0, c0, tmp, t1, o1, c1, o.repr);
    }
  }

  /** bitmap_ior_and_compl_into: A |= FROM1 & ~FROM2. */
  method IorAndComplInto(a: Bitmap, from1: Bitmap, from2: Bitmap, o: Obstack) returns (changed: bool)
    requires a.Valid() && a.obstack.Valid() && a.repr !! a.obstack.repr && from1.Valid() && from2.Valid()
    requires Spare(o, a.repr + from1.repr + from2.repr)
    requires o == a.obstack || o.repr !! a.obstack.repr
    modifies a.repr, a.obstack.repr, o.repr
    ensures a.Valid() && a.obstack.Valid() && o.Valid()
    ensures Conserved(a) && (o != a.obstack ==> Returned(o) && o.repr !! a.repr + a.obstack.repr)
    ensures a.Contents() == old(a.Contents() + (from1.Contents() - from2.Contents()))
    ensures changed <==> a.Contents() != old(a.Contents())
  {
    hide Bitmap.Valid, Bitmap.Inv, Bitmap.Chain, Bitmap.Cached, Obstack.Valid, Merge, Members, Canonical;
    ValidFacts(a);
    a.obstack.Facts();
    o.Facts();
    ValidFacts(from1);
    ValidFacts(from2);
    ghost var others := a.repr + from1.repr + from2.repr + (if o == a.obstack then {} else a.obstack.repr);
    var tmp := Difference(o, from1, from2, others);
    ValidFacts(tmp);
    ghost var d0, o0, c0 := old(a.repr), old(o.repr), old(o.created);
    ghost var t1, o1, c1 := tmp.repr, o.repr, o.created;
    changed := BitmapIorInto(a, tmp);
    ValidFacts(a);
    ghost var o2 := o.repr;
    Release(tmp, a);
    if o == a.obstack {
      SettledBalance(d0, o0, c0, tmp, t1, o1, c1, a.repr, o2, o.created, o.repr);
    } else {
      SettledApart(o0, c0, tmp, t1, o1, c1, o.repr);
    }
  }
}
