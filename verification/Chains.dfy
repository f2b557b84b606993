/** Chains of basic blocks linked through the field aux (bb-reorder.c). */
module Chains {
  import opened Helpers

  const NONE: int := -1

  /** Block c[k] of the chain c links on to the next one, the last to nothing. */
  ghost predicate LinkAt(aux: seq<int>, c: seq<nat>, k: nat)
    requires k < |c|
  {
    c[k] < |aux| && aux[c[k]] == if k + 1 < |c| then c[k + 1] else NONE
  }

  /** aux leads from c[0] through exactly the blocks of c, each once, and ends. */
  ghost predicate Chained(aux: seq<int>, c: seq<nat>) {
    c != [] && Distinct(c) && forall k: nat :: k < |c| ==> LinkAt(aux, c, k)
  }

  ghost predicate LoopAt(aux: seq<int>, c: seq<nat>, h: nat, k: nat)
    requires h < |c| && k < |c|
  {
    c[k] < |aux| && aux[c[k]] == if k + 1 < |c| then c[k + 1] else c[h]
  }

  /** The same, but the last block links back to c[h]. */
  ghost predicate Looped(aux: seq<int>, c: seq<nat>, h: nat) {
    h < |c| && Distinct(c) && forall k: nat :: k < |c| ==> LoopAt(aux, c, h, k)
  }

  function Last(c: seq<nat>): nat
    requires c != []
  {
    c[|c| - 1]
  }

  lemma ChainKept(aux: seq<int>, aux': seq<int>, c: seq<nat>)
    requires Chained(aux, c) && |aux| <= |aux'| && forall k :: 0 <= k < |c| && c[k] < |aux| ==> aux'[c[k]] == aux[c[k]]
    ensures Chained(aux', c)
  {
    forall k: nat | k < |c| ensures LinkAt(aux', c, k) {
      assert LinkAt(aux, c, k);
    }
  }

  lemma ChainOne(aux: seq<int>, b: nat)
    requires b < |aux| && aux[b] == NONE
    ensures Chained(aux, [b])
  {
  }

  /** Two chains become one. */
  lemma ChainJoin(aux: seq<int>, c: seq<nat>, d: seq<nat>)
    requires Chained(aux, c) && Chained(aux, d) && forall i, j :: 0 <= i < |c| && 0 <= j < |d| ==> c[i] != d[j]
    ensures Last(c) < |aux| && Chained(aux[Last(c) := d[0]], c + d)
  {
    var e := c + d;
    assert LinkAt(aux, c, |c| - 1);
    var aux' := aux[Last(c) := d[0]];
    forall k: nat | k < |e| ensures LinkAt(aux', e, k) {
      if k < |c| {
        assert LinkAt(aux, c, k);
      } else {
        assert LinkAt(aux, d, k - |c|);
        assert e[k] == d[k - |c|];
      }
    }
  }

  /** A new block enters the chain behind position i. */
  lemma ChainInsert(aux: seq<int>, c: seq<nat>, i: nat, b: nat)
    requires Chained(aux, c) && i < |c| && b < |aux| && b !in c
    ensures c[i] < |aux| && Chained(aux[b := aux[c[i]]][c[i] := b], c[..i + 1] + [b] + c[i + 1..])
  {
    assert LinkAt(aux, c, i);
    var e := c[..i + 1] + [b] + c[i + 1..];
    var aux' := aux[b := aux[c[i]]][c[i] := b];
    assert Distinct(e);
    forall k: nat | k < |e| ensures LinkAt(aux', e, k) {
      if k <= i {
        assert LinkAt(aux, c, k) && e[k] == c[k];
      } else if k > i + 1 {
        assert LinkAt(aux, c, k - 1) && e[k] == c[k - 1];
      }
    }
  }

  /** Closing the loop from the last block back to c[h]. */
  lemma CloseLoop(aux: seq<int>, c: seq<nat>, h: nat)
    requires Chained(aux, c) && h < |c|
    ensures Last(c) < |aux| && Looped(aux[Last(c) := c[h]], c, h)
  {
    assert LinkAt(aux, c, |c| - 1);
    var aux' := aux[Last(c) := c[h]];
    forall k: nat | k < |c| ensures LoopAt(aux', c, h, k) {
      assert LinkAt(aux, c, k);
    }
  }

  /** The chain c rotated in its tail c[h..], so that c[j] comes last. */
  ghost function Rotated(c: seq<nat>, h: nat, j: nat): seq<nat>
    requires h <= j < |c|
  {
    c[..h] + c[j + 1..] + c[h..j + 1]
  }

  /** Where the block at position k of the rotated chain was. */
  function Source(c: seq<nat>, h: nat, j: nat, k: nat): (s: nat)
    requires h <= j < |c| && k < |c|
    ensures s < |c|
  {
    if k < h then k else if k < h + (|c| - j - 1) then j + 1 + (k - h) else k - (|c| - j - 1)
  }

  lemma RotatedSame(c: seq<nat>, h: nat, j: nat)
    requires h <= j < |c| && Distinct(c)
    ensures Distinct(Rotated(c, h, j)) && |Rotated(c, h, j)| == |c|
    ensures forall b :: b in Rotated(c, h, j) <==> b in c
    ensures forall k :: 0 <= k < |c| ==> Rotated(c, h, j)[k] == c[Source(c, h, j, k)]
  {
    var r := Rotated(c, h, j);
    forall b | b in c ensures b in r {
      var k :| 0 <= k < |c| && c[k] == b;
      var l := if k < h then k else if k > j then h + (k - j - 1) else h + (|c| - j - 1) + (k - h);
      assert r[l] == b;
    }
  }

  lemma CutAt(aux: seq<int>, c: seq<nat>, h: nat, j: nat, k: nat)
    requires Looped(aux, c, h) && h <= j < |c| && k < |c| && c[j] < |aux| && (h > 0 ==> c[h - 1] < |aux|)
    ensures |Rotated(c, h, j)| == |c|
    ensures LinkAt((if h > 0 then aux[c[h - 1] := aux[c[j]]] else aux)[c[j] := NONE], Rotated(c, h, j), k)
  {
    hide Rotated;
    RotatedSame(c, h, j);
    var r := Rotated(c, h, j);
    var s := Source(c, h, j, k);
    assert LoopAt(aux, c, h, s) && LoopAt(aux, c, h, j) && (h > 0 ==> LoopAt(aux, c, h, h - 1));
    assert r[k] == c[s];
    if k + 1 < |r| { assert r[k + 1] == c[Source(c, h, j, k + 1)]; }
  }

  lemma CutAll(aux: seq<int>, c: seq<nat>, h: nat, j: nat)
    requires Looped(aux, c, h) && h <= j < |c| && c[j] < |aux| && (h > 0 ==> c[h - 1] < |aux|)
    ensures Chained((if h > 0 then aux[c[h - 1] := aux[c[j]]] else aux)[c[j] := NONE], Rotated(c, h, j))
  {
    hide Rotated;
    var r := Rotated(c, h, j);
    RotatedSame(c, h, j);
    var aux' := (if h > 0 then aux[c[h - 1] := aux[c[j]]] else aux)[c[j] := NONE];
    forall k: nat | k < |r| ensures LinkAt(aux', r, k) {
      CutAt(aux, c, h, j, k);
    }
  }

  /** Cutting a loop behind c[j]: what leads into the loop now leads to the block after c[j]. */
  lemma CutLoop(aux: seq<int>, c: seq<nat>, h: nat, j: nat)
    requires Looped(aux, c, h) && h <= j < |c|
    ensures c[j] < |aux| && (h > 0 ==> c[h - 1] < |aux|)
    ensures aux[c[j]] >= 0 && aux[c[j]] == Rotated(c, h, j)[h]
    ensures Chained((if h > 0 then aux[c[h - 1] := aux[c[j]]] else aux)[c[j] := NONE], Rotated(c, h, j))
    ensures Last(Rotated(c, h, j)) == c[j]
  {
    RotatedSame(c, h, j);
    var r := Rotated(c, h, j);
    assert LoopAt(aux, c, h, j) && (h > 0 ==> LoopAt(aux, c, h, h - 1));
    assert r[h] == c[Source(c, h, j, h)] && r[|c| - 1] == c[Source(c, h, j, |c| - 1)];
    CutAll(aux, c, h, j);
  }
}
