/** Making nodes and strings (gspin-tree.c): what every graph that is written has been made with. */
module GspinTree {
  import opened Mempools
  import opened GspinNodes
  import opened GspinIo

  /** Nothing has been stored behind the nodes. */
  ghost predicate Clear(m: Memory, b: seq<nat>, end: nat) {
    forall i: nat :: end <= i && i / BLOCK < |b| ==> Cell(m, b, i) == 0
  }

  ghost predicate InBlocks(blocks: seq<nat>, p: nat) {
    exists k :: 0 <= k < |blocks| && Inside(blocks[k], p)
  }

  /** Nothing has been stored outside the blocks. */
  ghost predicate Confined(m: Memory, blocks: seq<nat>) {
    forall p :: p in m ==> InBlocks(blocks, p)
  }

  /** What making nodes relies on. */
  ghost predicate Roomy(g: Pool)
    reads g, g.nodes, g.strings
  {
    Clear(g.mem, g.nodes.bases, g.nodes.current_index) && Confined(g.mem, g.nodes.bases + g.strings.bases)
  }

  /** The first end cells are the same. */
  ghost predicate SameCells(m: Memory, b: seq<nat>, m1: Memory, b1: seq<nat>, end: nat) {
    forall i: nat :: i < end ==> Cell(m1, b1, i) == Cell(m, b, i)
  }

  lemma TiledStart(table: seq<nat>, m: Memory, b: seq<nat>, starts: seq<nat>, end: nat)
    requires Tiled(table, m, b, starts, end)
    ensures if starts == [] then end == 0 else starts[0] == 0
  {
  }

  lemma TiledAll(table: seq<nat>, m: Memory, b: seq<nat>, starts: seq<nat>, end: nat)
    requires starts != [] && starts[0] == 0 && forall k: nat :: k < |starts| ==> StepAt(table, m, b, starts, end, k)
    ensures Tiled(table, m, b, starts, end)
  {
  }

  lemma NoGap(m: Memory, b: seq<nat>, i: nat)
    ensures Gap(m, b, i, i)
  {
  }

  lemma LastStep(table: seq<nat>, m: Memory, b: seq<nat>, more: seq<nat>, last: nat, o: nat)
    requires more != [] && more[|more| - 1] == o && NodeAt(table, m, b, o, last) && last == o + SizeAt(table, m, b, o)
    ensures StepAt(table, m, b, more, last, |more| - 1)
  {
    NoGap(m, b, last);
  }

  lemma StepIn(table: seq<nat>, m: Memory, b: seq<nat>, starts: seq<nat>, end: nat, k: nat)
    requires Tiled(table, m, b, starts, end) && k < |starts|
    ensures StepAt(table, m, b, starts, end, k)
  {
  }

  lemma GapMore(m: Memory, b: seq<nat>, m1: Memory, b1: seq<nat>, i: nat, j: nat, j1: nat, end: nat)
    requires Gap(m, b, i, j) && SameCells(m, b, m1, b1, end) && j <= end
    requires j1 == j || (i == j == end && Gap(m1, b1, end, j1))
    ensures Gap(m1, b1, i, j1)
  {
  }

  /** The step from node k is the same, or goes on to the new node. */
  lemma StepMore(table: seq<nat>, m: Memory, b: seq<nat>, m1: Memory, b1: seq<nat>, starts: seq<nat>, end: nat, o: nat,
                 n: nat, k: nat)
    requires Tiled(table, m, b, starts, end) && b <= b1 && SameCells(m, b, m1, b1, end)
    requires end <= o && Gap(m1, b1, end, o) && k < |starts| && n > 0
    ensures StepAt(table, m1, b1, starts + [o], o + n, k)
  {
    hide Gap, NodeSize, Tiled;
    NextFacts(table, m, b, starts, end, k);
    assert StepAt(table, m, b, starts, end, k) by { StepIn(table, m, b, starts, end, k); }
    GapMore(m, b, m1, b1, starts[k] + SizeAt(table, m, b, starts[k]), Next(starts, k, end), Next(starts + [o], k,
            o + n), end);
  }

  lemma TiledMore(table: seq<nat>, m: Memory, b: seq<nat>, m1: Memory, b1: seq<nat>, starts: seq<nat>, end: nat, o: nat,
                  n: nat)
    requires Tiled(table, m, b, starts, end) && b <= b1 && SameCells(m, b, m1, b1, end)
    requires end <= o && (end == 0 ==> o == 0) && Gap(m1, b1, end, o)
    requires NodeAt(table, m1, b1, o, o + n) && n == SizeAt(table, m1, b1, o) && n > 0
    ensures Tiled(table, m1, b1, starts + [o], o + n)
  {
    hide Gap, NodeAt, NodeSize, Tiled, StepAt;
    var more, last := starts + [o], o + n;
    TiledStart(table, m, b, starts, end);
    forall k: nat | k < |more| ensures StepAt(table, m1, b1, more, last, k) {
      if k < |starts| {
        StepMore(table, m, b, m1, b1, starts, end, o, n, k);
      } else {
        LastStep(table, m1, b1, more, last, o);
      }
    }
    TiledAll(table, m1, b1, more, last);
  }

  /** Storing at the address of cell o changes that cell only. */
  lemma StoreOne(m: Memory, b: seq<nat>, o: nat, v: nat)
    requires Apart(b) && o / BLOCK < |b|
    ensures Cell(m[Addr(b, o) := v], b, o) == v
    ensures forall i: nat :: i / BLOCK < |b| && i != o ==> Cell(m[Addr(b, o) := v], b, i) == Cell(m, b, i)
  {
    forall i: nat | i / BLOCK < |b| && i != o ensures Cell(m[Addr(b, o) := v], b, i) == Cell(m, b, i) {
      if Addr(b, i) == Addr(b, o) { AddrInjective(b, i, o); }
    }
  }

  lemma NothingThere(m: Memory, all: seq<nat>, base: nat, p: nat)
    requires Confined(m, all) && BlockFree(all, base) && Inside(base, p)
    ensures p !in m
  {
    assert forall k :: 0 <= k < |all| ==> !Inside(all[k], p);
    assert !InBlocks(all, p);
  }

  /** The new block is empty; the old ones are where they were. */
  lemma BlockAdded(m: Memory, b: seq<nat>, b1: seq<nat>, sb: seq<nat>, base: nat)
    requires Confined(m, b + sb) && BlockFree(b + sb, base) && (b1 == b || b1 == b + [base])
    ensures forall i: nat :: i / BLOCK < |b| ==> Cell(m, b1, i) == Cell(m, b, i)
    ensures forall i: nat :: |b| <= i / BLOCK < |b1| ==> Cell(m, b1, i) == 0
    ensures Confined(m, b1 + sb)
  {
    forall i: nat | |b| <= i / BLOCK < |b1| ensures Cell(m, b1, i) == 0 {
      assert Addr(b1, i) == base + i % BLOCK;
      NothingThere(m, b + sb, base, Addr(b1, i));
    }
    forall p | p in m ensures InBlocks(b1 + sb, p) {
      assert InBlocks(b + sb, p);
      var k :| 0 <= k < |b + sb| && Inside((b + sb)[k], p);
      var k1 := if k < |b| then k else k - |b| + |b1|;
      assert (b1 + sb)[k1] == (b + sb)[k];
    }
  }

  lemma ApartMore(b: seq<nat>, b1: seq<nat>, sb: seq<nat>, base: nat)
    requires Apart(b + sb) && BlockFree(b + sb, base) && (b1 == b || b1 == b + [base])
    ensures Apart(b1 + sb)
  {
    if b1 != b {
      var all, more := b + sb, b1 + sb;
      forall k | 0 <= k < |more|
        ensures more[k] == (if k < |b| then all[k] else if k == |b| then base else all[k - 1])
      {
        if k < |b| {
          assert more[k] == b1[k] == b[k] == all[k];
        } else if k > |b| {
          assert more[k] == sb[k - |b1|] == all[k - 1];
        }
      }
      forall k | 0 <= k < |more| ensures more[k] > 0 {
        if k != |b| { assert more[k] == all[if k < |b| then k else k - 1]; }
      }
      forall j, k | 0 <= j < k < |more| ensures more[j] + BLOCK <= more[k] || more[k] + BLOCK <= more[j] {
        var j1, k1 := if j < |b| then j else j - 1, if k < |b| then k else k - 1;
        if j == |b| {
          assert more[k] == all[k1];
        } else if k == |b| {
          assert more[j] == all[j1];
        } else {
          assert more[j] == all[j1] && more[k] == all[k1];
        }
      }
    }
  }

  lemma FreeForOne(b: seq<nat>, sb: seq<nat>, base: nat)
    requires BlockFree(b + sb, base)
    ensures BlockFree(b, base) && BlockFree(sb, base)
  {
    forall k | 0 <= k < |b| ensures b[k] + BLOCK <= base || base + BLOCK <= b[k] { assert (b + sb)[k] == b[k]; }
    forall k | 0 <= k < |sb|
      ensures sb[k] + BLOCK <= base || base + BLOCK <= sb[k]
    {
      assert (b + sb)[|b| + k] == sb[k];
    }
  }

  lemma CellsAdded(m: Memory, b: seq<nat>, b1: seq<nat>, sb: seq<nat>, base: nat, end: nat, o: nat, v: nat)
    requires Confined(m, b + sb) && BlockFree(b + sb, base) && (b1 == b || b1 == b + [base]) && Apart(b1)
    requires Clear(m, b, end) && end <= |b| * BLOCK && end <= o && o / BLOCK < |b1|
    requires end > 0 ==> (end - 1) / BLOCK < |b|
    ensures SameCells(m, b, m[Addr(b1, o) := v], b1, end)
    ensures forall i: nat :: end <= i && i / BLOCK < |b1| ==>
      Cell(m[Addr(b1, o) := v], b1, i) == if i == o then v else 0
  {
    hide Addr, Apart, BlockFree, Confined, Cell;
    var m1 := m[Addr(b1, o) := v];
    BlockAdded(m, b, b1, sb, base);
    StoreOne(m, b1, o, v);
    forall i: nat | i < end ensures Cell(m1, b1, i) == Cell(m, b, i) {
      assert i / BLOCK <= (end - 1) / BLOCK < |b|;
      assert Cell(m, b1, i) == Cell(m, b, i);
    }
    forall i: nat | end <= i && i / BLOCK < |b1| ensures Cell(m1, b1, i) == if i == o then v else 0 {
      if i / BLOCK < |b| { assert Cell(m, b1, i) == Cell(m, b, i); }
      assert Cell(m, b1, i) == 0;
    }
  }

  lemma StoredInside(m: Memory, b: seq<nat>, sb: seq<nat>, o: nat, v: nat)
    requires Confined(m, b + sb) && o / BLOCK < |b|
    ensures Confined(m[Addr(b, o) := v], b + sb)
  {
    assert (b + sb)[o / BLOCK] == b[o / BLOCK];
    assert InBlocks(b + sb, Addr(b, o));
  }

  lemma EndAligned(table: seq<nat>, m: Memory, b: seq<nat>, starts: seq<nat>, end: nat)
    requires Tiled(table, m, b, starts, end)
    ensures end % WORD == 0 && (end > 0 ==> (end - 1) / BLOCK < |b|)
  {
    if starts != [] {
      assert StepAt(table, m, b, starts, end, |starts| - 1);
    }
  }

  /** A word stored where the nodes end leaves words only. */
  lemma WordsAdded(m: Memory, b: seq<nat>, m1: Memory, b1: seq<nat>, end: nat, o: nat)
    requires OnlyWords(m, b) && SameCells(m, b, m1, b1, end) && o % WORD == 0 && (end > 0 ==> (end - 1) / BLOCK < |b|)
    requires forall i: nat :: end <= i && i / BLOCK < |b1| && i != o ==> Cell(m1, b1, i) == 0
    ensures OnlyWords(m1, b1)
  {
    forall i: nat | i / BLOCK < |b1| && i % WORD != 0 ensures Cell(m1, b1, i) == 0 {
      if i < end {
        assert i / BLOCK <= (end - 1) / BLOCK;
        assert Cell(m, b, i) == 0;
      }
    }
  }

  lemma WordsKept(m: Memory, m1: Memory, b: seq<nat>)
    requires OnlyWords(m, b) && forall i: nat :: i / BLOCK < |b| && i % WORD != 0 ==> Cell(m1, b, i) == Cell(m, b, i)
    ensures OnlyWords(m1, b)
  {
  }

  lemma NodeCells(m: Memory, b: seq<nat>, end: nat, o: nat, n: nat, code: nat)
    requires forall i: nat :: end <= i && i / BLOCK < |b| ==> Cell(m, b, i) == if i == o then code else 0
    requires end <= o && n > 0 && o / BLOCK == (o + n - 1) / BLOCK < |b|
    ensures Gap(m, b, end, o) && Clear(m, b, o + n)
    ensures forall x: nat :: o <= x < o + n ==> Cell(m, b, x) == if x == o then code else 0
  {
    forall i: nat | end <= i < o && i % WORD == 0 ensures Cell(m, b, i) == 0 {
      assert i / BLOCK <= o / BLOCK < |b|;
    }
    forall x: nat | o <= x < o + n ensures Cell(m, b, x) == if x == o then code else 0 {
      assert x / BLOCK <= (o + n - 1) / BLOCK < |b|;
    }
  }

  lemma NodeIsAt(table: seq<nat>, m: Memory, b: seq<nat>, b1: seq<nat>, end: nat, o: nat, code: nat)
    requires Cell(m, b1, o) == code < 256 && 0 < NodeSize(table, code) && end % WORD == 0
    requires o == (if b1 == b then end else |b| * BLOCK)
    requires o / BLOCK == (o + NodeSize(table, code) - 1) / BLOCK < |b1|
    ensures NodeAt(table, m, b1, o, o + NodeSize(table, code)) && o % WORD == 0
  {
    hide NodeSize, Cell;
  }

  /** A node of the given code has been put at offset o, and nothing else has changed. */
  lemma NodeAdded(table: seq<nat>, m: Memory, b: seq<nat>, b1: seq<nat>, sb: seq<nat>, base: nat, starts: seq<nat>,
                  end: nat, o: nat, code: nat)
    requires Table(table) && code != DOT && code < 256 && 0 < NodeSize(table, code)
    requires Confined(m, b + sb) && BlockFree(b + sb, base) && (b1 == b || b1 == b + [base]) && Apart(b1 + sb)
    requires Apart(b1)
    requires Tiled(table, m, b, starts, end) && Clear(m, b, end) && end <= |b| * BLOCK && (end == 0 ==> b == [])
    requires OnlyWords(m, b)
    requires o == (if b1 == b then end else |b| * BLOCK) && o / BLOCK == (o + NodeSize(table, code) - 1) / BLOCK < |b1|
    ensures
      var m1 := m[Addr(b1, o) := code];
      && Tiled(table, m1, b1, starts + [o], o + NodeSize(table, code)) && Clear(m1, b1, o + NodeSize(table, code))
      && Confined(m1, b1 + sb) && SameCells(m, b, m1, b1, end) && OnlyWords(m1, b1)
      && (forall x: nat :: o <= x < o + NodeSize(table, code) ==> Cell(m1, b1, x) == if x == o then code else 0)
  {
    hide Tiled, Addr, Apart, BlockFree, Confined, Cell, NodeSize, OnlyWords, Clear, Gap, SameCells, NodeAt;
    var m1, n := m[Addr(b1, o) := code], NodeSize(table, code);
    EndAligned(table, m, b, starts, end);
    CellsAdded(m, b, b1, sb, base, end, o, code);
    NodeCells(m1, b1, end, o, n, code);
    NodeIsAt(table, m1, b, b1, end, o, code);
    WordsAdded(m, b, m1, b1, end, o);
    assert b <= b1;
    TiledMore(table, m, b, m1, b1, starts, end, o, n);
    BlockAdded(m, b, b1, sb, base);
    StoredInside(m, b1, sb, o, code);
  }

  ghost predicate NoCommon(a: Arena, other: Arena)
    reads a`blocks, other`blocks
  {
    a != other && forall x :: x in a.blocks ==> x !in other.blocks
  }

  /** An allocation in one arena leaves the other as it was. */
  method AllocApart(a: Arena, other: Arena, count: nat, base: nat) returns (p: nat)
    requires a.Valid() && other.Valid() && NoCommon(a, other) && count <= BLOCK && BlockFree(a.bases, base)
    modifies a, a.blocks
    ensures (a.Valid() <==> !old(a.Wraps(count))) && other.Valid() && NoCommon(a, other) && old(a.blocks) <= a.blocks
    ensures fresh(a.blocks[|old(a.blocks)|..])
    ensures other.bases == old(other.bases) && other.blocks == old(other.blocks)
    ensures other.current_index == old(other.current_index)
    ensures a.Valid() ==> Allotted(old(a.bases), old(a.current_index), base, count, a.bases, a.current_index)
    ensures a.Valid() ==> old(a.current_index) + count <= a.current_index <= |a.bases| * BLOCK
    ensures a.Valid() ==> p == Addr(a.bases, Place(|a.bases|, a.current_index, count))
    ensures a.Valid() ==> InOneBlock(Place(|a.bases|, a.current_index, count), count, |a.bases|)
  {
    hide Apart, Addr, BlockFree;
    ghost var was := a.blocks;
    assert forall x :: x in other.blocks ==> allocated(x) && x !in a.blocks;
    p := a.Alloc(count, base);
    assert unchanged(other) && forall x :: x in other.blocks ==> unchanged(x);
    forall k: nat | k < |other.blocks| ensures other.BlockAt(k) {
      assert old(other.BlockAt(k)) && other.blocks[k] in other.blocks;
    }
    forall x | x in a.blocks ensures x !in other.blocks {
      if x !in was {
        var k :| 0 <= k < |a.blocks| && a.blocks[k] == x;
        assert a.blocks[|was|..][k - |was|] == x;
      }
    }
  }

  /** The node at o has just its code. */
  ghost predicate IsFresh(table: seq<nat>, m: Memory, b: seq<nat>, o: nat, code: nat) {
    forall x: nat :: o <= x < o + NodeSize(table, code) ==> Cell(m, b, x) == if x == o then code else 0
  }

  lemma FreshRefs(table: seq<nat>, m: Memory, b: seq<nat>, sb: seq<nat>, starts: seq<nat>, send: nat, o: nat, code: nat)
    requires IsFresh(table, m, b, o, code) && code < 256 && code != IB_STRING && 0 < NodeSize(table, code)
    ensures RefsAt(table, m, b, sb, starts, send, o)
  {
    hide Cell, NodeSize;
    assert Cell(m, b, o) == code;
    forall j: nat | j < Arity(table, code) ensures Cell(m, b, KidAt(o, j)) == NULL {
      KidInside(table, code, j);
    }
  }

  ghost predicate PendingIn(table: seq<nat>, m: Memory, b: seq<nat>, sb: seq<nat>, starts: seq<nat>, send: nat,
                            pending: set<nat>) {
    forall k: nat :: k < |starts| && k !in pending ==> RefsAt(table, m, b, sb, starts, send, starts[k])
  }

  lemma NodeMoved(b: seq<nat>, b1: seq<nat>, starts: seq<nat>, starts1: seq<nat>, p: nat)
    requires IsNode(b, starts, p) && StartsIn(b, starts) && b <= b1 && starts <= starts1
    ensures IsNode(b1, starts1, p)
  {
    var t :| 0 <= t < |starts| && p == Addr(b, starts[t]);
    assert starts1[t] == starts[t] && Addr(b1, starts[t]) == Addr(b, starts[t]);
  }

  lemma StringMoved(sb: seq<nat>, sb1: seq<nat>, send: nat, send1: nat, s: nat, n: nat)
    requires IsString(sb, send, s, n) && sb <= sb1 && send <= send1
    ensures IsString(sb1, send1, s, n)
  {
    var i: nat :| StringAt(sb, send, s, n, i);
    assert StringAt(sb1, send1, s, n, i);
  }

  /** Good references stay good while the arenas grow, if the node keeps its cells. */
  lemma RefsGrow(table: seq<nat>, m: Memory, b: seq<nat>, sb: seq<nat>, starts: seq<nat>, send: nat, o: nat,
                 m1: Memory, b1: seq<nat>, sb1: seq<nat>, starts1: seq<nat>, send1: nat)
    requires RefsAt(table, m, b, sb, starts, send, o) && StartsIn(b, starts)
    requires b <= b1 && sb <= sb1 && starts <= starts1 && send <= send1
    requires 0 < SizeAt(table, m, b, o)
    requires forall x: nat :: o <= x < o + SizeAt(table, m, b, o) ==> Cell(m1, b1, x) == Cell(m, b, x)
    ensures RefsAt(table, m1, b1, sb1, starts1, send1, o)
  {
    hide Cell, IsNode, IsString, StartsIn;
    var w := Cell(m, b, o);
    assert Cell(m1, b1, o) == w;
    forall j: nat | j < Arity(table, Code(w))
      ensures Cell(m1, b1, KidAt(o, j)) == NULL || IsNode(b1, starts1, Cell(m1, b1, KidAt(o, j)))
    {
      KidInside(table, Code(w), j);
      var p := Cell(m, b, KidAt(o, j));
      assert Cell(m1, b1, KidAt(o, j)) == p;
      if p != NULL { NodeMoved(b, b1, starts, starts1, p); }
    }
    if Code(w) == IB_STRING {
      assert Cell(m1, b1, o + WORD) == Cell(m, b, o + WORD);
      StringMoved(sb, sb1, send, send1, Cell(m, b, o + WORD), SLen(w));
    }
  }

  lemma AllStartsIn(table: seq<nat>, m: Memory, b: seq<nat>, starts: seq<nat>, end: nat)
    requires Tiled(table, m, b, starts, end)
    ensures StartsIn(b, starts)
  {
    forall k | 0 <= k < |starts| ensures starts[k] / BLOCK < |b| { StepIn(table, m, b, starts, end, k); }
  }

  lemma MorePending(table: seq<nat>, m: Memory, b: seq<nat>, m1: Memory, b1: seq<nat>, sb: seq<nat>, starts: seq<nat>,
                    end: nat, send: nat, o: nat, code: nat, pending: set<nat>)
    requires Table(table) && Tiled(table, m, b, starts, end) && PendingIn(table, m, b, sb, starts, send, pending)
    requires b <= b1
    requires SameCells(m, b, m1, b1, end) && IsFresh(table, m1, b1, o, code) && code < 256 && 0 < NodeSize(table, code)
    ensures
      var pending1 := if code == IB_STRING then pending + {|starts|} else pending;
      PendingIn(table, m1, b1, sb, starts + [o], send, pending1)
  {
    hide Cell, NodeSize, Tiled, RefsAt, IsFresh;
    AllStartsIn(table, m, b, starts, end);
    var more := starts + [o];
    forall k: nat | k < |more| && k !in (if code == IB_STRING then pending + {|starts|} else pending)
      ensures RefsAt(table, m1, b1, sb, more, send, more[k])
    {
      if k < |starts| {
        NextFacts(table, m, b, starts, end, k);
        RefsGrow(table, m, b, sb, starts, send, starts[k], m1, b1, sb, more, send);
      } else {
        FreshRefs(table, m1, b1, sb, more, send, o, code);
      }
    }
  }

  lemma CodeSize(table: seq<nat>, code: nat)
    requires Table(table)
    ensures NodeSize(table, code) <= BLOCK
  {
  }

  /** All nodes but those in pending have good operands and strings. */
  ghost predicate Pending(g: Pool, pending: set<nat>)
    reads g, g.nodes, g.strings
  {
    PendingIn(g.table, g.mem, g.nodes.bases, g.strings.bases, g.starts, g.strings.current_index, pending)
  }

  /** __gs: a new node, its kids all NULL. */
  method NewNode(g: Pool, code: nat, base: nat, ghost pending: set<nat>) returns (p: nat)
    requires g.Valid() && Roomy(g) && Pending(g, pending) && code != DOT && code < 256 && 0 < NodeSize(g.table, code)
    requires BlockFree(g.nodes.bases + g.strings.bases, base)
    modifies g`mem, g`starts, g.nodes, g.nodes.blocks
    ensures g.Valid() && Roomy(g) && |g.starts| == |old(g.starts)| + 1 && g.starts[..|old(g.starts)|] == old(g.starts)
    ensures p == Addr(g.nodes.bases, g.starts[|old(g.starts)|])
    ensures SameCells(old(g.mem), old(g.nodes.bases), g.mem, g.nodes.bases, old(g.nodes.current_index))
    ensures IsFresh(g.table, g.mem, g.nodes.bases, g.starts[|old(g.starts)|], code)
    ensures Pending(g, if code == IB_STRING then pending + {|old(g.starts)|} else pending)
    ensures Allotted(old(g.nodes.bases), old(g.nodes.current_index), base, NodeSize(g.table, code), g.nodes.bases,
      g.nodes.current_index)
    ensures old(g.nodes.blocks) <= g.nodes.blocks && fresh(g.nodes.blocks[|old(g.nodes.blocks)|..])
    ensures g.starts[|old(g.starts)|] + NodeSize(g.table, code) == g.nodes.current_index
  {
    hide Tiled, Addr, Apart, BlockFree, Clear, Confined, SameCells, Cell, PendingIn, NodeSize, Allotted, OnlyWords;
    ghost var starts := g.starts;
    ghost var b, end, sb, m := g.nodes.bases, g.nodes.current_index, g.strings.bases, g.mem;
    FreeForOne(b, sb, base);
    var size := NodeSize(g.table, code);
    CodeSize(g.table, code);
    p := AllocApart(g.nodes, g.strings, size, base);
    AllottedFacts(b, end, base, size, g.nodes.bases, g.nodes.current_index);
    ghost var o := g.nodes.current_index - size;
    ApartMore(b, g.nodes.bases, sb, base);
    JoinApart(g.nodes.bases, sb);
    NodeAdded(g.table, m, b, g.nodes.bases, sb, base, g.starts, end, o, code);
    g.mem := g.mem[p := code];
    g.starts := g.starts + [o];
    MorePending(g.table, m, b, g.mem, g.nodes.bases, sb, starts, end, g.strings.current_index, o, code, pending);
  }

  // ---- references ------------------------------------------------------------------------------

  /** An empty pool is ready for nodes; without pending nodes a pool can be written. */
  lemma PoolStates(g: Pool)
    requires g.Valid()
    ensures g.mem == map[] && g.nodes.bases == [] && g.strings.bases == [] ==> Roomy(g)
    ensures Pending(g, {}) <==> g.Complete()
  {
  }

  /** Changing node k, but not its code, leaves all nodes where they are. */
  lemma TiledSame(table: seq<nat>, m: Memory, m1: Memory, b: seq<nat>, starts: seq<nat>, end: nat, k: nat)
    requires Tiled(table, m, b, starts, end) && k < |starts|
    requires Code(Cell(m1, b, starts[k])) == Code(Cell(m, b, starts[k]))
    requires forall i: nat :: i < end && !(starts[k] <= i < starts[k] + SizeAt(table, m, b, starts[k])) ==>
      Cell(m1, b, i) == Cell(m, b, i)
    ensures Tiled(table, m1, b, starts, end)
  {
    hide Cell, NodeSize, Tiled;
    TiledStart(table, m, b, starts, end);
    forall l: nat | l < |starts| ensures StepAt(table, m1, b, starts, end, l) {
      StepIn(table, m, b, starts, end, l);
      NextFacts(table, m, b, starts, end, l);
      NextFacts(table, m, b, starts, end, k);
      if l < k { Ordered(table, m, b, starts, end, l, k); }
      if k < l { Ordered(table, m, b, starts, end, k, l); }
    }
    TiledAll(table, m1, b, starts, end);
  }

  lemma NodesApart(table: seq<nat>, m: Memory, b: seq<nat>, starts: seq<nat>, end: nat, k: nat, l: nat, x: nat)
    requires Tiled(table, m, b, starts, end) && k < |starts| && l < |starts| && k != l
    requires starts[l] <= x < starts[l] + SizeAt(table, m, b, starts[l])
    ensures !(starts[k] <= x < starts[k] + SizeAt(table, m, b, starts[k])) && x < end
  {
    hide Cell, NodeSize, Tiled;
    NextFacts(table, m, b, starts, end, l);
    NextFacts(table, m, b, starts, end, k);
    if l < k { Ordered(table, m, b, starts, end, l, k); } else { Ordered(table, m, b, starts, end, k, l); }
  }

  lemma HeadIs(m: Memory, b: seq<nat>, o: nat, p: nat)
    requires p == Addr(b, o)
    ensures At(m, p) == Cell(m, b, o)
  {
  }

  lemma ClearKept(m: Memory, m1: Memory, b: seq<nat>, end: nat, x: nat)
    requires Clear(m, b, end) && x < end
    requires forall i: nat :: i / BLOCK < |b| && i != x ==> Cell(m1, b, i) == Cell(m, b, i)
    ensures Clear(m1, b, end)
  {
  }

  lemma KidRefs(table: seq<nat>, m: Memory, m1: Memory, b: seq<nat>, sb: seq<nat>, starts: seq<nat>, send: nat, o: nat,
                j: nat)
    requires Table(table) && RefsAt(table, m, b, sb, starts, send, o) && j < Arity(table, Code(Cell(m, b, o)))
    requires o / BLOCK == (o + SizeAt(table, m, b, o) - 1) / BLOCK < |b|
    requires forall i: nat :: i / BLOCK < |b| && i != KidAt(o, j) ==> Cell(m1, b, i) == Cell(m, b, i)
    requires Cell(m1, b, KidAt(o, j)) == NULL || IsNode(b, starts, Cell(m1, b, KidAt(o, j)))
    ensures RefsAt(table, m1, b, sb, starts, send, o)
  {
    hide Cell, NodeSize, IsNode, IsString;
    var w := Cell(m, b, o);
    assert Cell(m1, b, o) == w;
    forall l: nat | l < Arity(table, Code(w))
      ensures Cell(m1, b, KidAt(o, l)) == NULL || IsNode(b, starts, Cell(m1, b, KidAt(o, l)))
    {
      KidInside(table, Code(w), l);
      if l != j {
        assert KidAt(o, l) / BLOCK <= (o + SizeAt(table, m, b, o) - 1) / BLOCK;
        assert Cell(m1, b, KidAt(o, l)) == Cell(m, b, KidAt(o, l));
      }
    }
  }

  lemma KidSet(table: seq<nat>, m: Memory, m1: Memory, b: seq<nat>, sb: seq<nat>, starts: seq<nat>, end: nat, send: nat,
               pending: set<nat>, k: nat, j: nat)
    requires Table(table) && Tiled(table, m, b, starts, end) && PendingIn(table, m, b, sb, starts, send, pending)
    requires k < |starts|
    requires j < Arity(table, Code(Cell(m, b, starts[k])))
    requires forall i: nat :: i / BLOCK < |b| && i != KidAt(starts[k], j) ==> Cell(m1, b, i) == Cell(m, b, i)
    requires Cell(m1, b, KidAt(starts[k], j)) == NULL || IsNode(b, starts, Cell(m1, b, KidAt(starts[k], j)))
    ensures PendingIn(table, m1, b, sb, starts, send, pending)
  {
    hide Cell, NodeSize, Tiled, RefsAt, IsNode, IsString;
    var o := starts[k];
    AllStartsIn(table, m, b, starts, end);
    forall l: nat | l < |starts| && l !in pending ensures RefsAt(table, m1, b, sb, starts, send, starts[l]) {
      StepIn(table, m, b, starts, end, l);
      StepIn(table, m, b, starts, end, k);
      KidInside(table, Code(Cell(m, b, o)), j);
      if l != k {
        forall x: nat | starts[l] <= x < starts[l] + SizeAt(table, m, b, starts[l])
          ensures Cell(m1, b, x) == Cell(m, b, x)
        {
          NodesApart(table, m, b, starts, end, k, l, x);
          assert x / BLOCK <= (starts[l] + SizeAt(table, m, b, starts[l]) - 1) / BLOCK;
        }
        RefsGrow(table, m, b, sb, starts, send, starts[l], m1, b, sb, starts, send);
      } else {
        KidRefs(table, m, m1, b, sb, starts, send, o, j);
      }
    }
  }

  /** gs_set_operand. */
  method SetKid(g: Pool, ghost k: nat, p: nat, j: nat, kid: nat, ghost pending: set<nat>)
    requires g.Valid() && Roomy(g) && Pending(g, pending) && k < |g.starts| && p == Addr(g.nodes.bases, g.starts[k])
    requires j < Arity(g.table, Code(At(g.mem, p))) && (kid == NULL || IsNode(g.nodes.bases, g.starts, kid))
    modifies g`mem
    ensures g.Valid() && Roomy(g) && Pending(g, pending)
    ensures Cell(g.mem, g.nodes.bases, KidAt(g.starts[k], j)) == kid
    ensures forall i: nat :: i / BLOCK < |g.nodes.bases| && i != KidAt(g.starts[k], j) ==>
      Cell(g.mem, g.nodes.bases, i) == Cell(old(g.mem), g.nodes.bases, i)
  {
    hide Tiled, Addr, Apart, Clear, Confined, Cell, RefsAt, IsNode, OnlyWords;
    ghost var o, m, b := g.starts[k], g.mem, g.nodes.bases;
    HeadIs(m, b, o, p);
    StepIn(g.table, m, b, g.starts, g.nodes.current_index, k);
    KidInside(g.table, Code(At(m, p)), j);
    AddrRun(b, o, SizeAt(g.table, m, b, o), WORD + j * WORD);
    g.mem := g.mem[p + WORD + j * WORD := kid];
    JoinApart(b, g.strings.bases);
    StoreOne(m, b, KidAt(o, j), kid);
    ClearKept(m, g.mem, b, g.nodes.current_index, KidAt(o, j));
    WordsKept(m, g.mem, b);
    StoredInside(m, b, g.strings.bases, KidAt(o, j), kid);
    TiledSame(g.table, m, g.mem, b, g.starts, g.nodes.current_index, k);
    KidSet(g.table, m, g.mem, b, g.strings.bases, g.starts, g.nodes.current_index, g.strings.current_index, pending, k,
           j);
  }

  /** memcpy of a string into memory. */
  function PutBytes(m: Memory, p: nat, bytes: seq<nat>): Memory
    decreases |bytes|
  {
    if bytes == [] then m else PutBytes(m[p := bytes[0]], p + 1, bytes[1..])
  }

  lemma {:induction false} PutBytesAt(m: Memory, p: nat, bytes: seq<nat>, q: nat)
    ensures At(PutBytes(m, p, bytes), q) == if p <= q < p + |bytes| then bytes[q - p] else At(m, q)
    ensures q in PutBytes(m, p, bytes) ==> q in m || p <= q < p + |bytes|
    decreases |bytes|
  {
    if bytes != [] { PutBytesAt(m[p := bytes[0]], p + 1, bytes[1..], q); }
  }

  /** Putting bytes in the string arena leaves the cells of the nodes as they are. */
  lemma StringElsewhere(m: Memory, b: seq<nat>, sb: seq<nat>, o: nat, bytes: seq<nat>)
    requires Apart(b + sb) && InOneBlock(o, |bytes|, |sb|)
    ensures forall i: nat :: i / BLOCK < |b| ==> Cell(PutBytes(m, Addr(sb, o), bytes), b, i) == Cell(m, b, i)
    ensures forall i: nat :: i / BLOCK < |sb| && !(o <= i < o + |bytes|) ==>
      Cell(PutBytes(m, Addr(sb, o), bytes), sb, i) == Cell(m, sb, i)
  {
    var all, s := b + sb, Addr(sb, o);
    assert all[|b| + o / BLOCK] == sb[o / BLOCK];
    if bytes != [] { AddrRun(sb, o, |bytes|, |bytes| - 1); }
    forall i: nat | i / BLOCK < |b| ensures Cell(PutBytes(m, s, bytes), b, i) == Cell(m, b, i) {
      assert all[i / BLOCK] == b[i / BLOCK];
      PutBytesAt(m, s, bytes, Addr(b, i));
    }
    JoinApart(b, sb);
    forall i: nat | i / BLOCK < |sb| && !(o <= i < o + |bytes|)
      ensures Cell(PutBytes(m, s, bytes), sb, i) == Cell(m, sb, i)
    {
      PutBytesAt(m, s, bytes, Addr(sb, i));
      assert !(s <= Addr(sb, i) < s + |bytes|);
    }
  }

  lemma BytesInside(m: Memory, b: seq<nat>, sb: seq<nat>, o: nat, bytes: seq<nat>)
    requires Confined(m, b + sb) && InOneBlock(o, |bytes|, |sb|)
    ensures Confined(PutBytes(m, Addr(sb, o), bytes), b + sb)
  {
    var all := b + sb;
    if bytes != [] { AddrRun(sb, o, |bytes|, |bytes| - 1); }
    forall q | q in PutBytes(m, Addr(sb, o), bytes) ensures InBlocks(all, q) {
      PutBytesAt(m, Addr(sb, o), bytes, q);
      if q !in m {
        assert all[|b| + o / BLOCK] == sb[o / BLOCK] && Inside(all[|b| + o / BLOCK], q);
      }
    }
  }

  /** The first word of a node with the length field set. */
  function WithSLen(w: nat, n: nat): (r: nat)
    ensures Code(r) == Code(w) && SLen(r) == n
  {
    n * 512 + w % 512
  }

  lemma StringSize(table: seq<nat>)
    requires Table(table)
    ensures NodeSize(table, IB_STRING) == 2 * WORD
  {
  }

  lemma ConfinedMore(m: Memory, b: seq<nat>, sb: seq<nat>, sb1: seq<nat>)
    requires Confined(m, b + sb) && sb <= sb1
    ensures Confined(m, b + sb1)
  {
    forall p | p in m ensures InBlocks(b + sb1, p) {
      assert InBlocks(b + sb, p);
      var k :| 0 <= k < |b + sb| && Inside((b + sb)[k], p);
      assert (b + sb1)[k] == (b + sb)[k];
    }
  }

  lemma Swap(x: seq<nat>, y: seq<nat>, base: nat)
    requires Apart(x + y)
    ensures Apart(y + x) && (BlockFree(x + y, base) ==> BlockFree(y + x, base))
  {
    var u, v := x + y, y + x;
    forall k | 0 <= k < |v| ensures v[k] == u[if k < |y| then k + |x| else k - |y|] { }
    forall j, k | 0 <= j < k < |v| ensures v[j] + BLOCK <= v[k] || v[k] + BLOCK <= v[j] {
      assert v[j] == u[if j < |y| then j + |x| else j - |y|] && v[k] == u[if k < |y| then k + |x| else k - |y|];
    }
    forall k | 0 <= k < |v| ensures v[k] > 0 {
      assert v[k] == u[if k < |y| then k + |x| else k - |y|];
    }
    if BlockFree(u, base) {
      forall k | 0 <= k < |v| ensures v[k] + BLOCK <= base || base + BLOCK <= v[k] {
        assert v[k] == u[if k < |y| then k + |x| else k - |y|];
      }
    }
  }

  /** A block has been added behind the strings, or none. */
  lemma MoreStrings(m: Memory, b: seq<nat>, sb: seq<nat>, sb1: seq<nat>, base: nat, send: nat)
    requires Apart(b + sb) && BlockFree(b + sb, base) && (sb1 == sb || sb1 == sb + [base]) && Confined(m, b + sb)
    requires send <= |sb| * BLOCK
    ensures Apart(b + sb1) && Confined(m, b + sb1) && Apart(b) && Apart(sb1) && sb <= sb1
    ensures SameCells(m, sb, m, sb1, send)
  {
    hide Confined, InBlocks;
    Swap(b, sb, base);
    ApartMore(sb, sb1, b, base);
    Swap(sb1, b, 0);
    JoinApart(b, sb1);
    ConfinedMore(m, b, sb, sb1);
    forall i: nat | i < send ensures Cell(m, sb1, i) == Cell(m, sb, i) {
      assert i / BLOCK < |sb|;
    }
  }

  /** What memory holds after the bytes and the two words of the node have been stored. */
  ghost predicate StringThere(m: Memory, m1: Memory, b: seq<nat>, sb: seq<nat>, so: nat, bytes: seq<nat>, o: nat,
                              w: nat, s: nat) {
    && (forall i: nat :: i / BLOCK < |b| ==>
       Cell(m1, b, i) == if i == o then w else if i == o + WORD then s else Cell(m, b, i))
    && (forall i: nat :: i / BLOCK < |sb| ==>
       Cell(m1, sb, i) == if so <= i < so + |bytes| then bytes[i - so] else Cell(m, sb, i))
    && Confined(m1, b + sb)
  }

  lemma CrossApart(b: seq<nat>, sb: seq<nat>, i: nat, j: nat)
    requires Apart(b + sb) && i / BLOCK < |b| && j / BLOCK < |sb|
    ensures Addr(b, i) != Addr(sb, j)
  {
    var all, k, l := b + sb, i / BLOCK, |b| + j / BLOCK;
    assert all[k] == b[i / BLOCK] && all[l] == sb[j / BLOCK] && k < l;
  }

  lemma StringStored(m: Memory, b: seq<nat>, sb: seq<nat>, so: nat, bytes: seq<nat>, o: nat, w: nat, s: nat)
    requires Apart(b + sb) && Apart(b) && Apart(sb) && Confined(m, b + sb)
    requires InOneBlock(so, |bytes|, |sb|) && s == Addr(sb, so)
    requires o / BLOCK == (o + 2 * WORD - 1) / BLOCK < |b|
    ensures StringThere(m, PutBytes(m, s, bytes)[Addr(b, o) + WORD := s][Addr(b, o) := w], b, sb, so, bytes, o, w, s)
  {
    hide Addr, Apart, Confined, PutBytes;
    var m1 := PutBytes(m, s, bytes);
    AddrRun(b, o, 2 * WORD, WORD);
    var m2 := m1[Addr(b, o + WORD) := s];
    var m3 := m2[Addr(b, o) := w];
    StringElsewhere(m, b, sb, so, bytes);
    BytesInside(m, b, sb, so, bytes);
    StoreOne(m1, b, o + WORD, s);
    StoredInside(m1, b, sb, o + WORD, s);
    StoreOne(m2, b, o, w);
    StoredInside(m2, b, sb, o, w);
    forall i: nat | i / BLOCK < |b|
      ensures Cell(m3, b, i) == if i == o then w else if i == o + WORD then s else Cell(m, b, i)
    {
      assert Cell(m1, b, i) == Cell(m, b, i);
      if i != o { assert Cell(m3, b, i) == Cell(m2, b, i); }
      if i != o + WORD { assert Cell(m2, b, i) == Cell(m1, b, i); }
    }
    forall i: nat | i / BLOCK < |sb|
      ensures Cell(m3, sb, i) == if so <= i < so + |bytes| then bytes[i - so] else Cell(m, sb, i)
    {
      CrossApart(b, sb, o, i);
      CrossApart(b, sb, o + WORD, i);
      assert Cell(m3, sb, i) == Cell(m1, sb, i);
      if so <= i < so + |bytes| {
        AddrRun(sb, so, |bytes|, i - so);
        PutBytesAt(m, s, bytes, Addr(sb, i));
      }
    }
  }

  lemma StringRefs(table: seq<nat>, m: Memory, b: seq<nat>, sb: seq<nat>, starts: seq<nat>, send: nat, o: nat, n: nat,
                   so: nat)
    requires Table(table) && Code(Cell(m, b, o)) == IB_STRING && SLen(Cell(m, b, o)) == n
    requires StringAt(sb, send, Cell(m, b, o + WORD), n, so)
    ensures RefsAt(table, m, b, sb, starts, send, o)
  {
  }

  /** What SetString leaves in place, and what it adds. */
  lemma StoredString(table: seq<nat>, m: Memory, m1: Memory, b: seq<nat>, sb: seq<nat>, sb1: seq<nat>, starts: seq<nat>,
                     end: nat, send: nat, send1: nat,
                     pending: set<nat>, k: nat, so: nat, bytes: seq<nat>, w: nat, s: nat)
    requires Table(table) && Tiled(table, m, b, starts, end) && Clear(m, b, end)
    requires PendingIn(table, m, b, sb, starts, send, pending)
    requires k < |starts| && Code(Cell(m, b, starts[k])) == IB_STRING == Code(w) && SLen(w) == |bytes|
    requires StringThere(m, m1, b, sb1, so, bytes, starts[k], w, s) && SameCells(m, sb, m, sb1, send)
    requires sb <= sb1 && send <= |sb| * BLOCK && send <= send1 && so + |bytes| <= send1 && s == Addr(sb1, so)
    requires InOneBlock(so, |bytes|, |sb1|) && (bytes != [] ==> send <= so) && OnlyWords(m, b)
    ensures Tiled(table, m1, b, starts, end) && Clear(m1, b, end) && OnlyWords(m1, b)
    ensures PendingIn(table, m1, b, sb1, starts, send1, pending - {k})
    ensures SameCells(m, sb, m1, sb1, send) && forall x :: 0 <= x < |bytes| ==> At(m1, s + x) == bytes[x]
  {
    hide Tiled, Addr, Cell, NodeSize, RefsAt, OnlyWords;
    var o := starts[k];
    NextFacts(table, m, b, starts, end, k);
    EndAligned(table, m, b, starts, end);
    StringSize(table);
    forall i: nat | i < end ensures i / BLOCK < |b| { assert i / BLOCK <= (end - 1) / BLOCK; }
    assert Cell(m1, b, o) == w;
    WordsKept(m, m1, b);
    TiledSame(table, m, m1, b, starts, end, k);
    forall i: nat | i < send ensures Cell(m1, sb1, i) == Cell(m, sb, i) { assert i / BLOCK < |sb1|; }
    assert StringAt(sb1, send1, s, |bytes|, so);
    forall x | 0 <= x < |bytes| ensures At(m1, s + x) == bytes[x] {
      StringCells(sb1, m1, send1, s, |bytes|, so, x);
      AddrRun(sb1, so, |bytes|, x);
      assert Cell(m1, sb1, so + x) == bytes[x];
    }
    AllStartsIn(table, m, b, starts, end);
    forall l: nat | l < |starts| && l !in pending - {k} ensures RefsAt(table, m1, b, sb1, starts, send1, starts[l]) {
      if l != k {
        NextFacts(table, m, b, starts, end, l);
        forall x: nat | starts[l] <= x < starts[l] + SizeAt(table, m, b, starts[l])
          ensures Cell(m1, b, x) == Cell(m, b, x)
        {
          NodesApart(table, m, b, starts, end, k, l, x);
        }
        RefsGrow(table, m, b, sb, starts, send, starts[l], m1, b, sb1, starts, send1);
      } else {
        StringRefs(table, m1, b, sb1, starts, send1, o, |bytes|, so);
      }
    }
  }

  /** All that SetString does. */
  lemma StringSet(table: seq<nat>, m: Memory, b: seq<nat>, sb: seq<nat>, sb1: seq<nat>, starts: seq<nat>, end: nat,
                  send: nat, send1: nat, pending: set<nat>, k: nat, p: nat, bytes: seq<nat>, base: nat, s: nat)
    requires Table(table) && Tiled(table, m, b, starts, end) && Clear(m, b, end) && OnlyWords(m, b)
    requires PendingIn(table, m, b, sb, starts, send, pending) && Confined(m, b + sb) && Apart(b + sb)
    requires BlockFree(b + sb, base) && k < |starts| && p == Addr(b, starts[k]) && Code(At(m, p)) == IB_STRING
    requires Allotted(sb, send, base, |bytes|, sb1, send1) && send <= |sb| * BLOCK && |bytes| <= send1
    requires var so := Place(|sb1|, send1, |bytes|); InOneBlock(so, |bytes|, |sb1|) && s == Addr(sb1, so)
    ensures
      var m1 := PutBytes(m, s, bytes)[p + WORD := s][p := WithSLen(At(m, p), |bytes|)];
      && Tiled(table, m1, b, starts, end) && Clear(m1, b, end) && OnlyWords(m1, b)
      && PendingIn(table, m1, b, sb1, starts, send1, pending - {k}) && Confined(m1, b + sb1) && Apart(b + sb1)
      && StringThere(m, m1, b, sb1, Place(|sb1|, send1, |bytes|), bytes, starts[k], WithSLen(At(m, p), |bytes|), s)
      && At(m1, p) == WithSLen(At(m, p), |bytes|) && At(m1, p + WORD) == s && sb <= sb1
      && SameCells(m, sb, m1, sb1, send) && forall x :: 0 <= x < |bytes| ==> At(m1, s + x) == bytes[x]
  {
    hide Tiled, Addr, Apart, BlockFree, Clear, Confined, SameCells, Cell, PendingIn, NodeSize, PutBytes, Allotted,
      OnlyWords, InOneBlock;
    var o, so, w := starts[k], Place(|sb1|, send1, |bytes|), WithSLen(At(m, p), |bytes|);
    AllottedFacts(sb, send, base, |bytes|, sb1, send1);
    MoreStrings(m, b, sb, sb1, base, send);
    HeadIs(m, b, o, p);
    StepIn(table, m, b, starts, end, k);
    StringSize(table);
    StringStored(m, b, sb1, so, bytes, o, w, s);
    AddrRun(b, o, 2 * WORD, WORD);
    StoredString(table, m, PutBytes(m, s, bytes)[p + WORD := s][p := w], b, sb, sb1, starts, end, send, send1, pending,
                 k, so, bytes, w, s);
  }

  /** _gs_s: the string of node k. */
  method SetString(g: Pool, ghost k: nat, p: nat, bytes: seq<nat>, base: nat, ghost pending: set<nat>)
    requires g.Valid() && Roomy(g) && Pending(g, pending) && k < |g.starts| && p == Addr(g.nodes.bases, g.starts[k])
    requires Code(At(g.mem, p)) == IB_STRING && |bytes| < 0x800000
    requires BlockFree(g.nodes.bases + g.strings.bases, base)
    modifies g`mem, g.strings, g.strings.blocks
    ensures g.Valid() <==> !old(g.strings.Wraps(|bytes|))
    ensures g.Valid() ==> Roomy(g) && Pending(g, pending - {k})
    ensures g.Valid() ==> Code(At(g.mem, p)) == IB_STRING && SLen(At(g.mem, p)) == |bytes|
    ensures g.Valid() ==> forall x :: 0 <= x < |bytes| ==> At(g.mem, At(g.mem, p + WORD) + x) == bytes[x]
    ensures g.Valid() ==>
      Allotted(old(g.strings.bases), old(g.strings.current_index), base, |bytes|, g.strings.bases,
        g.strings.current_index)
    ensures g.Valid() ==> SameCells(old(g.mem), old(g.strings.bases), g.mem, g.strings.bases,
      old(g.strings.current_index))
    ensures g.Valid() ==>
      forall i: nat :: i / BLOCK < |g.nodes.bases| && i != g.starts[k] && i != g.starts[k] + WORD ==>
        Cell(g.mem, g.nodes.bases, i) == Cell(old(g.mem), g.nodes.bases, i)
    ensures g.Valid() && old(g.strings.current_index) == 0 ==> At(g.mem, p + WORD) == Addr(g.strings.bases, 0)
  {
    hide Tiled, Addr, Apart, BlockFree, Clear, Confined, SameCells, Cell, PendingIn, PutBytes, Allotted, OnlyWords,
      InOneBlock, Place;
    ghost var b, sb, m, send := g.nodes.bases, g.strings.bases, g.mem, g.strings.current_index;
    FreeForOne(b, sb, base);
    var s := AllocApart(g.strings, g.nodes, |bytes|, base);
    var w := WithSLen(At(g.mem, p), |bytes|);
    g.mem := PutBytes(g.mem, s, bytes)[p + WORD := s][p := w];
    if g.strings.Valid() {
      AllottedFacts(sb, send, base, |bytes|, g.strings.bases, g.strings.current_index);
      StringSet(g.table, m, b, sb, g.strings.bases, g.starts, g.nodes.current_index, send, g.strings.current_index,
                pending, k, p, bytes, base, s);
    }
  }
}
