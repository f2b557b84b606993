/** Small graphs made, written and read back (gspin-list.h, gspin-tree.c, gspin-io.c). */
module GspinPrograms {
  import opened Mempools
  import opened GspinNodes
  import opened GspinIo
  import opened GspinRead
  import opened GspinTree
  import opened GspinRoundTrip

  const CONS: nat := 2
  const CONS_SIZE: nat := 3 * WORD
  const STRING_SIZE: nat := 2 * WORD

  /** The table gives CONS its two operands. */
  ghost predicate WithLists(table: seq<nat>) {
    Table(table) && Arity(table, CONS) == 2
  }

  /** gs_cons (e, es), the operands to be set: the first node of a pool, at offset 0 of a first block at base. */
  method FirstCons(g: Pool, base: nat) returns (p: nat)
    requires g.Valid() && WithLists(g.table) && g.mem == map[] && g.nodes.bases == [] && g.strings.bases == []
    requires g.starts == []
    requires base > 0
    modifies g`mem, g`starts, g.nodes, g.nodes.blocks
    ensures g.Valid() && Roomy(g) && Pending(g, {}) && g.starts == [0] && g.nodes.bases == [base]
    ensures g.nodes.current_index == CONS_SIZE
    ensures fresh(g.nodes.blocks) && g.strings.blocks == []
    ensures p == base == Addr(g.nodes.bases, 0) && IsFresh(g.table, g.mem, g.nodes.bases, 0, CONS)
  {
    hide Tiled, Clear, Confined, Apart, PendingIn, IsFresh, SameCells;
    PoolStates(g);
    assert g.Complete();
    p := NewNode(g, CONS, base, {});
    assert g.nodes.blocks[0..] == g.nodes.blocks;
  }

  lemma FreshHead(table: seq<nat>, m: Memory, b: seq<nat>, o: nat, code: nat)
    requires IsFresh(table, m, b, o, code) && code < 256 && 0 < NodeSize(table, code)
    ensures Cell(m, b, o) == code && Code(Cell(m, b, o)) == code
  {
  }

  /** What is known of a pool whose only node is a CONS. */
  lemma OneCons(g: Pool)
    requires g.Valid() && WithLists(g.table) && g.starts == [0] && g.nodes.current_index == CONS_SIZE
    requires g.strings.bases == []
    requires Code(Cell(g.mem, g.nodes.bases, 0)) == CONS
    ensures StringsInOrder(g.mem, g.nodes.bases, g.strings.bases, g.starts, g.strings.current_index)
    ensures NoStringAtEnd(g.mem, g.nodes.bases, g.strings.bases, g.starts, g.strings.current_index)
    ensures g.nodes.current_index < |g.nodes.bases| * BLOCK
  {
    hide Tiled, Apart;
    assert !IsStringNode(g.mem, g.nodes.bases, g.starts, 0);
  }

  lemma SelfKid(table: seq<nat>, m: Memory, b: seq<nat>)
    requires WithLists(table) && Code(Cell(m, b, 0)) == CONS && Cell(m, b, KidAt(0, 1)) == Addr(b, 0)
    ensures !NoKidAtZero(table, m, b, [0])
  {
    assert Cell(m, b, KidAt([0][0], 1)) == Addr(b, 0);
  }

  /** Strings in order pass. */
  lemma ComesBack(g: Pool, seg: seq<nat>)
    requires Given(g.table, g.mem, g.nodes.bases, g.strings.bases, g.starts, g.nodes.current_index,
      g.strings.current_index, seg)
    requires StringsInOrder(g.mem, g.nodes.bases, g.strings.bases, g.starts, g.strings.current_index)
    ensures Passes(g.table, seg, SectionAt(seg, g.starts, |g.starts|), g.nodes.current_index)
  {
    InOrderPasses(g.table, g.mem, g.nodes.bases, g.strings.bases, g.starts, g.nodes.current_index,
                  g.strings.current_index, seg);
  }

  /** A node that is its own second operand comes back with NULL there: it is at offset 0. */
  method SelfLoop(table: seq<nat>, base: nat, mem_seg: nat, at: nat) returns (g: Pool, cur: seq<nat>)
    requires WithLists(table) && base > 0 && at > 0
    ensures g.table == table && g.starts == [0] && Cell(g.mem, g.nodes.bases, KidAt(0, 1)) == Addr(g.nodes.bases, 0)
    ensures SameValues(table, g.mem, g.nodes.bases, g.starts, cur, at)
    ensures !SamePointers(table, g.mem, g.nodes.bases, g.starts, cur, at)
  {
    hide Tiled, Clear, Confined, Apart, PendingIn, SameCells, StringsInOrder, SameValues, SamePointers;
    g := new Pool(table);
    var p := FirstCons(g, base);
    FreshHead(g.table, g.mem, g.nodes.bases, 0, CONS);
    HeadIs(g.mem, g.nodes.bases, 0, p);
    assert g.starts[0] == 0 && IsNode(g.nodes.bases, g.starts, p);
    SetKid(g, 0, p, 1, p, {});
    PoolStates(g);
    OneCons(g);
    assert !NoKidAtZero(g.table, g.mem, g.nodes.bases, g.starts) by { SelfKid(g.table, g.mem, g.nodes.bases); }
    var ok, seg;
    ok, seg, cur := RoundTrip(g, mem_seg, at);
    ComesBack(g, seg);
  }

  lemma ConsCells(table: seq<nat>, m: Memory, m1: Memory, b: seq<nat>)
    requires WithLists(table) && IsFresh(table, m, b, 0, CONS) && SameCells(m, b, m1, b, CONS_SIZE)
    ensures forall x: nat :: x < CONS_SIZE ==> Cell(m1, b, x) == if x == 0 then CONS else 0
  {
    assert NodeSize(table, CONS) == CONS_SIZE;
  }

  /** The string node behind the CONS. */
  method AddString(g: Pool, bytes: seq<nat>, string_base: nat, spare: nat) returns (s: nat)
    requires g.Valid() && Roomy(g) && WithLists(g.table) && Pending(g, {}) && g.starts == [0]
    requires g.nodes.current_index == CONS_SIZE
    requires |g.nodes.bases| == 1 && g.strings.bases == [] && BlockFree(g.nodes.bases, spare)
    requires BlockFree(g.nodes.bases, string_base)
    requires IsFresh(g.table, g.mem, g.nodes.bases, 0, CONS) && |bytes| < 0x800000
    modifies g`mem, g`starts, g.nodes, g.nodes.blocks, g.strings, g.strings.blocks
    ensures g.Valid() && Roomy(g) && Pending(g, {}) && g.starts == [0, CONS_SIZE] && g.nodes.bases == old(g.nodes.bases)
    ensures s == Addr(g.nodes.bases, CONS_SIZE) && Code(Cell(g.mem, g.nodes.bases, CONS_SIZE)) == IB_STRING
    ensures Cell(g.mem, g.nodes.bases, CONS_SIZE + WORD) == Addr(g.strings.bases, 0)
    ensures g.nodes.current_index == CONS_SIZE + STRING_SIZE && g.strings.current_index == |bytes|
    ensures |g.strings.bases| == 1
    ensures forall x: nat :: x < CONS_SIZE ==> Cell(g.mem, g.nodes.bases, x) == if x == 0 then CONS else 0
  {
    hide Tiled, Clear, Confined, Apart, PendingIn;
    StringSize(g.table);
    assert g.nodes.bases + [] == g.nodes.bases;
    s := NewNode(g, IB_STRING, spare, {});
    assert g.starts == [0, CONS_SIZE] && g.nodes.bases == old(g.nodes.bases);
    assert g.strings.bases == [] && g.nodes.bases + g.strings.bases == g.nodes.bases;
    HeadIs(g.mem, g.nodes.bases, CONS_SIZE, s);
    FreshHead(g.table, g.mem, g.nodes.bases, CONS_SIZE, IB_STRING);
    ConsCells(g.table, old(g.mem), g.mem, g.nodes.bases);
    assert {} + {1} == {1} && {1} - {1} == {};
    SetString(g, 1, s, bytes, string_base, {1});
    AddrRun(g.nodes.bases, CONS_SIZE, STRING_SIZE, WORD);
    HeadIs(g.mem, g.nodes.bases, CONS_SIZE, s);
  }

  /** No operand of the list is its first node, and its only string is the first. */
  lemma ListShape(g: Pool)
    requires g.Valid() && WithLists(g.table) && g.starts == [0, CONS_SIZE]
    requires g.nodes.current_index == CONS_SIZE + STRING_SIZE
    requires Code(Cell(g.mem, g.nodes.bases, 0)) == CONS && Code(Cell(g.mem, g.nodes.bases, CONS_SIZE)) == IB_STRING
    requires Cell(g.mem, g.nodes.bases, KidAt(0, 0)) == Addr(g.nodes.bases, CONS_SIZE)
    requires Cell(g.mem, g.nodes.bases, KidAt(0, 1)) == NULL
    requires Cell(g.mem, g.nodes.bases, CONS_SIZE + WORD) == Addr(g.strings.bases, 0)
    requires g.strings.current_index < BLOCK && |g.strings.bases| == 1
    ensures StringsInOrder(g.mem, g.nodes.bases, g.strings.bases, g.starts, g.strings.current_index)
    ensures NoStringAtEnd(g.mem, g.nodes.bases, g.strings.bases, g.starts, g.strings.current_index) <==>
      g.strings.current_index != 0
    ensures NoKidAtZero(g.table, g.mem, g.nodes.bases, g.starts)
  {
    hide Tiled;
    assert IsStringNode(g.mem, g.nodes.bases, g.starts, 1) && !IsStringNode(g.mem, g.nodes.bases, g.starts, 0);
  }

  /** A list of one string: all of it comes back, unless the string has no byte at all; then gs_read gives up. */
  method OneString(table: seq<nat>, bytes: seq<nat>, base: nat, string_base: nat, spare: nat, mem_seg: nat, at: nat)
    returns (g: Pool, ok: bool, cur: seq<nat>)
    requires WithLists(table) && |bytes| < 0x800000 && at > 0
    requires base > 0 && BlockFree([base], spare) && BlockFree([base], string_base)
    ensures g.table == table && g.starts == [0, CONS_SIZE]
    ensures Cell(g.mem, g.nodes.bases, KidAt(0, 0)) == Addr(g.nodes.bases, CONS_SIZE)
    ensures ok <==> bytes != []
    ensures ok ==> SameValues(table, g.mem, g.nodes.bases, g.starts, cur, at)
    ensures ok ==> SamePointers(table, g.mem, g.nodes.bases, g.starts, cur, at)
  {
    hide Tiled, Clear, Confined, Apart, PendingIn, SameCells, StringsInOrder, SameValues, SamePointers, Refs;
    g := new Pool(table);
    var p := FirstCons(g, base);
    var s := AddString(g, bytes, string_base, spare);
    assert g.starts[1] == CONS_SIZE && IsNode(g.nodes.bases, g.starts, s);
    HeadIs(g.mem, g.nodes.bases, 0, p);
    SetKid(g, 0, p, 0, s, {});
    PoolStates(g);
    ListShape(g);
    var seg;
    ok, seg, cur := RoundTrip(g, mem_seg, at);
    ComesBack(g, seg);
  }

  lemma CharSize(table: seq<nat>)
    requires Arity(table, IB_CHAR) == 0
    ensures NodeSize(table, IB_CHAR) == WORD
  {
  }

  lemma AllottedHere(base: nat, end: nat, spare: nat, count: nat, b1: seq<nat>, end1: nat)
    requires Allotted([base], end, spare, count, b1, end1) && end + count <= BLOCK
    ensures b1 == [base] && end1 == end + count
  {
  }

  /** What FullBlock keeps. */
  ghost predicate Filling(g: Pool, base: nat)
    reads g, g.nodes, g.strings, g.nodes.blocks, g.strings.blocks
  {
    && g.Valid() && Roomy(g) && Pending(g, {}) && g.starts != [] && Arity(g.table, IB_CHAR) == 0
    && g.nodes.bases == [base] && g.strings.bases == [] && g.nodes.current_index % WORD == 0
  }

  /** One more node of one word, in the first block. */
  method NextChar(g: Pool, ghost base: nat, spare: nat)
    requires Filling(g, base) && g.nodes.current_index < BLOCK && BlockFree([base], spare)
    modifies g`mem, g`starts, g.nodes, g.nodes.blocks
    ensures Filling(g, base) && g.nodes.current_index == old(g.nodes.current_index) + WORD
    ensures old(g.nodes.blocks) <= g.nodes.blocks && fresh(g.nodes.blocks[|old(g.nodes.blocks)|..])
  {
    hide Tiled, Clear, Confined, Apart, PendingIn, SameCells, IsFresh, Addr, NodeSize, Refs, Allotted, BlockFree;
    CharSize(g.table);
    assert g.nodes.bases + g.strings.bases == [base];
    ghost var end := g.nodes.current_index;
    var _ := NewNode(g, IB_CHAR, spare, {});
    AllottedHere(base, end, spare, WORD, g.nodes.bases, g.nodes.current_index);
  }

  /** One-word nodes up to the end of a block: the end of the arena, whose address gs_write asks for, has none. */
  method FullBlock(table: seq<nat>, base: nat, spare: nat) returns (g: Pool)
    requires Table(table) && Arity(table, IB_CHAR) == 0 && base > 0 && BlockFree([base], spare)
    ensures g.Valid() && g.Complete() && g.starts != [] && g.nodes.current_index == BLOCK
    ensures !(g.nodes.current_index / BLOCK < |g.nodes.blocks|)
  {
    hide Tiled, Clear, Confined, Apart, PendingIn, SameCells, IsFresh, Addr, NodeSize, Refs;
    CharSize(table);
    g := new Pool(table);
    PoolStates(g);
    assert g.Complete();
    var _ := NewNode(g, IB_CHAR, base, {});
    assert g.nodes.blocks[0..] == g.nodes.blocks;
    while g.nodes.current_index < BLOCK
      invariant fresh(g) && fresh(g.nodes) && fresh(g.nodes.blocks)
      invariant Filling(g, base) && g.nodes.current_index <= BLOCK
      decreases BLOCK - g.nodes.current_index
    {
      NextChar(g, base, spare);
    }
    PoolStates(g);
  }

  /** Two empty allotments in a row from an empty arena: there is a second block, though nothing is in the first. */
  method EmptyTwice(base: nat, spare: nat) returns (a: Arena)
    requires base > 0 && BlockFree([base], spare)
    ensures !a.Valid() && a.current_index == 0 && |a.blocks| == 2
  {
    hide Apart;
    a := new Arena();
    var _ := a.Alloc(0, base);
    assert a.blocks[0..] == a.blocks;
    var _ := a.Alloc(0, spare);
  }
}
