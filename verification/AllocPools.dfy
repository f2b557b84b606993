/** The fixed-size pool allocator (alloc-pool.c). */
module AllocPools {
  import opened Helpers

  /** sizeof (alloc_pool_list), and the header that every block starts with. */
  const LINK_SIZE: nat := 8
  const HEADER_SIZE: nat := 8

  /** align_eight. */
  function AlignEight(x: nat): nat {
    (x + 7) / 8 * 8
  }

  lemma Aligned(x: nat)
    ensures x <= AlignEight(x) < x + 8 && AlignEight(x) % 8 == 0
  {
  }

  /** The address of element i of the block at b. */
  function Slot(b: nat, i: nat, size: nat): nat {
    b + HEADER_SIZE + i * size
  }

  /** Byte ranges of two blocks have nothing in common. */
  predicate BlocksApart(b: nat, c: nat, blockSize: nat) {
    b + blockSize <= c || c + blockSize <= b
  }

  ghost function BlockSlots(b: nat, n: nat, size: nat): set<nat> {
    if n == 0 then {} else BlockSlots(b, n - 1, size) + {Slot(b, n - 1, size)}
  }

  ghost function Slots(blocks: seq<nat>, n: nat, size: nat): set<nat> {
    if blocks == [] then {} else BlockSlots(blocks[0], n, size) + Slots(blocks[1..], n, size)
  }

  lemma {:induction false} BlockSlotsHave(b: nat, n: nat, size: nat, p: nat)
    ensures p in BlockSlots(b, n, size) <==> exists i: nat :: i < n && p == Slot(b, i, size)
  {
    if n > 0 {
      BlockSlotsHave(b, n - 1, size, p);
    }
  }

  lemma {:induction false} SlotsHave(blocks: seq<nat>, n: nat, size: nat, p: nat)
    ensures p in Slots(blocks, n, size) <==> exists k :: 0 <= k < |blocks| && p in BlockSlots(blocks[k], n, size)
  {
    if blocks != [] {
      SlotsHave(blocks[1..], n, size, p);
      if k :| 0 <= k < |blocks| && p in BlockSlots(blocks[k], n, size) {
        assert k > 0 ==> blocks[1..][k - 1] == blocks[k];
      }
      if k :| 0 <= k < |blocks[1..]| && p in BlockSlots(blocks[1..][k], n, size) {
        assert blocks[k + 1] == blocks[1..][k];
      }
    }
  }

  lemma OneMore(i: nat, size: nat)
    ensures (i + 1) * size == i * size + size
  {
  }

  lemma {:induction false} Monotone(i: nat, j: nat, size: nat)
    requires i <= j
    ensures i * size <= j * size
    decreases j
  {
    if i < j {
      Monotone(i, j - 1, size);
      OneMore(j - 1, size);
    }
  }

  /** Element i ends where element i + 1 starts, and before any later one does. */
  lemma SlotEnd(b: nat, i: nat, j: nat, size: nat)
    requires i < j
    ensures Slot(b, i, size) + size <= b + HEADER_SIZE + j * size
    ensures b + HEADER_SIZE <= Slot(b, i, size)
  {
    OneMore(i, size);
    Monotone(i + 1, j, size);
    Monotone(0, i, size);
  }

  lemma MultipleOfEight(i: nat, size: nat)
    requires size % 8 == 0
    ensures i * size % 8 == 0
  {
    var q := size / 8;
    assert i * size == 8 * (i * q);
  }

  lemma AlignedSum(b: nat, m: nat)
    requires b % 8 == 0 && m % 8 == 0
    ensures (b + HEADER_SIZE + m) % 8 == 0
  {
  }

  /** An element lies inside its block, behind the header, at an aligned address. */
  lemma SlotInside(b: nat, n: nat, size: nat, p: nat)
    requires p in BlockSlots(b, n, size) && size % 8 == 0 && b % 8 == 0
    ensures b + HEADER_SIZE <= p && p + size <= b + n * size + HEADER_SIZE && p % 8 == 0
  {
    hide BlockSlots;
    BlockSlotsHave(b, n, size, p);
    var i: nat :| i < n && p == Slot(b, i, size);
    SlotEnd(b, i, n, size);
    MultipleOfEight(i, size);
    AlignedSum(b, i * size);
  }

  /** Two different elements of one block do not overlap. */
  lemma SlotsApartInBlock(b: nat, n: nat, size: nat, p: nat, q: nat)
    requires p in BlockSlots(b, n, size) && q in BlockSlots(b, n, size) && p != q
    ensures p + size <= q || q + size <= p
  {
    hide BlockSlots;
    BlockSlotsHave(b, n, size, p);
    BlockSlotsHave(b, n, size, q);
    var i: nat :| i < n && p == Slot(b, i, size);
    var j: nat :| j < n && q == Slot(b, j, size);
    if i < j {
      SlotEnd(b, i, j, size);
    } else {
      SlotEnd(b, j, i, size);
    }
  }

  lemma {:induction false} BlockSlotsCount(b: nat, n: nat, size: nat)
    requires size > 0
    ensures |BlockSlots(b, n, size)| == n
  {
    if n > 0 {
      BlockSlotsCount(b, n - 1, size);
      BlockSlotsHave(b, n - 1, size, Slot(b, n - 1, size));
      forall i: nat | i < n - 1 ensures Slot(b, n - 1, size) != Slot(b, i, size) {
        SlotEnd(b, i, n - 1, size);
      }
    }
  }

  /** The blocks of a pool: aligned, not null, and apart from each other. */
  ghost predicate Blocks(blocks: seq<nat>, blockSize: nat) {
    && (forall k :: 0 <= k < |blocks| ==> blocks[k] > 0 && blocks[k] % 8 == 0)
    && (forall j, k :: 0 <= j < k < |blocks| ==> BlocksApart(blocks[j], blocks[k], blockSize))
  }

  /** An element of one block is not an element of other blocks apart from it. */
  lemma NewBlockSlots(b: nat, rest: seq<nat>, n: nat, size: nat, p: nat)
    requires size > 0 && size % 8 == 0 && Blocks([b] + rest, n * size + HEADER_SIZE) && p in BlockSlots(b, n, size)
    ensures p !in Slots(rest, n, size)
  {
    SlotsHave(rest, n, size, p);
    var all := [b] + rest;
    assert all[0] == b;
    SlotInside(b, n, size, p);
    forall k | 0 <= k < |rest| ensures p !in BlockSlots(rest[k], n, size) {
      assert all[k + 1] == rest[k];
      if p in BlockSlots(rest[k], n, size) { SlotInside(rest[k], n, size, p); }
    }
  }

  lemma {:induction false} SlotsCount(blocks: seq<nat>, n: nat, size: nat)
    requires size > 0 && size % 8 == 0 && Blocks(blocks, n * size + HEADER_SIZE)
    ensures |Slots(blocks, n, size)| == |blocks| * n
  {
    hide BlocksApart, BlockSlots;
    if blocks != [] {
      var rest := blocks[1..];
      SlotsCount(rest, n, size);
      BlockSlotsCount(blocks[0], n, size);
      assert blocks == [blocks[0]] + rest;
      forall p | p in BlockSlots(blocks[0], n, size) ensures p !in Slots(rest, n, size) {
        NewBlockSlots(blocks[0], rest, n, size, p);
      }
      OneMore(|rest|, n);
    }
  }

  /** Any two different elements of a pool keep their bytes apart. */
  lemma SlotsApart(blocks: seq<nat>, n: nat, size: nat, p: nat, q: nat)
    requires size % 8 == 0 && Blocks(blocks, n * size + HEADER_SIZE)
    requires p in Slots(blocks, n, size) && q in Slots(blocks, n, size) && p != q
    ensures p + size <= q || q + size <= p
  {
    SlotsHave(blocks, n, size, p);
    SlotsHave(blocks, n, size, q);
    var j :| 0 <= j < |blocks| && p in BlockSlots(blocks[j], n, size);
    var k :| 0 <= k < |blocks| && q in BlockSlots(blocks[k], n, size);
    if j == k {
      SlotsApartInBlock(blocks[j], n, size, p, q);
    } else {
      SlotInside(blocks[j], n, size, p);
      SlotInside(blocks[k], n, size, q);
      assert BlocksApart(blocks[if j < k then j else k], blocks[if j < k then k else j], n * size + HEADER_SIZE);
    }
  }

  /** ... and they are all apart from the header of every block. */
  lemma SlotNotHeader(blocks: seq<nat>, n: nat, size: nat, p: nat, k: nat)
    requires size % 8 == 0 && Blocks(blocks, n * size + HEADER_SIZE) && p in Slots(blocks, n, size) && k < |blocks|
    ensures p >= blocks[k] + HEADER_SIZE || p + size <= blocks[k]
    ensures p % 8 == 0 && p > 0
  {
    SlotsHave(blocks, n, size, p);
    var j :| 0 <= j < |blocks| && p in BlockSlots(blocks[j], n, size);
    SlotInside(blocks[j], n, size, p);
    if j != k {
      assert BlocksApart(blocks[if j < k then j else k], blocks[if j < k then k else j], n * size + HEADER_SIZE);
    }
  }

  lemma BlockAligned(blocks: seq<nat>, blockSize: nat, k: nat)
    requires Blocks(blocks, blockSize) && k < |blocks|
    ensures blocks[k] % 8 == 0 && blocks[k] > 0
  {
  }

  function Head(s: seq<nat>, i: nat): nat {
    if i < |s| then s[i] else 0
  }

  /** The null-terminated list s, linked through the words of mem. */
  ghost predicate Linked(s: seq<nat>, mem: map<nat, nat>) {
    forall k :: 0 <= k < |s| ==> s[k] in mem && mem[s[k]] == Head(s, k + 1)
  }

  ghost function Elems(s: seq<nat>): set<nat> {
    set x | x in s
  }

  lemma PushLinked(s: seq<nat>, mem: map<nat, nat>, p: nat)
    requires Linked(s, mem) && p !in s
    ensures Linked([p] + s, mem[p := Head(s, 0)])
  {
    var t, m := [p] + s, mem[p := Head(s, 0)];
    forall k | 0 <= k < |t| ensures t[k] in m && m[t[k]] == Head(t, k + 1) {
      if k > 0 { assert t[k] == s[k - 1] && s[k - 1] in s; }
    }
  }

  lemma LinkAt(s: seq<nat>, mem: map<nat, nat>, k: nat)
    requires Linked(s, mem) && k < |s|
    ensures s[k] in mem && mem[s[k]] == Head(s, k + 1)
  {
  }

  lemma KeptLinked(s: seq<nat>, mem: map<nat, nat>, a: nat, v: nat)
    requires Linked(s, mem) && a !in s
    ensures Linked(s, mem[a := v])
  {
  }

  lemma DistinctMore(s: seq<nat>, p: nat)
    requires p !in s && Distinct(s)
    ensures Distinct([p] + s) && Elems([p] + s) == Elems(s) + {p} && |[p] + s| == |s| + 1
  {
    var t := [p] + s;
    assert forall k :: 0 < k < |t| ==> t[k] == s[k - 1] && t[k] in s;
  }

  lemma {:induction false} DistinctCount(s: seq<nat>)
    requires Distinct(s)
    ensures |Elems(s)| == |s|
  {
    if s != [] {
      DistinctCount(s[1..]);
      assert s == [s[0]] + s[1..];
      assert Elems(s) == Elems(s[1..]) + {s[0]};
      assert s[0] !in s[1..];
    }
  }

  lemma BaseIsNew(base: nat, blocks: seq<nat>, blockSize: nat)
    requires Blocks([base] + blocks, blockSize) && blockSize > 0
    ensures base !in blocks
  {
    var all := [base] + blocks;
    forall k | 0 <= k < |blocks| ensures blocks[k] != base {
      assert all[0] == base && all[k + 1] == blocks[k];
    }
  }

  lemma NextSlotIsNew(base: nat, was: seq<nat>, i: nat, n: nat, size: nat, block: nat)
    requires size > 0 && size % 8 == 0 && i < n && block == Slot(base, i, size)
    requires Blocks([base] + was, n * size + HEADER_SIZE)
    ensures block !in BlockSlots(base, i, size) && block !in [base] + was
  {
    BlockSlotsHave(base, i, size, block);
    forall j: nat | j < i ensures Slot(base, j, size) != block { SlotEnd(base, j, i, size); }
    var all := [base] + was;
    assert all[0] == base;
    BlockSlotsHave(base, n, size, block);
    SlotsHave(all, n, size, block);
    forall k | 0 <= k < |all| ensures all[k] != block { SlotNotHeader(all, n, size, block, k); }
  }

  lemma NoSlots(base: nat, size: nat)
    ensures BlockSlots(base, 0, size) == {}
  {
  }

  lemma FirstSlot(base: nat, size: nat, mem: map<nat, nat>)
    ensures base + AlignEight(LINK_SIZE) == Slot(base, 0, size) && BlockSlots(base, 0, size) == {} == Elems([])
    ensures Linked([], mem) && Distinct<nat>([])
  {
  }

  lemma NextSlot(base: nat, i: nat, size: nat)
    ensures Slot(base, i + 1, size) == Slot(base, i, size) + size
    ensures BlockSlots(base, i + 1, size) == BlockSlots(base, i, size) + {Slot(base, i, size)}
  {
    OneMore(i, size);
  }

  lemma SlotsOfMore(base: nat, was: seq<nat>, n: nat, size: nat)
    ensures Slots([base] + was, n, size) == BlockSlots(base, n, size) + Slots(was, n, size)
  {
    assert ([base] + was)[1..] == was;
  }

  /** The free list without its head. */
  lemma Popped(s: seq<nat>, mem: map<nat, nat>)
    requires s != [] && Linked(s, mem) && Distinct(s)
    ensures Linked(s[1..], mem) && Distinct(s[1..]) && s[0] in mem && mem[s[0]] == Head(s[1..], 0) && s[0] == Head(s, 0)
    ensures Elems(s) == Elems(s[1..]) + {s[0]} && s[0] !in Elems(s[1..])
  {
    assert forall k :: 0 <= k < |s[1..]| ==> s[1..][k] == s[k + 1];
    assert s == [s[0]] + s[1..];
  }

  /** struct alloc_pool_def, with the words of memory it links through. free and blocks are its two
      lists, live the elements handed out. */
  class AllocPool {
    const elts_per_block: nat
    const elt_size: nat
    const block_size: nat
    var free_list: nat
    var block_list: nat
    var elts_allocated: nat
    var elts_free: nat
    var blocks_allocated: nat
    var mem: map<nat, nat>
    ghost var blocks: seq<nat>
    ghost var free: seq<nat>
    ghost var live: set<nat>

    /** create_alloc_pool. */
    constructor (size: nat, num: nat)
      requires num > 0
      ensures Valid() && blocks == [] && free == [] && live == {}
      ensures elts_per_block == num && elt_size >= size && elt_size % 8 == 0
    {
      var sz := if size < LINK_SIZE then LINK_SIZE else size;
      Aligned(sz);
      sz := AlignEight(sz);
      elt_size := sz;
      elts_per_block := num;
      block_size := sz * num + AlignEight(LINK_SIZE);
      free_list, elts_allocated, elts_free, blocks_allocated, block_list := 0, 0, 0, 0, 0;
      mem, blocks, free, live := map[], [], [], {};
      new;
      assert Slots([], num, sz) == {};
    }

    ghost predicate Shape()
      reads this
    {
      elts_per_block > 0 && elt_size >= LINK_SIZE && elt_size % 8 == 0 &&
        block_size == elts_per_block * elt_size + HEADER_SIZE
    }

    ghost function All(): set<nat>
      reads this
    {
      Slots(blocks, elts_per_block, elt_size)
    }

    /** Live elements and free-list entries partition the elements of all blocks. */
    ghost predicate Valid()
      reads this
    {
      && Shape()
      && Blocks(blocks, block_size) && Linked(blocks, mem) && block_list == Head(blocks, 0)
      && Linked(free, mem) && Distinct(free) && free_list == Head(free, 0)
      && Elems(free) !! live && Elems(free) + live == All()
      && elts_free == |free| && blocks_allocated == |blocks| && elts_allocated == blocks_allocated * elts_per_block
    }

    /** No element overlaps another, or a block header, and all are aligned. */
    lemma LayoutSafe(p: nat)
      requires Valid() && p in All()
      ensures p % 8 == 0 && p > 0
      ensures forall q :: q in All() && q != p ==> p + elt_size <= q || q + elt_size <= p
      ensures forall k :: 0 <= k < |blocks| ==> p >= blocks[k] + HEADER_SIZE || p + elt_size <= blocks[k]
      ensures exists k :: 0 <= k < |blocks| && blocks[k] + HEADER_SIZE <= p && p + elt_size <= blocks[k] + block_size
    {
      hide Linked, Distinct, Elems, Slots, BlockSlots, Blocks, BlocksApart, Head;
      forall q | q in All() && q != p ensures p + elt_size <= q || q + elt_size <= p {
        SlotsApart(blocks, elts_per_block, elt_size, p, q);
      }
      SlotsHave(blocks, elts_per_block, elt_size, p);
      var k :| 0 <= k < |blocks| && p in BlockSlots(blocks[k], elts_per_block, elt_size);
      BlockAligned(blocks, block_size, k);
      SlotInside(blocks[k], elts_per_block, elt_size, p);
      SlotNotHeader(blocks, elts_per_block, elt_size, p, k);
      forall j | 0 <= j < |blocks| ensures p >= blocks[j] + HEADER_SIZE || p + elt_size <= blocks[j] {
        SlotNotHeader(blocks, elts_per_block, elt_size, p, j);
      }
    }

    /** The counters give the number of live elements. */
    lemma LiveCount()
      requires Valid()
      ensures |live| == elts_allocated - elts_free
    {
      hide Slots;
      SlotsCount(blocks, elts_per_block, elt_size);
      DistinctCount(free);
      assert |Elems(free) + live| == |Elems(free)| + |live|;
    }

    lemma FreeNotNull()
      requires Valid()
      ensures free_list == 0 <==> free == []
      ensures free != [] ==> free_list == free[0] && free[0] in mem && mem[free[0]] == Head(free, 1)
    {
      if free != [] {
        assert free[0] in Elems(free);
        LayoutSafe(free[0]);
      }
    }

    /** Pull the first free element from the free list. */
    method PopFree()
      requires Valid() && free != []
      modifies this
      ensures Valid() && free == old(free)[1..] && live == old(live) + {old(free)[0]}
      ensures blocks == old(blocks)
    {
      hide Slots, Blocks, Linked, Distinct, Elems;
      FreeNotNull();
      Popped(free, mem);
      free_list := mem[free_list];
      elts_free := elts_free - 1;
      free, live := free[1..], live + {free[0]};
    }

    /** The slots of the new block go to the free list. */
    method CarvePieces(base: nat, ghost was: seq<nat>)
      requires Shape() && free == [] && free_list == 0
      requires blocks == [base] + was && Blocks(blocks, block_size) && Linked(blocks, mem)
      modifies `mem, `free_list, `free
      ensures Linked(blocks, mem) && Linked(free, mem) && Distinct(free) && free_list == Head(free, 0)
      ensures Elems(free) == BlockSlots(base, elts_per_block, elt_size) && |free| == elts_per_block
      ensures free != [] && free[0] == Slot(base, elts_per_block - 1, elt_size)
    {
      hide BlocksApart, Blocks, Linked, Distinct, BlockSlots, Slot;
      var block := base + AlignEight(LINK_SIZE);
      var i: nat := 0;
      FirstSlot(base, elt_size, mem);
      while i < elts_per_block
        invariant i <= elts_per_block && block == Slot(base, i, elt_size)
        invariant Linked(blocks, mem) && Linked(free, mem) && Distinct(free) && free_list == Head(free, 0)
        invariant Elems(free) == BlockSlots(base, i, elt_size) && |free| == i
        invariant i > 0 ==> free[0] == Slot(base, i - 1, elt_size)
      {
        NextSlotIsNew(base, was, i, elts_per_block, elt_size, block);
        assert block in free ==> block in Elems(free);
        PushLinked(free, mem, block);
        KeptLinked(blocks, mem, block, free_list);
        DistinctMore(free, block);
        mem := mem[block := free_list];
        free_list := block;
        free := [block] + free;
        NextSlot(base, i, elt_size);
        i, block := i + 1, block + elt_size;
      }
    }

    /** Make a block, throw it on the block list and put its pieces onto the free list. */
    method Carve(base: nat)
      requires Valid() && free == [] && Blocks([base] + blocks, block_size)
      modifies this
      ensures Valid() && free != [] && blocks == [base] + old(blocks) && live == old(live)
      ensures free[0] == Slot(base, elts_per_block - 1, elt_size)
    {
      hide Slots, BlocksApart, Blocks, Linked, Distinct, BlockSlots;
      ghost var was := blocks;
      ghost var all := [base] + blocks;
      BaseIsNew(base, was, block_size);
      PushLinked(blocks, mem, base);
      mem := mem[base := block_list];
      block_list := base;
      blocks := all;
      NoSlots(base, elt_size);
      CarvePieces(base, was);
      elts_allocated := elts_allocated + elts_per_block;
      elts_free := elts_free + elts_per_block;
      blocks_allocated := blocks_allocated + 1;
      OneMore(|was|, elts_per_block);
      SlotsOfMore(base, was, elts_per_block, elt_size);
      forall p | p in BlockSlots(base, elts_per_block, elt_size) ensures p !in Slots(was, elts_per_block, elt_size) {
        NewBlockSlots(base, was, elts_per_block, elt_size, p);
      }
    }

    /** pool_alloc. base is the memory that malloc returns if a new block is needed. */
    method PoolAlloc(base: nat) returns (p: nat)
      requires Valid()
      requires free_list == 0 ==> Blocks([base] + blocks, block_size)
      modifies this
      ensures Valid() && p !in old(live) && live == old(live) + {p} && p in All()
      ensures if old(free) != [] then p == old(free)[0] && free == old(free)[1..] && blocks == old(blocks)
              else blocks == [base] + old(blocks) && p == Slot(base, elts_per_block - 1, elt_size)
    {
      FreeNotNull();
      if free_list == 0 {
        Carve(base);
      }
      FreeNotNull();
      p := free_list;
      assert free[0] in Elems(free);
      PopFree();
    }

    lemma LiveIsCounted()
      requires Valid()
      ensures live != {} ==> |live| > 0
    {
      assert live != {} ==> |live| != 0;
    }

    lemma NotALink(a: nat)
      requires Valid() && a in live
      ensures a !in free && a !in blocks && a > 0
    {
      assert a in free ==> a in Elems(free);
      LayoutSafe(a);
    }

    /** pool_free. */
    method PoolFree(ptr: nat)
      requires Valid() && ptr in live
      modifies this
      ensures Valid() && free == [ptr] + old(free) && live == old(live) - {ptr} && blocks == old(blocks)
    {
      hide Slots, Blocks, BlocksApart, Linked, Distinct, Elems, AlignEight;
      LiveCount();
      LiveIsCounted();
      assert elts_free < elts_allocated;
      NotALink(ptr);
      PushLinked(free, mem, ptr);
      KeptLinked(blocks, mem, ptr, free_list);
      mem := mem[ptr := free_list];
      free_list := ptr;
      elts_free := elts_free + 1;
      DistinctMore(free, ptr);
      free, live := [ptr] + free, live - {ptr};
    }

    /** The owner of a live element may store a word anywhere inside it. */
    method Store(p: nat, a: nat, v: nat)
      requires Valid() && p in live && p <= a && a + LINK_SIZE <= p + elt_size
      modifies this`mem
      ensures Valid() && mem == old(mem)[a := v]
    {
      LayoutSafe(p);
      assert forall x :: x in free ==> x in Elems(free) && x in All();
      KeptLinked(free, mem, a, v);
      KeptLinked(blocks, mem, a, v);
      mem := mem[a := v];
    }

    /** free_alloc_pool: every block is freed, once. */
    method FreeAllocPool() returns (freed: seq<nat>)
      requires Valid()
      ensures freed == blocks
    {
      hide Slots, Linked, BlocksApart, Elems, Distinct;
      freed := [];
      var block := block_list;
      assert forall k :: 0 <= k < |blocks| ==> blocks[k] > 0;
      hide Blocks;
      while block != 0
        invariant |freed| <= |blocks| && freed == blocks[..|freed|] && block == Head(blocks, |freed|)
        decreases |blocks| - |freed|
      {
        LinkAt(blocks, mem, |freed|);
        var next_block := mem[block];
        freed := freed + [block];
        block := next_block;
      }
      assert |freed| == |blocks|;
    }

    /** free_alloc_pool_if_empty: it goes exactly when no element is live. */
    method FreeAllocPoolIfEmpty() returns (gone: bool, freed: seq<nat>)
      requires Valid()
      ensures gone <==> live == {}
      ensures freed == if gone then blocks else []
    {
      LiveCount();
      gone, freed := false, [];
      if elts_free == elts_allocated {
        freed := FreeAllocPool();
        gone := true;
      }
    }
  }
}
