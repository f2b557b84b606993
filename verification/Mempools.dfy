/** The block arenas behind gspin nodes and strings (gspin-mempool.c). */
module Mempools {
  /** GS_MEMBLOCK_SIZE. */
  const BLOCK: nat := 0x1000000

  /** The address of the cell with a given index, when the blocks are at bases. */
  function Addr(bases: seq<nat>, i: nat): nat {
    if i / BLOCK < |bases| then bases[i / BLOCK] + i % BLOCK else 0
  }

  predicate Inside(base: nat, p: nat) {
    base <= p < base + BLOCK
  }

  ghost predicate BlockFree(bases: seq<nat>, base: nat) {
    base > 0 && forall k :: 0 <= k < |bases| ==> bases[k] + BLOCK <= base || base + BLOCK <= bases[k]
  }

  /** No two blocks overlap, and none is at address zero. */
  ghost predicate Apart(bases: seq<nat>) {
    && (forall k :: 0 <= k < |bases| ==> bases[k] > 0)
    && forall j, k :: 0 <= j < k < |bases| ==> bases[j] + BLOCK <= bases[k] || bases[k] + BLOCK <= bases[j]
  }

  /** count cells follow the first end ones, in the last block if they fit there, and otherwise in a new one. */
  ghost predicate Allotted(b: seq<nat>, end: nat, base: nat, count: nat, b1: seq<nat>, end1: nat) {
    var fits := b != [] && end + count <= |b| * BLOCK;
    b1 == (if fits then b else b + [base]) && end1 == (if fits then end else |b| * BLOCK) + count
  }

  /** n cells from i on lie in one of the first blocks. */
  predicate InOneBlock(i: nat, n: nat, blocks: nat) {
    i / BLOCK < blocks && (n > 0 ==> (i + n - 1) / BLOCK == i / BLOCK)
  }

  /** Where an allotment that ends at end1 starts. An empty one at the end of a full block is at its beginning. */
  function Place(blocks: nat, end1: nat, count: nat): nat
    requires count <= end1
  {
    if count == 0 && blocks > 0 && end1 == blocks * BLOCK then (blocks - 1) * BLOCK else end1 - count
  }

  lemma AllottedFacts(b: seq<nat>, end: nat, base: nat, count: nat, b1: seq<nat>, end1: nat)
    requires Allotted(b, end, base, count, b1, end1) && end <= |b| * BLOCK
    ensures (b1 == b || b1 == b + [base]) && end1 >= count
    ensures end <= end1 - count == if b1 == b then end else |b| * BLOCK
    ensures end == 0 && count <= BLOCK ==> Place(|b1|, end1, count) == 0
  {
  }

  lemma Split(k: nat, x: nat)
    requires x < BLOCK
    ensures (k * BLOCK + x) / BLOCK == k && (k * BLOCK + x) % BLOCK == x
  {
  }

  lemma OneBlock(bases: seq<nat>, k: nat, l: nat, p: nat)
    requires Apart(bases) && k < |bases| && l < |bases| && Inside(bases[k], p) && Inside(bases[l], p)
    ensures k == l
  {
  }

  /** Different indices have different addresses: a cell is in one block only. */
  lemma AddrInjective(bases: seq<nat>, i: nat, j: nat)
    requires Apart(bases) && i / BLOCK < |bases| && j / BLOCK < |bases| && Addr(bases, i) == Addr(bases, j)
    ensures i == j
  {
    var k, l := i / BLOCK, j / BLOCK;
    assert Inside(bases[k], Addr(bases, i)) && Inside(bases[l], Addr(bases, j));
    assert k == l by { OneBlock(bases, k, l, Addr(bases, i)); }
  }

  lemma JoinApart(b: seq<nat>, sb: seq<nat>)
    requires Apart(b + sb)
    ensures Apart(b) && Apart(sb)
  {
    forall k | 0 <= k < |b| ensures b[k] > 0 { assert (b + sb)[k] == b[k]; }
    forall k | 0 <= k < |sb| ensures sb[k] > 0 { assert (b + sb)[|b| + k] == sb[k]; }
    forall j, k | 0 <= j < k < |b|
      ensures b[j] + BLOCK <= b[k] || b[k] + BLOCK <= b[j]
    {
      assert (b + sb)[j] == b[j] && (b + sb)[k] == b[k];
    }
    forall j, k | 0 <= j < k < |sb| ensures sb[j] + BLOCK <= sb[k] || sb[k] + BLOCK <= sb[j] {
      assert (b + sb)[|b| + j] == sb[j] && (b + sb)[|b| + k] == sb[k];
    }
  }

  /** Within one block addresses are consecutive. */
  lemma AddrRun(bases: seq<nat>, i: nat, n: nat, x: nat)
    requires x < n && i / BLOCK == (i + n - 1) / BLOCK
    ensures (i + x) / BLOCK == i / BLOCK
    ensures i / BLOCK < |bases| ==> Addr(bases, i + x) == Addr(bases, i) + x
  {
  }

  lemma EndIn(k: nat, i: nat)
    requires k * BLOCK <= i < k * BLOCK + BLOCK
    ensures i / BLOCK == k
  {
  }

  /** A stretch of cells that lies in the last block. */
  lemma InBlock(bases: seq<nat>, at: nat, count: nat)
    requires bases != [] && (|bases| - 1) * BLOCK <= at && at + count <= |bases| * BLOCK
    ensures var i := Place(|bases|, at + count, count);
      InOneBlock(i, count, |bases|) && i <= at && Addr(bases, i) == bases[|bases| - 1] + at % BLOCK
  {
    var n := |bases|;
    if at == n * BLOCK {
      Split(n, 0);
      Split(n - 1, 0);
    } else {
      EndIn(n - 1, at);
      if count > 0 { EndIn(n - 1, at + count - 1); }
    }
  }

  /** x - 1 in gs_count_t, an unsigned int. */
  function Minus1(x: nat): nat {
    if x == 0 then 0xffff_ffff else x - 1
  }

  class Memblock {
    const block_id: nat
    const mem: nat
    var next: Memblock?

    constructor (id: nat, mem: nat)
      ensures block_id == id && this.mem == mem && next == null
    {
      block_id, this.mem, next := id, mem, null;
    }
  }

  /** gs_arena_t with its entry in memblk_cache. */
  class Arena {
    var firstblock: Memblock?
    var lastblock: Memblock?
    var current_index: nat
    var cache: Memblock?
    ghost var blocks: seq<Memblock>
    ghost var bases: seq<nat>

    constructor ()
      ensures Valid() && blocks == [] && bases == [] && current_index == 0
    {
      firstblock, lastblock, current_index, cache := null, null, 0, null;
      blocks, bases := [], [];
    }

    ghost predicate BlockAt(k: nat)
      requires k < |blocks| == |bases|
      reads `blocks, `bases, blocks
    {
      && blocks[k].block_id == k && blocks[k].mem == bases[k]
      && blocks[k].next == if k + 1 < |blocks| then blocks[k + 1] else null
    }

    ghost predicate Linked()
      reads `blocks, `bases, `firstblock, `lastblock, blocks
    {
      && |blocks| == |bases| && Apart(bases)
      && (forall k: nat :: k < |blocks| ==> BlockAt(k))
      && firstblock == (if blocks == [] then null else blocks[0])
      && lastblock == (if blocks == [] then null else blocks[|blocks| - 1])
    }

    /** b is no block, or one of the arena. */
    ghost predicate Cached(b: Memblock?)
      reads `blocks
    {
      b != null ==> b.block_id < |blocks| && blocks[b.block_id] == b
    }

    ghost predicate Valid()
      reads this, blocks
    {
      && Linked() && Cached(cache)
      && (if blocks == [] then current_index == 0 else (|blocks| - 1) * BLOCK <= current_index <= |blocks| * BLOCK)
    }

    method FirstBlock(base: nat) returns (memblk: Memblock)
      requires Valid() && blocks == [] && BlockFree(bases, base)
      modifies `firstblock, `lastblock, `blocks, `bases
      ensures Linked() && Cached(cache) && fresh(memblk) && memblk == lastblock && memblk.block_id == 0
      ensures memblk.mem == base
      ensures blocks == [memblk] && bases == [base]
    {
      memblk := new Memblock(0, base);
      firstblock, lastblock := memblk, memblk;
      blocks, bases := [memblk], [base];
      assert BlockAt(0);
    }

    /** gs_new_memblock, and linking the block behind the last one. */
    method AddBlock(base: nat) returns (memblk: Memblock)
      requires Valid() && blocks != [] && BlockFree(bases, base)
      modifies `lastblock, `blocks, `bases, blocks
      ensures Linked() && Cached(cache) && fresh(memblk) && memblk == lastblock && memblk.block_id == |old(blocks)|
      ensures memblk.mem == base
      ensures blocks == old(blocks) + [memblk] && bases == old(bases) + [base]
    {
      ghost var was, n: nat := blocks, |blocks|;
      forall k: nat | k < n
        ensures was[k].block_id == k && was[k].mem == bases[k] && (k + 1 < n ==> was[k].next == was[k + 1])
      {
        assert BlockAt(k);
      }
      memblk := new Memblock(lastblock.block_id + 1, base);
      lastblock.next := memblk;
      lastblock := memblk;
      blocks, bases := blocks + [memblk], bases + [base];
      forall k: nat | k < |blocks| ensures BlockAt(k) {
        if k < n { assert blocks[k] == was[k]; }
      }
    }

    /** An empty allotment from an arena that has a block, but nothing in it. */
    predicate Wraps(count: nat)
      reads `lastblock, `current_index
    {
      lastblock != null && current_index == 0 && count == 0
    }

    /** The last block, with room for count cells from current_index on; it may be new. */
    method MakeRoom(count: nat, base: nat) returns (memblk: Memblock)
      requires Valid() && count <= BLOCK && BlockFree(bases, base)
      modifies `firstblock, `lastblock, `current_index, `blocks, `bases, blocks
      ensures Linked() && Cached(cache) && blocks != [] && memblk == lastblock && old(blocks) <= blocks
      ensures fresh(blocks[|old(blocks)|..])
      ensures !old(Wraps(count)) ==> Allotted(old(bases), old(current_index), base, count, bases, current_index + count)
      ensures !old(Wraps(count)) ==>
        (|bases| - 1) * BLOCK <= current_index && current_index + count <= |bases| * BLOCK &&
          old(current_index) <= current_index
      ensures old(Wraps(count)) ==> |bases| == 2 && current_index == 0
    {
      hide Apart;
      if lastblock == null {
        memblk := FirstBlock(base);
        current_index := 0;
      } else {
        memblk := lastblock;
        assert BlockAt(|blocks| - 1);
        if Minus1(current_index + count) >= (memblk.block_id + 1) * BLOCK {
          memblk := AddBlock(base);
          if count > 1 {
            current_index := memblk.block_id * BLOCK;
          }
        }
      }
    }

    /** __gs_mempool_alloc; calloc would put a new block at base. The arena stays in order unless the
        allotment is empty and the arena has a block, but nothing in it. */
    method Alloc(count: nat, base: nat) returns (p: nat)
      requires Valid() && count <= BLOCK && BlockFree(bases, base)
      modifies this, blocks
      ensures Valid() <==> !old(Wraps(count))
      ensures |blocks| == |bases| && old(blocks) <= blocks && fresh(blocks[|old(blocks)|..])
      ensures old(Wraps(count)) ==> |bases| == 2 && current_index == 0
      ensures Valid() ==> Allotted(old(bases), old(current_index), base, count, bases, current_index)
      ensures Valid() ==> old(current_index) + count <= current_index <= |bases| * BLOCK
      ensures Valid() ==> p == Addr(bases, Place(|bases|, current_index, count))
      ensures Valid() ==> InOneBlock(Place(|bases|, current_index, count), count, |bases|)
    {
      hide Apart, Addr, Allotted, Place;
      var memblk := MakeRoom(count, base);
      assert BlockAt(|blocks| - 1);
      if !old(Wraps(count)) { InBlock(bases, current_index, count); }
      p := memblk.mem + current_index % BLOCK;
      current_index := current_index + count;
    }

    /** gs_mempool_idx2address: right whatever block is in the cache. */
    method Idx2Address(cell_index: nat) returns (p: nat)
      requires Valid() && cell_index / BLOCK < |blocks|
      modifies `cache
      ensures Valid() && p == Addr(bases, cell_index)
    {
      hide Apart;
      var cur_block_id := cell_index / BLOCK;
      assert BlockAt(0);
      if cache == null || cache.block_id > cur_block_id {
        cache := firstblock;
      }
      while cache.block_id != cur_block_id
        invariant Linked() && Cached(cache) && cache != null && cache.block_id <= cur_block_id
        decreases cur_block_id - cache.block_id
      {
        assert BlockAt(cache.block_id) && BlockAt(cache.block_id + 1);
        cache := cache.next;
      }
      assert BlockAt(cur_block_id);
      p := cache.mem + cell_index % BLOCK;
    }

    lemma Position(b: Memblock?)
      requires Linked() && Cached(b)
      ensures firstblock != null ==> firstblock.block_id == 0 && Cached(firstblock)
      ensures b != null ==> b.block_id < |bases| && b.mem == bases[b.block_id] && Cached(b.next)
      ensures b != null ==> if b.next == null then b.block_id + 1 == |blocks| else b.next.block_id == b.block_id + 1
    {
      if b != null {
        assert BlockAt(b.block_id);
        if b.block_id + 1 < |blocks| { assert BlockAt(b.block_id + 1); }
      }
      if firstblock != null { assert BlockAt(0); }
    }

    /** gs_mempool_address2byteofst: the inverse, whatever block is in the cache. An address outside all
        blocks is taken to be in the segment at mem_seg, which only the node arena may ask for. */
    method Address2ByteOfst(p: nat, mem_seg: nat) returns (r: int)
      requires Valid()
      modifies `cache
      ensures Valid()
      ensures (exists k :: 0 <= k < |bases| && Inside(bases[k], p)) ==>
        0 <= r < |bases| * BLOCK && r / BLOCK < |bases| && p == Addr(bases, r)
      ensures !(exists k :: 0 <= k < |bases| && Inside(bases[k], p)) ==> r == p - mem_seg
    {
      hide Apart;
      Position(cache);
      if cache == null || !Inside(cache.mem, p) {
        cache := firstblock;
      }
      ghost var k: nat := if cache == null then 0 else cache.block_id;
      ghost var hit := cache != null && Inside(cache.mem, p);
      while cache != null && !Inside(cache.mem, p)
        invariant Linked() && Cached(cache) && k <= |blocks|
        invariant if cache == null then k == |blocks| else k == cache.block_id
        invariant hit || forall j :: 0 <= j < k ==> !Inside(bases[j], p)
        invariant hit ==> cache != null && Inside(cache.mem, p)
        decreases |blocks| - k
      {
        Position(cache);
        cache := cache.next;
        k := k + 1;
      }
      Position(cache);
      if cache != null {
        r := cache.block_id * BLOCK + (p - cache.mem);
        Split(k, p - cache.mem);
      } else {
        r := p - mem_seg;
      }
    }

    /** The end of the arena is an index with an address, unless the last block is full. */
    lemma EndHasBlock()
      requires Valid() && blocks != []
      ensures current_index / BLOCK < |blocks| <==> current_index != |blocks| * BLOCK
    {
      var n := |blocks|;
      if current_index == n * BLOCK { Split(n, 0); } else { EndIn(n - 1, current_index); }
    }
  }
}
