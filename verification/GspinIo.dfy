/** Writing the node graph to a file and reading it back (gspin-io.c). A file is the sequence of its
    cells; mapped at mem_seg, cell i is at address mem_seg + i. */
module GspinIo {
  import opened Mempools
  import opened GspinNodes

  lemma StringCopied(m: Memory, sb: seq<nat>, end: nat, send: nat, seg: seq<nat>, out: seq<nat>, s: nat, n: nat, r: nat,
                     at: nat)
    requires |out| == |seg| == end + send && at < end && StringAt(sb, send, s, n, r)
    requires forall y :: 0 <= y < |seg| && y != at ==>
      out[y] == if end + r <= y < end + r + n then At(m, s + (y - (end + r))) else seg[y]
    ensures StringWritten(m, sb, end, out, s, n, end + r) && Touched(m, sb, end, seg, out, at, at + 1)
  {
    var u := end + r;
    forall x: nat | x < n ensures SameByte(m, out, s, u, x) {
      assert out[u + x] == At(m, s + (u + x - u));
    }
    forall y | end <= y < |seg| ensures out[y] == seg[y] || out[y] == Cell(m, sb, y - end) {
      if u <= y < u + n { StringCells(sb, m, send, s, n, r, y - u); }
    }
  }

  lemma StringPlace(sb: seq<nat>, send: nat, s: nat, n: nat)
    requires IsString(sb, send, s, n)
    ensures exists k :: 0 <= k < |sb| && Inside(sb[k], s)
  {
    var i: nat :| StringAt(sb, send, s, n, i);
    assert Inside(sb[i / BLOCK], s);
  }

  lemma PlaceIs(sb: seq<nat>, send: nat, s: nat, n: nat, r: nat)
    requires Apart(sb) && IsString(sb, send, s, n) && r / BLOCK < |sb| && s == Addr(sb, r)
    ensures StringAt(sb, send, s, n, r)
  {
    var i: nat :| StringAt(sb, send, s, n, i);
    AddrInjective(sb, i, r);
  }

  /** The file as it is made: nothing in it but the blank that fixes its length. */
  function NewFile(n: nat): (seg: seq<nat>)
    requires n > 0
    ensures |seg| == n && forall x :: 0 <= x < n - 1 ==> seg[x] == 0
  {
    seq<nat>(n, (x: nat) => if x == n - 1 then 32 else 0)
  }

  ghost predicate Blank(seg: seq<nat>, i: nat, end: nat) {
    forall x :: i <= x < end && x + 1 < |seg| ==> seg[x] == 0
  }

  ghost predicate PieceWritten(table: seq<nat>, m: Memory, b: seq<nat>, sb: seq<nat>, starts: seq<nat>, end: nat,
                               seg: seq<nat>, k: nat)
    requires k < |starts|
  {
    NodeWritten(table, m, b, sb, end, seg, starts[k]) &&
      SegGap(seg, starts[k] + SizeAt(table, m, b, starts[k]), Next(starts, k, end))
  }

  lemma NewBlank(n: nat, end: nat)
    requires 0 < end <= n
    ensures Blank(NewFile(n), 0, end)
  {
  }

  lemma NextFacts(table: seq<nat>, m: Memory, b: seq<nat>, starts: seq<nat>, end: nat, k: nat)
    requires Tiled(table, m, b, starts, end) && k < |starts|
    ensures starts[k] < starts[k] + SizeAt(table, m, b, starts[k]) <= Next(starts, k, end) <= end
    ensures (starts[k] + SizeAt(table, m, b, starts[k])) % WORD == 0
    ensures k + 1 < |starts| ==> starts[k + 1] < end && starts[k + 1] % WORD == 0
    ensures k + 1 == |starts| ==> starts[k] + SizeAt(table, m, b, starts[k]) == end
  {
    hide Gap, NodeSize, Cell;
    assert StepAt(table, m, b, starts, end, k);
    if k + 1 < |starts| { assert StepAt(table, m, b, starts, end, k + 1); }
  }

  /** A node has another code than DOT, which is padding. */
  lemma NodeNotDot(table: seq<nat>, m: Memory, b: seq<nat>, starts: seq<nat>, end: nat, k: nat)
    requires Table(table) && Tiled(table, m, b, starts, end) && k < |starts|
    ensures Code(Cell(m, b, starts[k])) != DOT
  {
    assert StepAt(table, m, b, starts, end, k);
    assert NodeSize(table, DOT) == 0;
  }

  lemma NotDot(table: seq<nat>, m: Memory, b: seq<nat>, starts: seq<nat>, end: nat, k: nat, i: nat)
    requires Tiled(table, m, b, starts, end) && Table(table) && k < |starts| && i <= Next(starts, k, end) && i < end
    requires i % WORD == 0
    requires Code(Cell(m, b, i)) == DOT
    ensures i + WORD <= Next(starts, k, end)
  {
    hide Gap, NodeSize, NodeAt, Tiled, Cell, StepAt;
    if k + 1 < |starts| {
      NodeNotDot(table, m, b, starts, end, k + 1);
    }
    NextFacts(table, m, b, starts, end, k);
  }

  lemma AtNext(table: seq<nat>, m: Memory, b: seq<nat>, starts: seq<nat>, end: nat, k: nat, i: nat)
    requires Tiled(table, m, b, starts, end) && k < |starts| && i % WORD == 0
    requires starts[k] + SizeAt(table, m, b, starts[k]) <= i <= Next(starts, k, end)
    requires i >= end || Code(Cell(m, b, i)) != DOT
    ensures i == Next(starts, k, end)
  {
    NextFacts(table, m, b, starts, end, k);
    assert StepAt(table, m, b, starts, end, k);
  }

  lemma {:induction false} Ordered(table: seq<nat>, m: Memory, b: seq<nat>, starts: seq<nat>, end: nat, l: nat, k: nat)
    requires Tiled(table, m, b, starts, end) && l < k < |starts|
    ensures Next(starts, l, end) <= starts[k]
  {
    if l + 1 < k {
      NextFacts(table, m, b, starts, end, k - 1);
      Ordered(table, m, b, starts, end, l, k - 1);
    }
  }

  lemma BlankGap(seg: seq<nat>, j: nat, h: nat, end: nat)
    requires Blank(seg, j, end) && j <= h <= end <= |seg| && (h == end ==> j == end)
    ensures SegGap(seg, j, h)
  {
  }

  lemma KeepPieces(table: seq<nat>, m: Memory, b: seq<nat>, sb: seq<nat>, starts: seq<nat>, end: nat, was: seq<nat>,
                   seg: seq<nat>, k: nat)
    requires Tiled(table, m, b, starts, end) && k < |starts| && end <= |was|
    requires forall l: nat :: l < k ==> PieceWritten(table, m, b, sb, starts, end, was, l)
    requires NodeWritten(table, m, b, sb, end, seg, starts[k]) && Blank(was, starts[k], end)
    requires Touched(m, sb, end, was, seg, starts[k], starts[k] + SizeAt(table, m, b, starts[k]))
    ensures forall l: nat :: l < k + 1 ==> PieceWritten(table, m, b, sb, starts, end, seg, l)
    ensures Blank(seg, Next(starts, k, end), end)
  {
    hide NodeWritten, Tiled, SegGap;
    var i, j := starts[k], starts[k] + SizeAt(table, m, b, starts[k]);
    NextFacts(table, m, b, starts, end, k);
    forall l: nat | l < k ensures PieceWritten(table, m, b, sb, starts, end, seg, l) {
      assert PieceWritten(table, m, b, sb, starts, end, was, l);
      Ordered(table, m, b, starts, end, l, k);
      NextFacts(table, m, b, starts, end, l);
      NodeKept(table, m, b, sb, end, was, seg, starts[l], i, j);
      GapKept(m, sb, end, was, seg, i, j, starts[l] + SizeAt(table, m, b, starts[l]), Next(starts, l, end));
    }
    BlankGap(seg, j, Next(starts, k, end), end);
  }

  lemma Whole(table: seq<nat>, m: Memory, b: seq<nat>, sb: seq<nat>, starts: seq<nat>, end: nat, seg: seq<nat>)
    requires forall l: nat :: l < |starts| ==> PieceWritten(table, m, b, sb, starts, end, seg, l)
    ensures Written(table, m, b, sb, starts, end, seg)
  {
    hide NodeWritten, SegGap;
    forall l: nat | l < |starts|
      ensures NodeWritten(table, m, b, sb, end, seg, starts[l]) &&
        SegGap(seg, starts[l] + SizeAt(table, m, b, starts[l]), Next(starts, l, end))
    {
      assert PieceWritten(table, m, b, sb, starts, end, seg, l);
    }
  }

  ghost predicate StartsIn(b: seq<nat>, starts: seq<nat>) {
    forall k :: 0 <= k < |starts| ==> starts[k] / BLOCK < |b|
  }

  lemma NodeInside(b: seq<nat>, starts: seq<nat>, p: nat)
    requires StartsIn(b, starts) && IsNode(b, starts, p)
    ensures exists k :: 0 <= k < |b| && Inside(b[k], p)
  {
    var t :| 0 <= t < |starts| && p == Addr(b, starts[t]);
    assert Inside(b[starts[t] / BLOCK], p);
  }

  /** Between i and j there are only words. */
  ghost predicate Words(seg: seq<nat>, i: nat, j: nat) {
    forall y: nat :: i <= y < j && y % WORD != 0 && y < |seg| ==> seg[y] == 0
  }

  lemma WholeAt(seg: seq<nat>, i: nat, j: nat, x: nat)
    requires Words(seg, i, j) && i <= x && x + WORD <= j <= |seg| && x % WORD == 0
    ensures WholeWord(seg, x)
  {
    assert (x + 1) % WORD == 1 && (x + 2) % WORD == 2 && (x + 3) % WORD == 3;
  }

  lemma WordsSet(seg: seq<nat>, i: nat, j: nat, x: nat, v: nat)
    requires Words(seg, i, j) && x < |seg| && x % WORD == 0
    ensures Words(seg[x := v], i, j)
  {
  }

  lemma CellsAreWords(m: Memory, b: seq<nat>, seg: seq<nat>, i: nat, n: nat)
    requires OnlyWords(m, b) && n > 0 && InOneBlock(i, n, |b|)
    requires i + n <= |seg| && forall y: nat :: i <= y < i + n ==> seg[y] == Cell(m, b, y)
    ensures Words(seg, i, i + n)
  {
    forall y: nat | i <= y < i + n && y % WORD != 0 ensures seg[y] == 0 {
      assert y / BLOCK <= (i + n - 1) / BLOCK;
      assert seg[y] == Cell(m, b, y);
    }
  }

  lemma WholeKept(m: Memory, sb: seq<nat>, end: nat, seg: seq<nat>, out: seq<nat>, x: nat)
    requires WholeWord(seg, x) && x + WORD <= end && Touched(m, sb, end, seg, out, x, x + 1)
    ensures WholeWord(out, x)
  {
  }

  /** Operand j of the node at i has been turned into an offset. */
  ghost predicate KidDone(m: Memory, b: seq<nat>, out: seq<nat>, i: nat, j: nat) {
    KidAt(i, j) < |out| && WholeWord(out, KidAt(i, j)) && KidWritten(b, Cell(m, b, KidAt(i, j)), out[KidAt(i, j)])
  }

  ghost predicate KidsDone(m: Memory, b: seq<nat>, out: seq<nat>, i: nat, j: nat) {
    forall l: nat :: l < j ==> KidDone(m, b, out, i, l)
  }

  lemma KidsMore(m: Memory, b: seq<nat>, was: seq<nat>, out: seq<nat>, i: nat, j: nat, n: nat)
    requires KidsDone(m, b, was, i, j) && Words(was, i, i + n) && KidAt(i, j) + WORD <= i + n <= |was| && i % WORD == 0
    requires |out| == |was| && KidWritten(b, Cell(m, b, KidAt(i, j)), out[KidAt(i, j)])
    requires out == was || out == was[KidAt(i, j) := out[KidAt(i, j)]]
    ensures KidsDone(m, b, out, i, j + 1) && Words(out, i, i + n)
  {
    hide Cell, KidWritten, Words, WholeWord;
    if out != was { WordsSet(was, i, i + n, KidAt(i, j), out[KidAt(i, j)]); }
    WholeAt(out, i, i + n, KidAt(i, j));
    forall l: nat | l < j ensures KidDone(m, b, out, i, l) {
      assert KidDone(m, b, was, i, l);
      WholeAt(out, i, i + n, KidAt(i, l));
    }
  }

  function Bytes(m: Memory, src: nat, n: nat): (r: seq<nat>)
    ensures |r| == n && forall x :: 0 <= x < n ==> r[x] == At(m, src + x)
  {
    seq<nat>(n, (x: nat) => At(m, src + x))
  }

  /** memcpy from memory into the segment. */
  function Memcpy(m: Memory, seg: seq<nat>, at: nat, src: nat, n: nat): (r: seq<nat>)
    requires at + n <= |seg|
    ensures |r| == |seg|
    ensures forall x :: 0 <= x < |seg| ==> r[x] == if at <= x < at + n then At(m, src + (x - at)) else seg[x]
  {
    seg[..at] + Bytes(m, src, n) + seg[at + n..]
  }

  /** The two arenas and the memory. starts are the offsets of the nodes. */
  class Pool {
    const table: seq<nat>
    const nodes: Arena
    const strings: Arena
    var mem: Memory
    ghost var starts: seq<nat>

    constructor (table: seq<nat>)
      requires Table(table)
      ensures Valid() && Complete() && this.table == table && starts == [] && mem == map[] && fresh(nodes)
      ensures fresh(strings)
      ensures nodes.bases == [] && strings.bases == []
    {
      this.table, mem, starts := table, map[], [];
      nodes := new Arena();
      strings := new Arena();
    }

    ghost predicate Separate()
      reads nodes`blocks, strings`blocks
    {
      nodes != strings && forall x :: x in nodes.blocks ==> x !in strings.blocks
    }

    ghost predicate Valid()
      reads this, nodes, strings, nodes.blocks, strings.blocks
    {
      && nodes.Valid() && strings.Valid() && Separate() && Table(table) && Apart(nodes.bases + strings.bases)
      && Tiled(table, mem, nodes.bases, starts, nodes.current_index)
      && OnlyWords(mem, nodes.bases) && (nodes.current_index == 0 ==> nodes.bases == [])
    }

    /** Every operand is a node or NULL, and every string node has a string: what can be written. */
    ghost predicate Complete()
      reads this, nodes, strings
    {
      Refs(table, mem, nodes.bases, strings.bases, starts, strings.current_index)
    }

    /** The pointers of the node become offsets in the file. */
    method WriteKids(i: nat, t: nat, seg: seq<nat>, mem_seg: nat) returns (out: seq<nat>)
      requires nodes.Valid() && t == Addr(nodes.bases, i) && NodeAt(table, mem, nodes.bases, i, nodes.current_index)
      requires RefsAt(table, mem, nodes.bases, strings.bases, starts, strings.current_index, i)
      requires StartsIn(nodes.bases, starts)
      requires i + SizeAt(table, mem, nodes.bases, i) <= nodes.current_index <= |seg|
      requires forall y :: i <= y < i + SizeAt(table, mem, nodes.bases, i) ==> seg[y] == Cell(mem, nodes.bases, y)
      requires Words(seg, i, i + SizeAt(table, mem, nodes.bases, i))
      modifies nodes`cache
      ensures nodes.Valid() && |out| == |seg| && out[i] == seg[i]
      ensures forall x :: 0 <= x < |seg| && !(i <= x < i + SizeAt(table, mem, nodes.bases, i)) ==> out[x] == seg[x]
      ensures forall j: nat :: j < Arity(table, Code(seg[i])) ==> KidDone(mem, nodes.bases, out, i, j)
    {
      hide Apart, Addr, Words, WholeWord, KidDone;
      var n := Arity(table, Code(At(mem, t)));
      out := seg;
      var j: nat := 0;
      while j < n
        invariant nodes.Valid() && |out| == |seg| && j <= n && out[i] == seg[i]
        invariant Words(out, i, i + SizeAt(table, mem, nodes.bases, i))
        invariant forall x :: 0 <= x < |seg| && !(i <= x < i + SizeAt(table, mem, nodes.bases, i)) ==> out[x] == seg[x]
        invariant KidsDone(mem, nodes.bases, out, i, j)
        invariant forall y :: KidAt(i, j) <= y < i + SizeAt(table, mem, nodes.bases, i) ==> out[y] == seg[y]
      {
        KidInside(table, Code(At(mem, t)), j);
        AddrRun(nodes.bases, i, SizeAt(table, mem, nodes.bases, i), WORD + j * WORD);
        var kid := At(mem, t + WORD + j * WORD);
        assert kid == Cell(mem, nodes.bases, KidAt(i, j));
        ghost var was := out;
        if kid != NULL {
          NodeInside(nodes.bases, starts, kid);
          var v := nodes.Address2ByteOfst(kid, mem_seg);
          out := out[i + WORD + j * WORD := v];
        }
        KidsMore(mem, nodes.bases, was, out, i, j, SizeAt(table, mem, nodes.bases, i));
        j := j + 1;
      }
    }

    /** The string pointer becomes an offset, and the bytes are copied there. */
    method WriteString(i: nat, t: nat, seg: seq<nat>, mem_seg: nat) returns (out: seq<nat>)
      requires strings.Valid() && i + 2 * WORD <= nodes.current_index
      requires |seg| == nodes.current_index + strings.current_index
      requires IsString(strings.bases, strings.current_index, At(mem, t + WORD), SLen(seg[i]))
      modifies strings`cache
      ensures strings.Valid() && Touched(mem, strings.bases, nodes.current_index, seg, out, i + WORD, i + WORD + 1)
      ensures StringWritten(mem, strings.bases, nodes.current_index, out, At(mem, t + WORD), SLen(seg[i]),
        out[i + WORD])
    {
      hide Apart, Addr;
      var s := At(mem, t + WORD);
      StringPlace(strings.bases, strings.current_index, s, SLen(seg[i]));
      var r := strings.Address2ByteOfst(s, mem_seg);
      PlaceIs(strings.bases, strings.current_index, s, SLen(seg[i]), r);
      ghost var end, send, n := nodes.current_index, strings.current_index, SLen(seg[i]);
      out := seg[i + WORD := nodes.current_index + r];
      out := Memcpy(mem, out, out[i + WORD], s, SLen(out[i]));
      StringCopied(mem, strings.bases, end, send, seg, out, s, n, r, i + WORD);
    }

    /** memcpy of the node at t. */
    method CopyNode(i: nat, t: nat, seg: seq<nat>) returns (out: seq<nat>)
      requires nodes.Valid() && t == Addr(nodes.bases, i) && OnlyWords(mem, nodes.bases)
      requires NodeAt(table, mem, nodes.bases, i, nodes.current_index) && nodes.current_index <= |seg|
      ensures |out| == |seg| && i < |out| && out[i] == At(mem, t) == Cell(mem, nodes.bases, i)
      ensures forall y: nat :: i <= y < i + SizeAt(table, mem, nodes.bases, i) ==> out[y] == Cell(mem, nodes.bases, y)
      ensures forall x :: 0 <= x < |seg| && !(i <= x < i + SizeAt(table, mem, nodes.bases, i)) ==> out[x] == seg[x]
      ensures Words(out, i, i + SizeAt(table, mem, nodes.bases, i))
    {
      hide Apart, Addr, OnlyWords, Words;
      ghost var b, n := nodes.bases, SizeAt(table, mem, nodes.bases, i);
      AddrRun(b, i, n, 0);
      out := Memcpy(mem, seg, i, t, NodeSize(table, Code(At(mem, t))));
      forall y: nat | i <= y < i + n ensures out[y] == Cell(mem, b, y) {
        AddrRun(b, i, n, y - i);
      }
      CellsAreWords(mem, b, out, i, n);
    }

    /** One turn of the loop: copy the node at t to offset i, and turn its pointers into offsets. */
    method WriteNode(i: nat, t: nat, seg: seq<nat>, mem_seg: nat) returns (out: seq<nat>)
      requires nodes.Valid() && strings.Valid() && Separate() && Table(table) && t == Addr(nodes.bases, i)
      requires NodeAt(table, mem, nodes.bases, i, nodes.current_index)
      requires RefsAt(table, mem, nodes.bases, strings.bases, starts, strings.current_index, i)
      requires OnlyWords(mem, nodes.bases)
      requires StartsIn(nodes.bases, starts)
      requires |seg| == nodes.current_index + strings.current_index
      modifies nodes`cache, strings`cache
      ensures nodes.Valid() && strings.Valid() && |out| == |seg|
      ensures NodeWritten(table, mem, nodes.bases, strings.bases, nodes.current_index, out, i)
      ensures Touched(mem, strings.bases, nodes.current_index, seg, out, i, i + SizeAt(table, mem, nodes.bases, i))
    {
      hide Apart, Addr, OnlyWords, Words, WholeWord;
      ghost var b, n := nodes.bases, SizeAt(table, mem, nodes.bases, i);
      var w := At(mem, t);
      out := CopyNode(i, t, seg);
      if Arity(table, Code(w)) > 0 {
        out := WriteKids(i, t, out, mem_seg);
        forall j: nat | j < Arity(table, Code(w))
          ensures KidAt(i, j) < i + n && WholeWord(out, KidAt(i, j))
          ensures KidWritten(b, Cell(mem, b, KidAt(i, j)), out[KidAt(i, j)])
        {
          KidInside(table, Code(w), j);
          assert KidDone(mem, b, out, i, j);
        }
      } else if Code(w) == IB_STRING {
        AddrRun(b, i, n, WORD);
        WholeAt(out, i, i + n, i + WORD);
        ghost var was := out;
        out := WriteString(i, t, out, mem_seg);
        WholeKept(mem, strings.bases, nodes.current_index, was, out, i + WORD);
        assert StringWritten(mem, strings.bases, nodes.current_index, out, Cell(mem, b, i + WORD), SLen(w),
          out[i + WORD]);
      }
    }

    /** Past the node at t, and past the padding behind it. */
    method Advance(i0: nat, t0: nat, ghost k: nat) returns (i: nat, t: nat)
      requires Valid() && k < |starts| && i0 == starts[k] && t0 == Addr(nodes.bases, i0)
      requires forall x: nat :: x <= nodes.current_index ==> x / BLOCK < |nodes.blocks|
      modifies nodes`cache
      ensures Valid() && i == Next(starts, k, nodes.current_index) && t == Addr(nodes.bases, i)
    {
      hide Apart, Addr, Tiled, StepAt, Gap, NodeSize, Table;
      ghost var b, end := nodes.bases, nodes.current_index;
      NextFacts(table, mem, b, starts, end, k);
      i := i0 + NodeSize(table, Code(At(mem, t0)));
      t := nodes.Idx2Address(i);
      while i < nodes.current_index && Code(At(mem, t)) == DOT
        invariant nodes.Valid() && t == Addr(b, i) && i % WORD == 0
        invariant starts[k] + SizeAt(table, mem, b, starts[k]) <= i <= Next(starts, k, end)
        decreases end - i
      {
        NotDot(table, mem, b, starts, end, k, i);
        i := i + WORD;
        t := nodes.Idx2Address(i);
      }
      AtNext(table, mem, b, starts, end, k, i);
    }

    lemma NodeHere(k: nat)
      requires Valid() && Complete() && k < |starts|
      ensures NodeAt(table, mem, nodes.bases, starts[k], nodes.current_index)
      ensures RefsAt(table, mem, nodes.bases, strings.bases, starts, strings.current_index, starts[k])
    {
      hide NodeAt, RefsAt;
      assert StepAt(table, mem, nodes.bases, starts, nodes.current_index, k);
    }

    lemma WriteFacts()
      requires Valid() && starts != [] && nodes.current_index < |nodes.bases| * BLOCK
      ensures StartsIn(nodes.bases, starts) && starts[0] == 0 && nodes.current_index > 0
      ensures forall i: nat :: i <= nodes.current_index ==> i / BLOCK < |nodes.blocks|
    {
      hide Apart;
      assert StepAt(table, mem, nodes.bases, starts, nodes.current_index, 0);
      nodes.EndHasBlock();
      forall k | 0 <= k < |starts| ensures starts[k] / BLOCK < |nodes.bases| {
        assert StepAt(table, mem, nodes.bases, starts, nodes.current_index, k);
      }
    }

    /** gs_write: the file that is mapped at mem_seg. */
    method Write(mem_seg: nat) returns (seg: seq<nat>)
      requires Valid() && Complete() && starts != [] && nodes.current_index < |nodes.bases| * BLOCK
      modifies nodes`cache, strings`cache
      ensures Valid() && |seg| == nodes.current_index + strings.current_index
      ensures Written(table, mem, nodes.bases, strings.bases, starts, nodes.current_index, seg)
    {
      hide Apart, Addr, NodeAt, RefsAt, NodeWritten, SegGap, Gap, Touched, Blank, NodeSize, Tiled, StepAt, Refs, Table,
        PieceWritten, Written;
      ghost var b, sb, end := nodes.bases, strings.bases, nodes.current_index;
      WriteFacts();
      NewBlank(nodes.current_index + strings.current_index, end);
      seg := NewFile(nodes.current_index + strings.current_index);
      var i: nat := 0;
      ghost var k: nat := 0;
      var t := nodes.Idx2Address(0);
      while i < nodes.current_index
        invariant Valid() && Complete() && |seg| == end + strings.current_index
        invariant k <= |starts| && i == (if k < |starts| then starts[k] else end) && t == Addr(b, i)
        invariant forall l: nat :: l < k ==> PieceWritten(table, mem, b, sb, starts, end, seg, l)
        invariant (k < |starts| ==> i < end) && Blank(seg, i, end)
        decreases end - i
      {
        NodeHere(k);
        ghost var was := seg;
        seg := WriteNode(i, t, seg, mem_seg);
        KeepPieces(table, mem, b, sb, starts, end, was, seg, k);
        NextFacts(table, mem, b, starts, end, k);
        i, t := Advance(i, t, k);
        k := k + 1;
      }
      Whole(table, mem, b, sb, starts, end, seg);
    }
  }
}
