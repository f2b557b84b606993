/** What gs_read makes of what gs_write has written (gspin-io.c). */
module GspinRoundTrip {
  import opened Mempools
  import opened GspinNodes
  import opened GspinIo
  import opened GspinRead

  ghost predicate IsStringNode(m: Memory, b: seq<nat>, starts: seq<nat>, k: nat) {
    k < |starts| && Code(Cell(m, b, starts[k])) == IB_STRING
  }

  ghost predicate FirstOne(m: Memory, b: seq<nat>, starts: seq<nat>, k: nat) {
    IsStringNode(m, b, starts, k) && forall l: nat :: l < k ==> !IsStringNode(m, b, starts, l)
  }

  /** The first string node has the string at offset 0 of its arena; without one there are no strings. */
  ghost predicate StringsInOrder(m: Memory, b: seq<nat>, sb: seq<nat>, starts: seq<nat>, send: nat) {
    && (forall k: nat :: FirstOne(m, b, starts, k) ==> Cell(m, b, starts[k] + WORD) == Addr(sb, 0))
    && ((forall k: nat :: !IsStringNode(m, b, starts, k)) ==> send == 0)
  }

  /** No string is the end of its arena, as an empty one might be. */
  ghost predicate NoStringAtEnd(m: Memory, b: seq<nat>, sb: seq<nat>, starts: seq<nat>, send: nat) {
    forall k: nat :: IsStringNode(m, b, starts, k) && send / BLOCK < |sb| ==>
      Cell(m, b, starts[k] + WORD) != Addr(sb, send)
  }

  ghost predicate MatchAt(b: seq<nat>, starts: seq<nat>, base: nat, p: nat, q: nat, t: int) {
    0 <= t < |starts| && p == Addr(b, starts[t]) && q == base + starts[t]
  }

  /** The address of a node of the graph, or NULL, and where it is after reading. */
  ghost predicate Match(b: seq<nat>, starts: seq<nat>, base: nat, p: nat, q: nat) {
    (p == NULL && q == NULL) || exists t :: MatchAt(b, starts, base, p, q, t)
  }

  /** Reading memory that the file cur is mapped to. */
  function SegAt(cur: seq<nat>, base: nat, p: nat): nat {
    if base <= p < base + |cur| then cur[p - base] else 0
  }

  ghost predicate KidMatches(m: Memory, b: seq<nat>, starts: seq<nat>, cur: seq<nat>, base: nat, o: nat, j: nat) {
    Match(b, starts, base, Cell(m, b, KidAt(o, j)), SegAt(cur, base, base + KidAt(o, j)))
  }

  ghost predicate KidsMatch(table: seq<nat>, m: Memory, b: seq<nat>, starts: seq<nat>, cur: seq<nat>, base: nat,
                            o: nat) {
    forall j: nat :: j < Arity(table, Code(Cell(m, b, o))) ==> KidMatches(m, b, starts, cur, base, o, j)
  }

  ghost predicate ByteMatches(m: Memory, cur: seq<nat>, base: nat, s: nat, r: nat, x: nat) {
    base <= r && r + x < base + |cur| && SegAt(cur, base, r + x) == At(m, s + x)
  }

  ghost predicate StringMatches(m: Memory, cur: seq<nat>, base: nat, s: nat, r: nat, n: nat) {
    forall x: nat :: x < n ==> ByteMatches(m, cur, base, s, r, x)
  }

  /** Apart from its kids the node at o is the same: code and length, string bytes, or value. */
  ghost predicate SameButKids(table: seq<nat>, m: Memory, b: seq<nat>, cur: seq<nat>, base: nat, o: nat) {
    var w := Cell(m, b, o);
    && o < |cur| && SegAt(cur, base, base + o) == w
    && (Code(w) == IB_STRING ==>
       StringMatches(m, cur, base, Cell(m, b, o + WORD), SegAt(cur, base, base + o + WORD), SLen(w)))
    && (Arity(table, Code(w)) == 0 && Code(w) != IB_STRING ==>
         forall y :: o + WORD <= y < o + NodeSize(table, Code(w)) ==> y < |cur| && cur[y] == Cell(m, b, y))
  }

  ghost predicate SameValues(table: seq<nat>, m: Memory, b: seq<nat>, starts: seq<nat>, cur: seq<nat>, base: nat) {
    forall k: nat :: k < |starts| ==> SameButKids(table, m, b, cur, base, starts[k])
  }

  /** All pointers lead to the matching nodes. */
  ghost predicate SamePointers(table: seq<nat>, m: Memory, b: seq<nat>, starts: seq<nat>, cur: seq<nat>, base: nat) {
    forall k: nat :: k < |starts| ==> KidsMatch(table, m, b, starts, cur, base, starts[k])
  }

  /** No operand is the node at offset 0, which would be taken for NULL. */
  ghost predicate NoKidAtZero(table: seq<nat>, m: Memory, b: seq<nat>, starts: seq<nat>) {
    forall k, j: nat :: 0 <= k < |starts| && j < Arity(table, Code(Cell(m, b, starts[k]))) ==>
      Cell(m, b, KidAt(starts[k], j)) != Addr(b, 0)
  }

  /** What is common to the lemmas here: the nodes as written and read. */
  ghost predicate Given(table: seq<nat>, m: Memory, b: seq<nat>, sb: seq<nat>, starts: seq<nat>, end: nat, send: nat,
                        seg: seq<nat>) {
    && Table(table) && Apart(b) && Apart(sb) && starts != [] && |seg| == end + send
    && Tiled(table, m, b, starts, end) && Refs(table, m, b, sb, starts, send)
    && Written(table, m, b, sb, starts, end, seg)
  }

  lemma NodeGiven(table: seq<nat>, m: Memory, b: seq<nat>, sb: seq<nat>, starts: seq<nat>, end: nat, send: nat,
                  seg: seq<nat>, k: nat)
    requires Given(table, m, b, sb, starts, end, send, seg) && k < |starts|
    ensures NodeAt(table, m, b, starts[k], end) && RefsAt(table, m, b, sb, starts, send, starts[k])
    ensures NodeWritten(table, m, b, sb, end, seg, starts[k]) && starts[k] < end
    ensures SegGap(seg, starts[k] + SizeAt(table, m, b, starts[k]), Next(starts, k, end))
  {
    assert StepAt(table, m, b, starts, end, k);
  }

  /** The offset of a kid is that of a node. */
  lemma KidOffset(table: seq<nat>, m: Memory, b: seq<nat>, sb: seq<nat>, starts: seq<nat>, end: nat, send: nat,
                  seg: seq<nat>, k: nat, j: nat)
    returns (t: nat)
    requires Given(table, m, b, sb, starts, end, send, seg) && k < |starts|
    requires j < Arity(table, Code(Cell(m, b, starts[k])))
    requires Cell(m, b, KidAt(starts[k], j)) != NULL
    ensures KidAt(starts[k], j) < end && t < |starts| && starts[t] < end
    ensures seg[KidAt(starts[k], j)] == starts[t] && Cell(m, b, KidAt(starts[k], j)) == Addr(b, starts[t])
    ensures starts[t] / BLOCK < |b|
  {
    hide Apart, Addr, Tiled, Refs, Written, Gap, SegGap;
    NodeGiven(table, m, b, sb, starts, end, send, seg, k);
    var p := Cell(m, b, KidAt(starts[k], j));
    assert IsNode(b, starts, p) && KidWritten(b, p, seg[KidAt(starts[k], j)]);
    t :| 0 <= t < |starts| && p == Addr(b, starts[t]);
    NodeGiven(table, m, b, sb, starts, end, send, seg, t);
    AddrInjective(b, starts[t], seg[KidAt(starts[k], j)]);
  }

  lemma NextGiven(table: seq<nat>, m: Memory, b: seq<nat>, sb: seq<nat>, starts: seq<nat>, end: nat, send: nat,
                  seg: seq<nat>, k: nat)
    requires Given(table, m, b, sb, starts, end, send, seg)
    ensures starts != [] && starts[0] == 0 && |seg| == end + send && Table(table) && Apart(b)
    ensures k < |starts| ==> starts[k] + SizeAt(table, m, b, starts[k]) <= Next(starts, k, end) <= end
    ensures k + 1 < |starts| ==> starts[k + 1] < end
    ensures k + 1 == |starts| ==> starts[k] + SizeAt(table, m, b, starts[k]) == end
  {
    if k < |starts| { NextFacts(table, m, b, starts, end, k); }
  }

  /** What gs_write writes, gs_read can read. */
  lemma WrittenIsReadable(table: seq<nat>, m: Memory, b: seq<nat>, sb: seq<nat>, starts: seq<nat>, end: nat, send: nat,
                          seg: seq<nat>)
    requires Given(table, m, b, sb, starts, end, send, seg)
    ensures Readable(table, seg, starts, end)
  {
    hide Given, Apart, Addr;
    forall k: nat | k < |starts| ensures SegStep(table, seg, starts, end, k) {
      NodeGiven(table, m, b, sb, starts, end, send, seg, k);
      NextGiven(table, m, b, sb, starts, end, send, seg, k);
      forall j: nat | j < Arity(table, Code(seg[starts[k]])) ensures KidBound(seg, starts[k], j) {
        if Cell(m, b, KidAt(starts[k], j)) != NULL {
          var t := KidOffset(table, m, b, sb, starts, end, send, seg, k, j);
        }
      }
    }
    NextGiven(table, m, b, sb, starts, end, send, seg, 0);
  }

  lemma {:induction false} FirstString(m: Memory, b: seq<nat>, starts: seq<nat>, k: nat) returns (f: nat)
    requires IsStringNode(m, b, starts, k)
    ensures FirstOne(m, b, starts, f)
  {
    if l: nat :| l < k && IsStringNode(m, b, starts, l) {
      f := FirstString(m, b, starts, l);
    } else {
      f := k;
    }
  }

  lemma StringOffset(table: seq<nat>, m: Memory, b: seq<nat>, sb: seq<nat>, starts: seq<nat>, end: nat, send: nat,
                     seg: seq<nat>, k: nat)
    requires Given(table, m, b, sb, starts, end, send, seg) && k < |starts| && Code(Cell(m, b, starts[k])) == IB_STRING
    ensures starts[k] + WORD < |seg| && starts[k] + 2 * WORD <= end
    ensures StringWritten(m, sb, end, seg, Cell(m, b, starts[k] + WORD), SLen(Cell(m, b, starts[k])),
      seg[starts[k] + WORD])
    ensures Cell(m, b, starts[k] + WORD) == Addr(sb, 0) ==> seg[starts[k] + WORD] == end
  {
    hide Apart, Addr, Tiled, Refs, Written;
    NodeGiven(table, m, b, sb, starts, end, send, seg, k);
    var u := seg[starts[k] + WORD];
    if Cell(m, b, starts[k] + WORD) == Addr(sb, 0) { AddrInjective(sb, u - end, 0); }
  }

  lemma SameStringNodes(table: seq<nat>, m: Memory, b: seq<nat>, sb: seq<nat>, starts: seq<nat>, end: nat, send: nat,
                        seg: seq<nat>)
    requires Given(table, m, b, sb, starts, end, send, seg)
    ensures forall k: nat :: IsStringNode(m, b, starts, k) <==> StringNode(seg, starts, k)
  {
    hide Given, Apart, Addr;
    NextGiven(table, m, b, sb, starts, end, send, seg, 0);
    forall k: nat ensures IsStringNode(m, b, starts, k) <==> StringNode(seg, starts, k) {
      if k < |starts| { NodeGiven(table, m, b, sb, starts, end, send, seg, k); }
    }
  }

  /** No string begins at the end of the file just if none is the end of its arena. */
  lemma InsideIff(table: seq<nat>, m: Memory, b: seq<nat>, sb: seq<nat>, starts: seq<nat>, end: nat, send: nat,
                  seg: seq<nat>)
    requires Given(table, m, b, sb, starts, end, send, seg)
    ensures StringsInside(seg, starts) <==> NoStringAtEnd(m, b, sb, starts, send)
  {
    hide Apart, Addr, Tiled, Refs, Written;
    SameStringNodes(table, m, b, sb, starts, end, send, seg);
    forall k: nat | IsStringNode(m, b, starts, k)
      ensures StringInside(seg, starts[k]) <==> !(send / BLOCK < |sb| && Cell(m, b, starts[k] + WORD) == Addr(sb, send))
    {
      StringOffset(table, m, b, sb, starts, end, send, seg, k);
      NodeGiven(table, m, b, sb, starts, end, send, seg, k);
      if send / BLOCK < |sb| && Cell(m, b, starts[k] + WORD) == Addr(sb, send) {
        AddrInjective(sb, seg[starts[k] + WORD] - end, send);
      }
    }
  }

  /** Strings in order begin where the nodes end. */
  lemma InOrderPasses(table: seq<nat>, m: Memory, b: seq<nat>, sb: seq<nat>, starts: seq<nat>, end: nat, send: nat,
                      seg: seq<nat>)
    requires Given(table, m, b, sb, starts, end, send, seg) && StringsInOrder(m, b, sb, starts, send)
    ensures Passes(table, seg, SectionAt(seg, starts, |starts|), end)
  {
    hide Given, Apart, Addr;
    NextGiven(table, m, b, sb, starts, end, send, seg, 0);
    SameStringNodes(table, m, b, sb, starts, end, send, seg);
    WrittenIsReadable(table, m, b, sb, starts, end, send, seg);
    SectionFirst(table, seg, starts, end, |starts|, 0);
    if k: nat :| IsStringNode(m, b, starts, k) {
      var f := FirstString(m, b, starts, k);
      StringOffset(table, m, b, sb, starts, end, send, seg, f);
      SectionFirst(table, seg, starts, end, |starts|, f);
    }
  }

  /** What gs_read has done to the nodes. */
  ghost predicate AllRead(table: seq<nat>, seg: seq<nat>, cur: seq<nat>, base: nat, starts: seq<nat>) {
    |cur| == |seg| && base > 0 && forall k: nat :: k < |starts| ==> NodeRead(table, seg, cur, base, starts[k])
  }

  lemma ValueSame(table: seq<nat>, m: Memory, b: seq<nat>, sb: seq<nat>, starts: seq<nat>, end: nat, send: nat,
                  seg: seq<nat>, cur: seq<nat>, base: nat, k: nat)
    requires Given(table, m, b, sb, starts, end, send, seg) && AllRead(table, seg, cur, base, starts)
    requires k < |starts| && Same(seg, cur, end)
    ensures SameButKids(table, m, b, cur, base, starts[k])
  {
    hide Given, Apart, Addr, Gap, SegGap;
    NodeGiven(table, m, b, sb, starts, end, send, seg, k);
    NextGiven(table, m, b, sb, starts, end, send, seg, k);
    var o, w := starts[k], Cell(m, b, starts[k]);
    assert NodeRead(table, seg, cur, base, o);
    if Code(w) == IB_STRING {
      StringOffset(table, m, b, sb, starts, end, send, seg, k);
      var s, u := Cell(m, b, o + WORD), seg[o + WORD];
      var r := base + u;
      forall x: nat | x < SLen(w) ensures ByteMatches(m, cur, base, s, r, x) {
        assert SameByte(m, seg, s, u, x);
      }
    }
  }

  lemma RootAddress(b: seq<nat>)
    requires Apart(b) && 0 / BLOCK < |b|
    ensures Addr(b, 0) != NULL
  {
    AddrPositive(b, 0);
  }

  /** Operand j of node k, if it is the node at starts[t], has become its address in the file, or NULL. */
  lemma KidSame(table: seq<nat>, m: Memory, b: seq<nat>, sb: seq<nat>, starts: seq<nat>, end: nat, send: nat,
                seg: seq<nat>, cur: seq<nat>, base: nat, k: nat, j: nat)
    requires Given(table, m, b, sb, starts, end, send, seg) && AllRead(table, seg, cur, base, starts)
    requires k < |starts| && j < Arity(table, Code(Cell(m, b, starts[k])))
    ensures KidMatches(m, b, starts, cur, base, starts[k], j) <==> Cell(m, b, KidAt(starts[k], j)) != Addr(b, 0)
  {
    hide Given, Apart, Addr, Gap, SegGap;
    NodeGiven(table, m, b, sb, starts, end, send, seg, k);
    NodeGiven(table, m, b, sb, starts, end, send, seg, 0);
    NextGiven(table, m, b, sb, starts, end, send, seg, k);
    var at := KidAt(starts[k], j);
    var p := Cell(m, b, at);
    assert NodeRead(table, seg, cur, base, starts[k]) && KidRead(seg, cur, base, starts[k], j);
    RootAddress(b);
    if p != NULL {
      var t := KidOffset(table, m, b, sb, starts, end, send, seg, k, j);
      if p == Addr(b, 0) {
        AddrInjective(b, starts[t], 0);
      } else {
        assert starts[t] != 0;
        assert MatchAt(b, starts, base, p, cur[at], t);
      }
    } else {
      assert KidWritten(b, p, seg[at]);
    }
  }

  /** The round trip: every node comes back with its value, string bytes included if gs_read has not touched them,
      and the pointers come back just if none of them leads to the node at offset 0. */
  lemma ReadOfWritten(table: seq<nat>, m: Memory, b: seq<nat>, sb: seq<nat>, starts: seq<nat>, end: nat, send: nat,
                      seg: seq<nat>, cur: seq<nat>, base: nat)
    requires Given(table, m, b, sb, starts, end, send, seg) && AllRead(table, seg, cur, base, starts)
    ensures Same(seg, cur, end) ==> SameValues(table, m, b, starts, cur, base)
    ensures SamePointers(table, m, b, starts, cur, base) <==> NoKidAtZero(table, m, b, starts)
  {
    hide Given, AllRead, SameButKids, KidMatches, Addr;
    forall k: nat | k < |starts| && Same(seg, cur, end) ensures SameButKids(table, m, b, cur, base, starts[k]) {
      ValueSame(table, m, b, sb, starts, end, send, seg, cur, base, k);
    }
    forall k, j: nat | 0 <= k < |starts| && j < Arity(table, Code(Cell(m, b, starts[k])))
      ensures KidMatches(m, b, starts, cur, base, starts[k], j) <==> Cell(m, b, KidAt(starts[k], j)) != Addr(b, 0)
    {
      KidSame(table, m, b, sb, starts, end, send, seg, cur, base, k, j);
    }
    if SamePointers(table, m, b, starts, cur, base) {
      forall k, j: nat | 0 <= k < |starts| && j < Arity(table, Code(Cell(m, b, starts[k])))
        ensures Cell(m, b, KidAt(starts[k], j)) != Addr(b, 0)
      {
        assert KidsMatch(table, m, b, starts, cur, base, starts[k]);
      }
    }
  }

  /** The value of every leaf comes back. */
  lemma LeafComesBack(table: seq<nat>, m: Memory, b: seq<nat>, starts: seq<nat>, cur: seq<nat>, base: nat, k: nat)
    requires SameValues(table, m, b, starts, cur, base) && k < |starts|
    requires Arity(table, Code(Cell(m, b, starts[k]))) == 0 && Code(Cell(m, b, starts[k])) != IB_STRING
    ensures starts[k] < |cur| && cur[starts[k]] == Cell(m, b, starts[k])
    ensures forall y :: starts[k] + WORD <= y < starts[k] + ValueEnd(Code(Cell(m, b, starts[k]))) ==>
      y < |cur| && cur[y] == Cell(m, b, y)
  {
    var o, c := starts[k], Code(Cell(m, b, starts[k]));
    assert SameButKids(table, m, b, cur, base, o);
    LeavesHaveRoom(table, c);
    forall y | o + WORD <= y < o + ValueEnd(c) ensures y < |cur| && cur[y] == Cell(m, b, y) {
      assert Cell(m, b, y) >= 0;
    }
  }

  // ---- the graph -------------------------------------------------------------------------------

  /** From the node at p along operands: NULL where there is no such operand. */
  function Follow(table: seq<nat>, read: nat -> nat, p: nat, path: seq<nat>): nat
    decreases |path|
  {
    if path == [] then p
    else if p == NULL || path[0] >= Arity(table, Code(read(p))) then NULL
    else Follow(table, read, read(p + WORD + path[0] * WORD), path[1..])
  }

  function InMemory(m: Memory): nat -> nat {
    (p: nat) => At(m, p)
  }

  function InFile(cur: seq<nat>, base: nat): nat -> nat {
    (p: nat) => SegAt(cur, base, p)
  }

  lemma NodeBlock(table: seq<nat>, m: Memory, b: seq<nat>, o: nat, end: nat)
    requires NodeAt(table, m, b, o, end)
    ensures o / BLOCK < |b|
  {
  }

  lemma PathNode(table: seq<nat>, m: Memory, b: seq<nat>, starts: seq<nat>, end: nat, cur: seq<nat>, base: nat, t: nat)
    requires Tiled(table, m, b, starts, end) && t < |starts| && Apart(b)
    requires SameValues(table, m, b, starts, cur, base) && SamePointers(table, m, b, starts, cur, base)
    ensures NodeAt(table, m, b, starts[t], end) && SegAt(cur, base, base + starts[t]) == Cell(m, b, starts[t])
    ensures KidsMatch(table, m, b, starts, cur, base, starts[t]) && Addr(b, starts[t]) != NULL
  {
    hide NodeAt;
    assert StepAt(table, m, b, starts, end, t) && SameButKids(table, m, b, cur, base, starts[t]);
    NodeBlock(table, m, b, starts[t], end);
    AddrPositive(b, starts[t]);
  }

  lemma MatchNull(table: seq<nat>, m: Memory, b: seq<nat>, starts: seq<nat>, end: nat, cur: seq<nat>, base: nat, p: nat,
                  q: nat)
    requires Apart(b) && base > 0 && Tiled(table, m, b, starts, end)
    requires SameValues(table, m, b, starts, cur, base) && SamePointers(table, m, b, starts, cur, base)
    requires Match(b, starts, base, p, q)
    ensures p == NULL <==> q == NULL
  {
    hide Tiled, SameValues, SamePointers, Addr, Gap;
    if t :| MatchAt(b, starts, base, p, q, t) {
      PathNode(table, m, b, starts, end, cur, base, t);
    }
  }

  /** The same path from matching nodes leads to matching nodes. */
  lemma {:induction false} PathsMatch(table: seq<nat>, m: Memory, b: seq<nat>, starts: seq<nat>, end: nat,
                                      cur: seq<nat>, base: nat, p: nat, q: nat, path: seq<nat>)
    requires Apart(b) && base > 0 && Tiled(table, m, b, starts, end)
    requires SameValues(table, m, b, starts, cur, base) && SamePointers(table, m, b, starts, cur, base)
    requires Match(b, starts, base, p, q)
    ensures Match(b, starts, base, Follow(table, InMemory(m), p, path), Follow(table, InFile(cur, base), q, path))
    decreases |path|
  {
    hide Tiled, SameValues, SamePointers, Addr, Gap;
    MatchNull(table, m, b, starts, end, cur, base, p, q);
    if path != [] && p != NULL {
      var t :| MatchAt(b, starts, base, p, q, t);
      var o := starts[t];
      PathNode(table, m, b, starts, end, cur, base, t);
      if path[0] < Arity(table, Code(Cell(m, b, o))) {
        KidInside(table, Code(Cell(m, b, o)), path[0]);
        AddrRun(b, o, SizeAt(table, m, b, o), WORD + path[0] * WORD);
        assert KidMatches(m, b, starts, cur, base, o, path[0]);
        assert KidAt(o, path[0]) == o + (WORD + path[0] * WORD);
        PathsMatch(table, m, b, starts, end, cur, base, Cell(m, b, KidAt(o, path[0])), SegAt(cur, base, base + KidAt(o,
                   path[0])), path[1..]);
      }
    }
  }

  lemma MatchOneToOne(table: seq<nat>, m: Memory, b: seq<nat>, starts: seq<nat>, end: nat, cur: seq<nat>, base: nat,
                      p: nat, q: nat, p1: nat, q1: nat)
    requires Apart(b) && base > 0 && Tiled(table, m, b, starts, end)
    requires SameValues(table, m, b, starts, cur, base) && SamePointers(table, m, b, starts, cur, base)
    requires Match(b, starts, base, p, q) && Match(b, starts, base, p1, q1)
    ensures p == p1 <==> q == q1
  {
    hide Tiled, SameValues, SamePointers, Addr, Gap;
    MatchNull(table, m, b, starts, end, cur, base, p, q);
    MatchNull(table, m, b, starts, end, cur, base, p1, q1);
    if p != NULL && p1 != NULL {
      var t :| MatchAt(b, starts, base, p, q, t);
      var u :| MatchAt(b, starts, base, p1, q1, u);
      PathNode(table, m, b, starts, end, cur, base, t);
      PathNode(table, m, b, starts, end, cur, base, u);
      if p == p1 { AddrInjective(b, starts[t], starts[u]); }
    }
  }

  /** Sharing and cycles: two paths from the root meet after reading just if they met before writing. */
  lemma SharingKept(table: seq<nat>, m: Memory, b: seq<nat>, starts: seq<nat>, end: nat, cur: seq<nat>, base: nat,
                    path: seq<nat>, other: seq<nat>)
    requires Apart(b) && base > 0 && Tiled(table, m, b, starts, end) && starts != []
    requires SameValues(table, m, b, starts, cur, base) && SamePointers(table, m, b, starts, cur, base)
    ensures
      Follow(table, InMemory(m), Addr(b, 0), path) == Follow(table, InMemory(m), Addr(b, 0), other)
      <==> Follow(table, InFile(cur, base), base, path) == Follow(table, InFile(cur, base), base, other)
  {
    hide SameValues, SamePointers, Addr, Gap, Follow;
    assert starts[0] == 0;
    assert MatchAt(b, starts, base, Addr(b, 0), base, 0);
    PathsMatch(table, m, b, starts, end, cur, base, Addr(b, 0), base, path);
    PathsMatch(table, m, b, starts, end, cur, base, Addr(b, 0), base, other);
    MatchOneToOne(table, m, b, starts, end, cur, base,
                  Follow(table, InMemory(m), Addr(b, 0), path), Follow(table, InFile(cur, base), base, path),
                  Follow(table, InMemory(m), Addr(b, 0), other), Follow(table, InFile(cur, base), base, other));
  }

  /** gs_write, and gs_read of the file mapped at base. The file shows exactly if everything comes back. */
  method RoundTrip(g: Pool, mem_seg: nat, base: nat) returns (ok: bool, seg: seq<nat>, cur: seq<nat>)
    requires g.Valid() && g.Complete() && g.starts != [] && base > 0
    requires g.nodes.current_index < |g.nodes.bases| * BLOCK
    modifies g.nodes`cache, g.strings`cache
    ensures Given(g.table, g.mem, g.nodes.bases, g.strings.bases, g.starts, g.nodes.current_index,
      g.strings.current_index, seg)
    ensures ok && Same(seg, cur, g.nodes.current_index) <==>
      && Passes(g.table, seg, SectionAt(seg, g.starts, |g.starts|), g.nodes.current_index)
      && NoStringAtEnd(g.mem, g.nodes.bases, g.strings.bases, g.starts, g.strings.current_index)
    ensures ok ==> NoStringAtEnd(g.mem, g.nodes.bases, g.strings.bases, g.starts, g.strings.current_index)
    ensures ok && Same(seg, cur, g.nodes.current_index) ==>
      SameValues(g.table, g.mem, g.nodes.bases, g.starts, cur, base)
    ensures ok ==>
      (SamePointers(g.table, g.mem, g.nodes.bases, g.starts, cur, base) <==>
        NoKidAtZero(g.table, g.mem, g.nodes.bases, g.starts))
  {
    hide Tiled, Refs, Written, SameValues, SamePointers, Addr, NoKidAtZero, NoStringAtEnd, StringsInside, Readable,
      NodeRead, Table, Passes, SectionAt, Same;
    seg := g.Write(mem_seg);
    ghost var end, send := g.nodes.current_index, g.strings.current_index;
    JoinApart(g.nodes.bases, g.strings.bases);
    WrittenIsReadable(g.table, g.mem, g.nodes.bases, g.strings.bases, g.starts, end, send, seg);
    InsideIff(g.table, g.mem, g.nodes.bases, g.strings.bases, g.starts, end, send, seg);
    ok, cur := Read(g.table, seg, base, g.starts, end);
    if ok {
      ReadOfWritten(g.table, g.mem, g.nodes.bases, g.strings.bases, g.starts, end, send, seg, cur, base);
    }
  }
}
