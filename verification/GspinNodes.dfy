/** Layout of gspin nodes in memory and in a segment (gspin-tree.h, gspin-tree.c). Memory is a map from
    addresses to values: that of a 4-byte word is kept at the address of its first byte. */
module GspinNodes {
  import opened Mempools

  const WORD: nat := 4
  const NULL: nat := 0

  // gs_code_t
  const DOT: nat := 0
  const IB_INT: nat := 3
  const IB_UNSIGNED: nat := 4
  const IB_LONG_LONG: nat := 5
  const IB_LONG: nat := 6
  const IB_LONG_DOUBLE: nat := 7
  const IB_UNSIGNED_LONG: nat := 8
  const IB_UNSIGNED_LONG_LONG: nat := 9
  const IB_CHAR: nat := 10
  const IB_STRING: nat := 11
  const IB_FLOAT: nat := 12
  const IB_DOUBLE: nat := 13
  const IB_BOOL: nat := 14
  const IB_BIT_VECTOR: nat := 15
  const GS_TCC: nat := 16
  const GSBI: nat := 17
  const GSBI_CLASS: nat := 18
  const GS_ERROR_MARK: nat := 63

  const ONE_WORD: set<nat> := {IB_CHAR, IB_BOOL, GS_TCC, GSBI, GSBI_CLASS, GS_ERROR_MARK}
  const TWO_WORDS: set<nat> := {IB_UNSIGNED, IB_UNSIGNED_LONG, IB_INT, IB_LONG, IB_FLOAT, IB_STRING}
  const FOUR_WORDS: set<nat> := {IB_LONG_LONG, IB_UNSIGNED_LONG_LONG, IB_BIT_VECTOR, IB_DOUBLE, IB_LONG_DOUBLE}

  /** The fields code and slen of the first word of a node. */
  function Code(w: nat): nat {
    w % 256
  }

  function SLen(w: nat): nat {
    w / 512
  }

  /** gs_code_arity, given the arity column of tree_code_table. */
  function Arity(table: seq<nat>, code: nat): nat {
    if code < |table| then table[code] else 0
  }

  /** gspin_node_size; zero where it fails. */
  function NodeSize(table: seq<nat>, code: nat): (n: nat)
    ensures n % WORD == 0
  {
    if Arity(table, code) != 0 then (1 + Arity(table, code)) * WORD
    else if code in ONE_WORD then WORD
    else if code in TWO_WORDS then 2 * WORD
    else if code in FOUR_WORDS then 4 * WORD
    else 0
  }

  /** Where the value of a leaf ends, going by the fields of struct gspin: a byte or two at byte 2, or one, two or three
      words at byte 4; zero if there is none. */
  function ValueEnd(code: nat): nat {
    if code in {IB_BOOL, IB_CHAR, GS_TCC, GSBI_CLASS} then 2 + 1
    else if code == GSBI then 2 + 2
    else if code in {IB_UNSIGNED, IB_UNSIGNED_LONG, IB_INT, IB_LONG, IB_FLOAT, IB_STRING} then 4 + 4
    else if code in {IB_LONG_LONG, IB_UNSIGNED_LONG_LONG, IB_BIT_VECTOR, IB_DOUBLE} then 4 + 8
    else if code == IB_LONG_DOUBLE then 4 + 12
    else 0
  }

  /** Every leaf has room for its value; what has no value but a name has a word. */
  lemma LeavesHaveRoom(table: seq<nat>, code: nat)
    requires Arity(table, code) == 0
    ensures ValueEnd(code) <= NodeSize(table, code)
    ensures NodeSize(table, code) == 0 <==> ValueEnd(code) == 0 && code != GS_ERROR_MARK
  {
    if code in {IB_BOOL, IB_CHAR, GS_TCC, GSBI_CLASS} || code == GSBI || code == GS_ERROR_MARK {
      assert code in ONE_WORD;
    }
  }

  /** What the table says of the codes that matter here. */
  ghost predicate Table(table: seq<nat>) {
    && IB_STRING < |table| <= 256 && table[DOT] == 0 && table[IB_STRING] == 0
    && forall c :: 0 <= c < |table| ==> table[c] <= 255
  }

  type Memory = map<nat, nat>

  function At(m: Memory, p: nat): nat {
    if p in m then m[p] else 0
  }

  /** The value in cell i of an arena. */
  function Cell(m: Memory, bases: seq<nat>, i: nat): nat {
    At(m, Addr(bases, i))
  }

  ghost function SizeAt(table: seq<nat>, m: Memory, b: seq<nat>, o: nat): nat {
    NodeSize(table, Code(Cell(m, b, o)))
  }

  /** A whole node at offset o, in one block. */
  ghost predicate NodeAt(table: seq<nat>, m: Memory, b: seq<nat>, o: nat, end: nat) {
    var n := SizeAt(table, m, b, o);
    o % WORD == 0 && n > 0 && o + n <= end && o / BLOCK == (o + n - 1) / BLOCK < |b|
  }

  function Next(starts: seq<nat>, k: nat, end: nat): nat {
    if k + 1 < |starts| then starts[k + 1] else end
  }

  ghost predicate Gap(m: Memory, b: seq<nat>, i: nat, j: nat) {
    forall x: nat :: i <= x < j && x % WORD == 0 ==> Cell(m, b, x) == 0
  }

  /** Behind node k come zero words up to the next one; the last node ends the arena. */
  ghost predicate StepAt(table: seq<nat>, m: Memory, b: seq<nat>, starts: seq<nat>, end: nat, k: nat)
    requires k < |starts|
  {
    var stop := starts[k] + SizeAt(table, m, b, starts[k]);
    && NodeAt(table, m, b, starts[k], end)
    && stop <= Next(starts, k, end) && Gap(m, b, stop, Next(starts, k, end))
    && (k + 1 == |starts| ==> stop == end)
  }

  /** The arena is filled by the nodes at starts. */
  ghost predicate Tiled(table: seq<nat>, m: Memory, b: seq<nat>, starts: seq<nat>, end: nat) {
    && (if starts == [] then end == 0 else starts[0] == 0)
    && forall k: nat :: k < |starts| ==> StepAt(table, m, b, starts, end, k)
  }

  /** Where operand j of the node at o is. */
  function KidAt(o: nat, j: nat): nat {
    o + WORD + j * WORD
  }

  ghost predicate IsNode(b: seq<nat>, starts: seq<nat>, p: nat) {
    exists t :: 0 <= t < |starts| && p == Addr(b, starts[t])
  }

  ghost predicate StringAt(sb: seq<nat>, send: nat, s: nat, n: nat, i: nat) {
    i + n <= send && InOneBlock(i, n, |sb|) && s == Addr(sb, i)
  }

  /** A string of n bytes at address s, in one block of the string arena. */
  ghost predicate IsString(sb: seq<nat>, send: nat, s: nat, n: nat) {
    exists i: nat :: StringAt(sb, send, s, n, i)
  }

  /** In the node arena there are only words: nothing is kept at other addresses than those of first bytes. */
  ghost predicate OnlyWords(m: Memory, b: seq<nat>) {
    forall i: nat :: i / BLOCK < |b| && i % WORD != 0 ==> Cell(m, b, i) == 0
  }

  /** The operands of a node are nodes of the arena or NULL; a string node has its string. */
  ghost predicate RefsAt(table: seq<nat>, m: Memory, b: seq<nat>, sb: seq<nat>, starts: seq<nat>, send: nat, o: nat) {
    var w := Cell(m, b, o);
    && (forall j: nat :: j < Arity(table, Code(w)) ==>
       Cell(m, b, KidAt(o, j)) == NULL || IsNode(b, starts, Cell(m, b, KidAt(o, j))))
    && (Code(w) == IB_STRING ==> IsString(sb, send, Cell(m, b, o + WORD), SLen(w)))
  }

  ghost predicate Refs(table: seq<nat>, m: Memory, b: seq<nat>, sb: seq<nat>, starts: seq<nat>, send: nat) {
    forall k: nat :: k < |starts| ==> RefsAt(table, m, b, sb, starts, send, starts[k])
  }

  lemma KidInside(table: seq<nat>, code: nat, j: nat)
    requires j < Arity(table, code)
    ensures WORD + j * WORD + WORD <= NodeSize(table, code)
  {
  }

  lemma AddrPositive(b: seq<nat>, i: nat)
    requires Apart(b) && i / BLOCK < |b|
    ensures Addr(b, i) > 0
  {
  }

  // ---- in a segment ----------------------------------------------------------------------------

  /** A kid pointer p as it is in the file. */
  ghost predicate KidWritten(b: seq<nat>, p: nat, v: nat) {
    if p == NULL then v == 0 else v / BLOCK < |b| && p == Addr(b, v)
  }

  /** Cell x of a segment; behind the end of a file its last page has zeros. */
  function ByteAt(seg: seq<nat>, x: nat): nat {
    if x < |seg| then seg[x] else 0
  }

  /** The word in a segment at x, be it a word as nodes have it or four bytes of a string. */
  function WordAt(seg: seq<nat>, x: nat): nat {
    ByteAt(seg, x) + 0x100 * ByteAt(seg, x + 1) + 0x1_0000 * ByteAt(seg, x + 2) + 0x100_0000 * ByteAt(seg, x + 3)
  }

  /** A word of a node: all of it is kept in its first cell. */
  ghost predicate WholeWord(seg: seq<nat>, x: nat) {
    x + WORD <= |seg| && seg[x + 1] == seg[x + 2] == seg[x + 3] == 0
  }

  predicate SameByte(m: Memory, seg: seq<nat>, s: nat, u: nat, x: nat) {
    u + x < |seg| && seg[u + x] == At(m, s + x)
  }

  ghost predicate StringWritten(m: Memory, sb: seq<nat>, end: nat, seg: seq<nat>, s: nat, n: nat, u: nat) {
    && end <= u && end <= |seg| && StringAt(sb, |seg| - end, s, n, u - end)
    && forall x: nat :: x < n ==> SameByte(m, seg, s, u, x)
  }

  /** The node at o as gs_write puts it in the file, with its string at the end of the nodes. */
  ghost predicate NodeWritten(table: seq<nat>, m: Memory, b: seq<nat>, sb: seq<nat>, end: nat, seg: seq<nat>, o: nat) {
    var w := Cell(m, b, o);
    var n := NodeSize(table, Code(w));
    && o + n <= end <= |seg| && n > 0 && seg[o] == w
    && if Arity(table, Code(w)) > 0 then
         forall j: nat :: j < Arity(table, Code(w)) ==>
           KidAt(o, j) < o + n && WholeWord(seg, KidAt(o, j)) &&
           KidWritten(b, Cell(m, b, KidAt(o, j)), seg[KidAt(o, j)])
       else if Code(w) == IB_STRING then
         WholeWord(seg, o + WORD) && StringWritten(m, sb, end, seg, Cell(m, b, o + WORD), SLen(w), seg[o + WORD])
       else forall y :: o + WORD <= y < o + n ==> seg[y] == Cell(m, b, y)
  }

  ghost predicate SegGap(seg: seq<nat>, i: nat, j: nat) {
    forall x: nat :: i <= x < j && x % WORD == 0 && x < |seg| ==> seg[x] == 0
  }

  /** The segment holds all nodes, and nothing in the gaps between them. */
  ghost predicate Written(table: seq<nat>, m: Memory, b: seq<nat>, sb: seq<nat>, starts: seq<nat>, end: nat,
                          seg: seq<nat>) {
    forall k: nat :: k < |starts| ==>
      NodeWritten(table, m, b, sb, end, seg, starts[k]) &&
        SegGap(seg, starts[k] + SizeAt(table, m, b, starts[k]), Next(starts, k, end))
  }

  /** seg1 differs from seg only between i and j, and in string bytes that are right. */
  ghost predicate Touched(m: Memory, sb: seq<nat>, end: nat, seg: seq<nat>, seg1: seq<nat>, i: nat, j: nat) {
    && |seg1| == |seg|
    && (forall x :: 0 <= x < end && x < |seg| && !(i <= x < j) ==> seg1[x] == seg[x])
    && (forall y :: end <= y < |seg| ==> seg1[y] == seg[y] || seg1[y] == Cell(m, sb, y - end))
  }

  lemma StringCells(sb: seq<nat>, m: Memory, send: nat, s: nat, n: nat, i: nat, x: nat)
    requires StringAt(sb, send, s, n, i) && x < n
    ensures At(m, s + x) == Cell(m, sb, i + x) && i + x < send
  {
    AddrRun(sb, i, n, x);
  }

  lemma NodeKept(table: seq<nat>, m: Memory, b: seq<nat>, sb: seq<nat>, end: nat, seg: seq<nat>, seg1: seq<nat>, o: nat,
                 i: nat, j: nat)
    requires NodeWritten(table, m, b, sb, end, seg, o) && Touched(m, sb, end, seg, seg1, i, j)
    requires o + SizeAt(table, m, b, o) <= i || j <= o
    ensures NodeWritten(table, m, b, sb, end, seg1, o)
  {
    var w := Cell(m, b, o);
    if Arity(table, Code(w)) == 0 && Code(w) == IB_STRING {
      var s, u := Cell(m, b, o + WORD), seg[o + WORD];
      forall x: nat | x < SLen(w) ensures SameByte(m, seg1, s, u, x) {
        assert SameByte(m, seg, s, u, x);
        StringCells(sb, m, |seg| - end, s, SLen(w), u - end, x);
      }
    }
  }

  lemma GapKept(m: Memory, sb: seq<nat>, end: nat, seg: seq<nat>, seg1: seq<nat>, i: nat, j: nat, g: nat, h: nat)
    requires SegGap(seg, g, h) && h <= end && Touched(m, sb, end, seg, seg1, i, j) && (h <= i || j <= g)
    ensures SegGap(seg1, g, h)
  {
  }
}
