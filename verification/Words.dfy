/** 64-bit words (BITMAP_WORD) as naturals, with the bitwise operators bitmap.c applies to them. */
module Words {
  const WORD_BITS: nat := 64
  const WORD_LIMIT: nat := 0x1_0000_0000_0000_0000

  type Word = w: nat | w < WORD_LIMIT

  /** The two-operand word operations that the merge loops perform. */
  datatype Op = And | AndNot | Or | Xor | NotAnd

  predicate Eval(op: Op, a: bool, b: bool) {
    match op
    case And => a && b
    case AndNot => a && !b
    case Or => a || b
    case Xor => a != b
    case NotAnd => !a && b
  }

  function Pow2(n: nat): (p: nat)
    ensures p > 0
  {
    if n == 0 then 1 else 2 * Pow2(n - 1)
  }

  /** Whether bit j of w is set: (w >> j) & 1. */
  predicate Bit(w: nat, j: nat)
    decreases j
  {
    if j == 0 then w % 2 == 1 else Bit(w / 2, j - 1)
  }

  /** The low n bits of op applied to a and b. */
  function Bitwise(op: Op, a: nat, b: nat, n: nat): (r: nat)
    ensures r < Pow2(n)
    decreases n
  {
    if n == 0 then 0
    else
      2 * Bitwise(op, a / 2, b / 2, n - 1) + (if Eval(op, a % 2 == 1, b % 2 == 1) then 1 else 0)
  }

  function Shr(w: nat, n: nat): (r: nat)
    ensures r <= w
    decreases n
  {
    if n == 0 then w else Shr(w / 2, n - 1)
  }

  lemma {:induction false} BitwiseBit(op: Op, a: nat, b: nat, n: nat, j: nat)
    requires j < n
    ensures Bit(Bitwise(op, a, b, n), j) <==> Eval(op, Bit(a, j), Bit(b, j))
    decreases n
  {
    if j > 0 {
      BitwiseBit(op, a / 2, b / 2, n - 1, j - 1);
    }
  }

  lemma {:induction false} BitShr(w: nat, n: nat, j: nat)
    ensures Bit(Shr(w, n), j) <==> Bit(w, n + j)
    decreases n
  {
    if n > 0 {
      BitShr(w / 2, n - 1, j);
    }
  }

  lemma {:induction false} BitExtensional(a: nat, b: nat, n: nat)
    requires a < Pow2(n) && b < Pow2(n)
    requires forall j: nat | j < n :: Bit(a, j) == Bit(b, j)
    ensures a == b
    decreases n
  {
    if n > 0 {
      assert Bit(a, 0) == Bit(b, 0);
      forall j: nat | j < n - 1 ensures Bit(a / 2, j) == Bit(b / 2, j) {
        assert Bit(a, j + 1) == Bit(b, j + 1);
      }
      BitExtensional(a / 2, b / 2, n - 1);
    }
  }

  lemma {:induction false} ZeroBits(j: nat)
    ensures !Bit(0, j)
  {
    if j > 0 { ZeroBits(j - 1); }
  }

  lemma {:induction false} Pow2Bit(k: nat, j: nat)
    ensures Bit(Pow2(k), j) <==> j == k
    decreases j
  {
    if k == 0 {
      if j > 0 { ZeroBits(j - 1); }
    } else if j > 0 {
      Pow2Bit(k - 1, j - 1);
    }
  }

  lemma {:induction false} MaskBit(k: nat, j: nat)
    ensures Bit(Pow2(k) - 1, j) <==> j < k
    decreases j
  {
    if k == 0 { ZeroBits(j); }
    else if j > 0 {
      assert (Pow2(k) - 1) / 2 == Pow2(k - 1) - 1;
      MaskBit(k - 1, j - 1);
    }
  }

  lemma {:induction false} Pow2Add(m: nat, n: nat)
    ensures Pow2(m + n) == Pow2(m) * Pow2(n)
  {
    if m > 0 {
      Pow2Add(m - 1, n);
    }
  }

  lemma Pow2Word()
    ensures Pow2(WORD_BITS) == WORD_LIMIT
  {
    assert Pow2(4) == 2 * 2 * Pow2(2) && Pow2(2) == 4;
    Pow2Add(4, 4);
    Pow2Add(8, 8);
    Pow2Add(16, 16);
    Pow2Add(32, 32);
  }

  /** A bitwise operator on two words. */
  function Apply(op: Op, a: Word, b: Word): (r: Word) {
    Pow2Word();
    Bitwise(op, a, b, WORD_BITS)
  }

  lemma ApplyBit(op: Op, a: Word, b: Word, j: nat)
    requires j < WORD_BITS
    ensures Bit(Apply(op, a, b), j) <==> Eval(op, Bit(a, j), Bit(b, j))
  {
    BitwiseBit(op, a, b, WORD_BITS, j);
  }

  lemma WordExtensional(a: Word, b: Word)
    requires forall j: nat | j < WORD_BITS :: Bit(a, j) == Bit(b, j)
    ensures a == b
  {
    Pow2Word();
    BitExtensional(a, b, WORD_BITS);
  }

  lemma SomeBit(w: Word) returns (j: nat)
    requires w != 0
    ensures j < WORD_BITS && Bit(w, j)
  {
    if forall j: nat | j < WORD_BITS :: !Bit(w, j) {
      forall j: nat | j < WORD_BITS ensures Bit(w, j) == Bit(0, j) { ZeroBits(j); }
      WordExtensional(w, 0);
    }
    j :| j < WORD_BITS && Bit(w, j);
  }

  lemma OrZero(a: Word, b: Word)
    ensures Apply(Or, a, b) == 0 <==> a == 0 && b == 0
  {
    if Apply(Or, a, b) == 0 {
      forall j: nat | j < WORD_BITS ensures Bit(a, j) == Bit(0, j) && Bit(b, j) == Bit(0, j) {
        ApplyBit(Or, a, b, j);
        ZeroBits(j);
      }
      WordExtensional(a, 0);
      WordExtensional(b, 0);
    } else if a == 0 && b == 0 {
      forall j: nat | j < WORD_BITS ensures Bit(Apply(Or, a, b), j) == Bit(0, j) {
        ApplyBit(Or, a, b, j);
        ZeroBits(j);
      }
      WordExtensional(Apply(Or, a, b), 0);
    }
  }

  /** a ^ (a & b) is a & ~b, and b ^ (a & b) is ~a & b. */
  lemma ClearedWord(a: Word, b: Word)
    ensures Apply(Xor, a, Apply(And, a, b)) == Apply(AndNot, a, b)
    ensures Apply(Xor, b, Apply(And, a, b)) == Apply(NotAnd, a, b)
  {
    hide Apply;
    var c := Apply(And, a, b);
    forall j: nat | j < WORD_BITS
      ensures Bit(Apply(Xor, a, c), j) == Bit(Apply(AndNot, a, b), j)
      ensures Bit(Apply(Xor, b, c), j) == Bit(Apply(NotAnd, a, b), j)
    {
      ApplyBit(And, a, b, j);
      ApplyBit(Xor, a, c, j);
      ApplyBit(AndNot, a, b, j);
      ApplyBit(Xor, b, c, j);
      ApplyBit(NotAnd, a, b, j);
    }
    WordExtensional(Apply(Xor, a, c), Apply(AndNot, a, b));
    WordExtensional(Apply(Xor, b, c), Apply(NotAnd, a, b));
  }

  /** OR-ing b in leaves a alone exactly when b has no bit outside a. */
  lemma OrSame(a: Word, b: Word)
    ensures Apply(Or, a, b) == a <==> Apply(NotAnd, a, b) == 0
  {
    hide Apply;
    forall j: nat | j < WORD_BITS
      ensures Bit(Apply(Or, a, b), j) == Bit(a, j) <==> !Bit(Apply(NotAnd, a, b), j)
    {
      ApplyBit(Or, a, b, j);
      ApplyBit(NotAnd, a, b, j);
    }
    if Apply(Or, a, b) == a {
      forall j: nat | j < WORD_BITS ensures Bit(Apply(NotAnd, a, b), j) == Bit(0, j) { ZeroBits(j); }
      WordExtensional(Apply(NotAnd, a, b), 0);
    } else if Apply(NotAnd, a, b) == 0 {
      forall j: nat | j < WORD_BITS ensures Bit(Apply(Or, a, b), j) == Bit(a, j) { ZeroBits(j); }
      WordExtensional(Apply(Or, a, b), a);
    }
  }
}
