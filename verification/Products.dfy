/** Addresses that are products with the same factor (alias.c). */
module Products {
  import opened Disambiguation

  /** The quotient rounded toward zero. */
  function Quotient(a: int, k: int): int
    requires k > 0
  {
    if a >= 0 then a / k else -(-a / k)
  }

  function Remainder(a: int, k: int): int
    requires k > 0
  {
    a - k * Quotient(a, k)
  }

  lemma Scaled(k: int, a: int, b: int)
    requires k > 0 && a <= b
    ensures k * a <= k * b
  {
    assert k * (b - a) >= 0;
    assert k * (b - a) == k * b - k * a;
  }

  lemma DivisionIs(a: nat, k: nat)
    requires k > 0
    ensures a == k * (a / k) + a % k && 0 <= a % k < k && a / k >= 0
    ensures a / k == 0 <==> a < k
  {
    var q := a / k;
    if q > 0 { Scaled(k, 1, q); }
    if q <= 0 { Scaled(k, q, 0); }
  }

  lemma RemainderIs(a: int, k: int)
    requires k > 0
    ensures a == k * Quotient(a, k) + Remainder(a, k)
    ensures if a >= 0 then 0 <= Remainder(a, k) < k && Quotient(a, k) >= 0 else -k < Remainder(a, k) <= 0
    ensures a > 0 ==> (Quotient(a, k) == 0 <==> a < k)
  {
    if a >= 0 {
      DivisionIs(a, k);
    } else {
      DivisionIs(-a, k);
      assert k * -(-a / k) == -(k * (-a / k));
    }
  }

  /** memrefs_conflict_p for x0 * k and y0 * k, where k is a positive integer. */
  predicate ProductsConflict(xsize: int, x0: Rtx, ysize: int, y0: Rtx, k: int, c: int)
    requires k > 0
  {
    if RtxEqual(x0, y0) then xsize == 0 || ysize == 0 || (c >= 0 && xsize > c) || (c < 0 && ysize + c > 0)
    else Conflict(Quotient(xsize, k), x0, Quotient(ysize, k), y0, Quotient(c, k))
  }

  /** The ranges that such references cover are disjoint. */
  ghost predicate ProductsApart(xsize: int, x0: Rtx, ysize: int, y0: Rtx, k: int, c: int, regs: nat -> int) {
    Apart(k * Value(x0, regs), xsize, k * Value(y0, regs) + c, ysize)
  }

  /** A negative answer about products is right for all operands. */
  ghost predicate ProductsSound(xsize: int, ysize: int, k: int, c: int)
    requires k > 0
  {
    forall x0, y0, regs :: !ProductsConflict(xsize, x0, ysize, y0, k, c) ==>
      ProductsApart(xsize, x0, ysize, y0, k, c, regs)
  }

  predicate Divides(k: int, a: int)
    requires k > 0
  {
    Remainder(a, k) == 0
  }

  lemma ScaledSums(k: int, a: int, m: int, b: int, n: int)
    requires k > 0 && a + m <= b + n
    ensures k * a + k * m <= k * b + k * n
  {
    Scaled(k, a + m, b + n);
    assert k * (a + m) == k * a + k * m && k * (b + n) == k * b + k * n;
  }

  lemma ProductApart(xsize: int, x0: Rtx, ysize: int, y0: Rtx, k: int, c: int, regs: nat -> int)
    requires xsize > 0 && ysize > 0 && k > 0 && !ProductsConflict(xsize, x0, ysize, y0, k, c)
    requires xsize < k || ysize < k || (Divides(k, xsize) && Divides(k, ysize) && Divides(k, c))
    ensures ProductsApart(xsize, x0, ysize, y0, k, c, regs)
  {
    hide Quotient, Remainder;
    if RtxEqual(x0, y0) {
      EqualValue(x0, y0, regs);
    } else {
      RemainderIs(xsize, k);
      RemainderIs(ysize, k);
      RemainderIs(c, k);
      var xs, ys, q := Quotient(xsize, k), Quotient(ysize, k), Quotient(c, k);
      if xs <= 0 || ys <= 0 {
        UnknownSizeConflicts(xs, x0, ys, y0, q);
      } else {
        NoConflictIsSound(xs, x0, ys, y0, q, regs);
        var a, b := Value(x0, regs), Value(y0, regs);
        if a + xs <= b + q {
          ScaledSums(k, a, xs, b, q);
        } else {
          ScaledSums(k, b + q, ys, a, 0);
          ScaledSums(k, b, q, b + q, 0);
        }
        assert k * (b + q) == k * b + k * q;
      }
    }
  }

  function Shifted(v: int): Rtx {
    Plus(0, Reg(0, 0), ConstInt(v))
  }

  lemma Distribute(k: int, a: int, b: int)
    ensures k * (a - b) == k * a - k * b && k * -a == -(k * a)
  {
  }

  lemma Denied(xs: int, ys: int, q: int, v: int)
    requires xs > 0 && ys > 0 && (q + v >= xs || q + v + ys <= 0)
    ensures !Conflict(xs, Reg(0, 0), ys, Shifted(v), q)
  {
    assert Conflict(xs, Reg(0, 0), ys, Shifted(v), q) == Conflict(xs, Reg(0, 0), ys, Reg(0, 0), q + v);
  }

  function NoRegs(): nat -> int {
    (r: nat) => 0
  }

  lemma NoRegsZero()
    ensures NoRegs()(0) == 0
  {
  }

  lemma ShiftedValue(v: int, regs: nat -> int)
    requires regs(0) == 0
    ensures Value(Shifted(v), regs) == v && Value(Reg(0, 0), regs) == 0
  {
  }

  lemma {:induction false} NotApart(xsize: int, ysize: int, k: int, c: int, a: int, b: int, kb: int)
    requires a == 0 && kb == k * b && -ysize < kb + c < xsize
    ensures !Apart(k * a, xsize, k * b + c, ysize)
  {
  }

  lemma {:induction false} Meet(xsize: int, ysize: int, k: int, c: int, v: int)
    requires -ysize < k * v + c < xsize && k > 0
    ensures !ProductsApart(xsize, Reg(0, 0), ysize, Shifted(v), k, c, NoRegs())
  {
    hide Value, Apart, Shifted, NoRegs;
    ShiftedValue(v, NoRegs()) by { assert NoRegs()(0) == 0 by { NoRegsZero(); } }
    NotApart(xsize, ysize, k, c, Value(Reg(0, 0), NoRegs()), Value(Shifted(v), NoRegs()), k * v);
  }

  /** Otherwise a register and a sum of it with an integer are a counterexample. */
  lemma ProductsMeet(xsize: int, ysize: int, k: int, c: int)
    requires xsize >= k > 0 && ysize >= k && !(Divides(k, xsize) && Divides(k, ysize) && Divides(k, c))
    ensures !ProductsSound(xsize, ysize, k, c)
  {
    hide Quotient, Remainder, Conflict, ProductsApart;
    RemainderIs(xsize, k);
    RemainderIs(ysize, k);
    RemainderIs(c, k);
    var xs, ys, q := Quotient(xsize, k), Quotient(ysize, k), Quotient(c, k);
    var v := if Remainder(xsize, k) > Remainder(c, k) then xs - q else -q - ys;
    Distribute(k, xs, q);
    Distribute(k, -q, ys);
    Scaled(k, 1, xs);
    Scaled(k, 1, ys);
    Denied(xs, ys, q, v);
    assert -ysize < k * v + c < xsize;
    Meet(xsize, ysize, k, c, v);
    assert !ProductsConflict(xsize, Reg(0, 0), ysize, Shifted(v), k, c);
  }

  /** Dividing the sizes and the offset by the factor is right just if it divides all three, or a size
      is less than it, so that the quotient is zero and the answer always positive. */
  lemma ProductsAreSound(xsize: int, ysize: int, k: int, c: int)
    requires xsize > 0 && ysize > 0 && k > 0
    ensures ProductsSound(xsize, ysize, k, c) <==>
      xsize < k || ysize < k || (Divides(k, xsize) && Divides(k, ysize) && Divides(k, c))
  {
    if xsize < k || ysize < k || (Divides(k, xsize) && Divides(k, ysize) && Divides(k, c)) {
      forall x0, y0, regs | !ProductsConflict(xsize, x0, ysize, y0, k, c)
        ensures ProductsApart(xsize, x0, ysize, y0, k, c, regs)
      {
        ProductApart(xsize, x0, ysize, y0, k, c, regs);
      }
    } else {
      ProductsMeet(xsize, ysize, k, c);
    }
  }

  lemma ScaledMore(k: int, u: int, v: int)
    requires k > 0 && u > v
    ensures k * u > k * v
  {
    Scaled(k, v + 1, u);
    assert k * (v + 1) == k * v + k;
  }

  /** Ranges that meet still meet when all is multiplied. */
  lemma ScaledMeet(k: int, a: int, xs: int, b: int, q: int, ys: int)
    requires k > 0 && !Apart(a, xs, b + q, ys)
    ensures !Apart(k * a, k * xs, k * b + k * q, k * ys)
  {
    ScaledMore(k, a + xs, b + q);
    ScaledMore(k, b + q + ys, a);
    assert k * (a + xs) == k * a + k * xs;
    assert k * (b + q) == k * b + k * q;
    assert k * (b + q + ys) == k * (b + q) + k * ys;
  }

  /** If the factor divides all three, the answer is exact for operands with the same base. */
  lemma ProductsAreExact(xsize: int, x0: Rtx, ysize: int, y0: Rtx, k: int, c: int, regs: nat -> int)
    requires xsize > 0 && ysize > 0 && k > 0 && Divides(k, xsize) && Divides(k, ysize) && Divides(k, c)
    requires SameBase(x0, y0)
    ensures ProductsConflict(xsize, x0, ysize, y0, k, c) <==> !ProductsApart(xsize, x0, ysize, y0, k, c, regs)
  {
    hide Quotient, Remainder, Value, Conflict, SameBase, RtxEqual;
    if !ProductsConflict(xsize, x0, ysize, y0, k, c) {
      ProductApart(xsize, x0, ysize, y0, k, c, regs);
    } else if RtxEqual(x0, y0) {
      EqualValue(x0, y0, regs);
    } else {
      RemainderIs(xsize, k);
      RemainderIs(ysize, k);
      RemainderIs(c, k);
      var xs, ys, q := Quotient(xsize, k), Quotient(ysize, k), Quotient(c, k);
      ExactOverBase(xs, x0, ys, y0, q, regs);
      ScaledMeet(k, Value(x0, regs), xs, Value(y0, regs), q, ys);
    }
  }
}
