/** The address disambiguators of alias.c, for addresses made of registers, integers and sums. */
module Disambiguation {
  import opened Helpers

  /** Canonicalized address expressions. */
  datatype Rtx =
    | Reg(mode: nat, regno: nat)
    | ConstInt(value: int)
    | Plus(mode: nat, x0: Rtx, x1: Rtx)

  /** The value of an address under a valuation of the registers. */
  ghost function Value(x: Rtx, regs: nat -> int): int {
    match x
    case Reg(_, regno) => regs(regno)
    case ConstInt(value) => value
    case Plus(_, x0, x1) => Value(x0, regs) + Value(x1, regs)
  }

  function Size(x: Rtx): nat {
    match x
    case Plus(_, x0, x1) => 1 + Size(x0) + Size(x1)
    case _ => 1
  }

  /** rtx_equal_for_memref_p. Equal integers are the same object, so x == y settles them. */
  predicate RtxEqual(x: Rtx, y: Rtx) {
    if x == y then true
    else match (x, y)
      case (Reg(m, r), Reg(n, s)) => m == n && r == s
      case (Plus(m, x0, x1), Plus(n, y0, y1)) =>
        && m == n
        && ((RtxEqual(x0, y0) && RtxEqual(x1, y1)) || (RtxEqual(x0, y1) && RtxEqual(x1, y0)))
      case _ => false
  }

  lemma {:induction false} EqualValue(x: Rtx, y: Rtx, regs: nat -> int)
    requires RtxEqual(x, y)
    ensures Value(x, regs) == Value(y, regs)
  {
    if x != y && x.Plus? {
      if RtxEqual(x.x0, y.x0) && RtxEqual(x.x1, y.x1) {
        EqualValue(x.x0, y.x0, regs);
        EqualValue(x.x1, y.x1, regs);
      } else {
        EqualValue(x.x0, y.x1, regs);
        EqualValue(x.x1, y.x0, regs);
      }
    }
  }

  /** In which sums the operands are exchanged. */
  datatype Order = Same | Kept(first: Order, second: Order) | Exchanged(first: Order, second: Order)

  function Reordered(x: Rtx, f: Order): Rtx
    decreases f
  {
    match f
    case Same => x
    case Kept(f0, f1) => if x.Plus? then Plus(x.mode, Reordered(x.x0, f0), Reordered(x.x1, f1)) else x
    case Exchanged(f0, f1) => if x.Plus? then Plus(x.mode, Reordered(x.x1, f1), Reordered(x.x0, f0)) else x
  }

  lemma {:induction false} OrderOf(x: Rtx, y: Rtx) returns (f: Order)
    requires RtxEqual(x, y)
    ensures Reordered(x, f) == y
  {
    f := Same;
    if x != y && x.Plus? {
      if RtxEqual(x.x0, y.x0) && RtxEqual(x.x1, y.x1) {
        var f0 := OrderOf(x.x0, y.x0);
        var f1 := OrderOf(x.x1, y.x1);
        f := Kept(f0, f1);
      } else {
        var f0 := OrderOf(x.x0, y.x1);
        var f1 := OrderOf(x.x1, y.x0);
        f := Exchanged(f0, f1);
      }
    }
  }

  lemma {:induction false} ReorderedEqual(x: Rtx, f: Order)
    ensures RtxEqual(x, Reordered(x, f))
    decreases f
  {
    if f != Same && x.Plus? {
      ReorderedEqual(x.x0, f.first);
      ReorderedEqual(x.x1, f.second);
    }
  }

  /** Two addresses are equal just if one becomes the other when operands of sums are exchanged. */
  lemma EqualIsReordered(x: Rtx, y: Rtx)
    ensures RtxEqual(x, y) <==> exists f :: Reordered(x, f) == y
  {
    if RtxEqual(x, y) { var f := OrderOf(x, y); }
    if f :| Reordered(x, f) == y { ReorderedEqual(x, f); }
  }

  lemma {:induction false} EqualSymmetric(x: Rtx, y: Rtx)
    ensures RtxEqual(x, y) == RtxEqual(y, x)
  {
    if x.Plus? && y.Plus? {
      EqualSymmetric(x.x0, y.x0);
      EqualSymmetric(x.x1, y.x1);
      EqualSymmetric(x.x0, y.x1);
      EqualSymmetric(x.x1, y.x0);
    }
  }

  /** The test at a common base: can x and x + c be in the same xsize and ysize bytes? */
  predicate MayMeet(xsize: int, ysize: int, c: int) {
    xsize <= 0 || ysize <= 0 || (c >= 0 && xsize > c) || (c < 0 && ysize + c > 0)
  }

  /** memrefs_conflict_p. */
  predicate Conflict(xsize: int, x: Rtx, ysize: int, y: Rtx, c: int)
    decreases Size(x) + Size(y)
  {
    if RtxEqual(x, y) then MayMeet(xsize, ysize, c)
    else if x.Plus? then
      if y.Plus? then
        if RtxEqual(x.x1, y.x1) then Conflict(xsize, x.x0, ysize, y.x0, c)
        else if RtxEqual(x.x0, y.x0) then Conflict(xsize, x.x1, ysize, y.x1, c)
        else if x.x1.ConstInt? then
          if y.x1.ConstInt? then Conflict(xsize, x.x0, ysize, y.x0, c - x.x1.value + y.x1.value)
          else Conflict(xsize, x.x0, ysize, y, c - x.x1.value)
        else if y.x1.ConstInt? then Conflict(xsize, x, ysize, y.x0, c + y.x1.value)
        else true
      else if x.x1.ConstInt? then Conflict(xsize, x.x0, ysize, y, c - x.x1.value)
      else true
    else if y.Plus? then
      if y.x1.ConstInt? then Conflict(xsize, x, ysize, y.x0, c + y.x1.value) else true
    else if x.ConstInt? && y.ConstInt? then MayMeet(xsize, ysize, c + (y.value - x.value))
    else true
  }

  /** Byte ranges [a, a + m) and [b, b + n) have no byte in common. */
  predicate Apart(a: int, m: int, b: int, n: int) {
    a + m <= b || b + n <= a
  }

  /** A negative answer is right whatever the registers hold. */
  lemma {:induction false} NoConflictIsSound(xsize: int, x: Rtx, ysize: int, y: Rtx, c: int, regs: nat -> int)
    requires xsize > 0 && ysize > 0 && !Conflict(xsize, x, ysize, y, c)
    ensures Apart(Value(x, regs), xsize, Value(y, regs) + c, ysize)
    decreases Size(x) + Size(y)
  {
    if RtxEqual(x, y) {
      EqualValue(x, y, regs);
    } else if x.Plus? && y.Plus? {
      if RtxEqual(x.x1, y.x1) {
        EqualValue(x.x1, y.x1, regs);
        NoConflictIsSound(xsize, x.x0, ysize, y.x0, c, regs);
      } else if RtxEqual(x.x0, y.x0) {
        EqualValue(x.x0, y.x0, regs);
        NoConflictIsSound(xsize, x.x1, ysize, y.x1, c, regs);
      } else if x.x1.ConstInt? && y.x1.ConstInt? {
        NoConflictIsSound(xsize, x.x0, ysize, y.x0, c - x.x1.value + y.x1.value, regs);
      } else if x.x1.ConstInt? {
        NoConflictIsSound(xsize, x.x0, ysize, y, c - x.x1.value, regs);
      } else {
        NoConflictIsSound(xsize, x, ysize, y.x0, c + y.x1.value, regs);
      }
    } else if x.Plus? {
      NoConflictIsSound(xsize, x.x0, ysize, y, c - x.x1.value, regs);
    } else if y.Plus? {
      NoConflictIsSound(xsize, x, ysize, y.x0, c + y.x1.value, regs);
    }
  }

  /** A reference of unknown (zero) or indefinite (negative) size conflicts with everything. */
  lemma {:induction false} UnknownSizeConflicts(xsize: int, x: Rtx, ysize: int, y: Rtx, c: int)
    requires xsize <= 0 || ysize <= 0
    ensures Conflict(xsize, x, ysize, y, c)
    decreases Size(x) + Size(y)
  {
    if RtxEqual(x, y) {
    } else if x.Plus? && y.Plus? {
      if RtxEqual(x.x1, y.x1) {
        UnknownSizeConflicts(xsize, x.x0, ysize, y.x0, c);
      } else if RtxEqual(x.x0, y.x0) {
        UnknownSizeConflicts(xsize, x.x1, ysize, y.x1, c);
      } else if x.x1.ConstInt? && y.x1.ConstInt? {
        UnknownSizeConflicts(xsize, x.x0, ysize, y.x0, c - x.x1.value + y.x1.value);
      } else if x.x1.ConstInt? {
        UnknownSizeConflicts(xsize, x.x0, ysize, y, c - x.x1.value);
      } else if y.x1.ConstInt? {
        UnknownSizeConflicts(xsize, x, ysize, y.x0, c + y.x1.value);
      }
    } else if x.Plus? && x.x1.ConstInt? {
      UnknownSizeConflicts(xsize, x.x0, ysize, y, c - x.x1.value);
    } else if y.Plus? && y.x1.ConstInt? {
      UnknownSizeConflicts(xsize, x, ysize, y.x0, c + y.x1.value);
    }
  }

  /** The answer does not depend on which reference comes first. */
  lemma {:induction false} ConflictSymmetric(xsize: int, x: Rtx, ysize: int, y: Rtx, c: int)
    ensures Conflict(xsize, x, ysize, y, c) == Conflict(ysize, y, xsize, x, -c)
    decreases Size(x) + Size(y)
  {
    EqualSymmetric(x, y);
    if RtxEqual(x, y) {
    } else if x.Plus? && y.Plus? {
      EqualSymmetric(x.x1, y.x1);
      EqualSymmetric(x.x0, y.x0);
      if RtxEqual(x.x1, y.x1) {
        ConflictSymmetric(xsize, x.x0, ysize, y.x0, c);
      } else if RtxEqual(x.x0, y.x0) {
        ConflictSymmetric(xsize, x.x1, ysize, y.x1, c);
      } else if x.x1.ConstInt? && y.x1.ConstInt? {
        ConflictSymmetric(xsize, x.x0, ysize, y.x0, c - x.x1.value + y.x1.value);
        assert -(c - x.x1.value + y.x1.value) == -c - y.x1.value + x.x1.value;
      } else if x.x1.ConstInt? {
        ConflictSymmetric(xsize, x.x0, ysize, y, c - x.x1.value);
        assert -(c - x.x1.value) == -c + x.x1.value;
      } else if y.x1.ConstInt? {
        ConflictSymmetric(xsize, x, ysize, y.x0, c + y.x1.value);
        assert -(c + y.x1.value) == -c - y.x1.value;
      }
    } else if x.Plus? && x.x1.ConstInt? {
      ConflictSymmetric(xsize, x.x0, ysize, y, c - x.x1.value);
      assert -(c - x.x1.value) == -c + x.x1.value;
    } else if y.Plus? && y.x1.ConstInt? {
      ConflictSymmetric(xsize, x, ysize, y.x0, c + y.x1.value);
      assert -(c + y.x1.value) == -c - y.x1.value;
    }
  }

  // ---- when the answer is exact ----------------------------------------------------------------

  /** x without the constants added to it one after the other. */
  function Base(x: Rtx): Rtx {
    if x.Plus? && x.x1.ConstInt? then Base(x.x0) else x
  }

  /** The number of registers in an address. */
  function Regs(x: Rtx): nat {
    match x
    case Reg(_, _) => 1
    case ConstInt(_) => 0
    case Plus(_, x0, x1) => Regs(x0) + Regs(x1)
  }

  lemma {:induction false} BaseSmaller(x: Rtx)
    ensures Size(Base(x)) <= Size(x) && Regs(Base(x)) == Regs(x)
    ensures !(Base(x).Plus? && Base(x).x1.ConstInt?) && (Base(x) != x ==> x.Plus? && x.x1.ConstInt?)
  {
    if x.Plus? && x.x1.ConstInt? { BaseSmaller(x.x0); }
  }

  lemma {:induction false} EqualRegs(x: Rtx, y: Rtx)
    requires RtxEqual(x, y)
    ensures Regs(x) == Regs(y) && Size(x) == Size(y)
  {
    if x != y && x.Plus? {
      if RtxEqual(x.x0, y.x0) && RtxEqual(x.x1, y.x1) {
        EqualRegs(x.x0, y.x0);
        EqualRegs(x.x1, y.x1);
      } else {
        EqualRegs(x.x0, y.x1);
        EqualRegs(x.x1, y.x0);
      }
    }
  }

  /** The bases are the same, be it in another order, or both addresses are integers. */
  predicate SameBase(x: Rtx, y: Rtx) {
    RtxEqual(Base(x), Base(y)) || (Base(x).ConstInt? && Base(y).ConstInt?)
  }

  lemma BothInts(x: Rtx, y: Rtx)
    requires SameBase(x, y) && x.Plus? && y.Plus? && RtxEqual(x.x0, y.x0) && !RtxEqual(x, y)
    ensures x.x1.ConstInt? && y.x1.ConstInt?
  {
    hide RtxEqual;
    EqualRegs(x.x0, y.x0);
    BaseSmaller(x.x0);
    BaseSmaller(y.x0);
    if RtxEqual(Base(x), Base(y)) { EqualRegs(Base(x), Base(y)); }
  }

  /** For a common base with constant offsets the answer is exact, be it a register or a sum; and for integers. */
  lemma {:induction false} ExactOverBase(xsize: int, x: Rtx, ysize: int, y: Rtx, c: int, regs: nat -> int)
    requires xsize > 0 && ysize > 0 && SameBase(x, y)
    ensures Conflict(xsize, x, ysize, y, c) <==> !Apart(Value(x, regs), xsize, Value(y, regs) + c, ysize)
    decreases Size(x) + Size(y)
  {
    hide RtxEqual;
    BaseSmaller(x);
    BaseSmaller(y);
    if RtxEqual(x, y) {
      EqualValue(x, y, regs);
    } else if x.Plus? && y.Plus? {
      if RtxEqual(x.x1, y.x1) {
        EqualValue(x.x1, y.x1, regs);
        EqualRegs(x.x1, y.x1);
        ExactOverBase(xsize, x.x0, ysize, y.x0, c, regs);
      } else if RtxEqual(x.x0, y.x0) {
        EqualValue(x.x0, y.x0, regs);
        BothInts(x, y);
      } else if x.x1.ConstInt? && y.x1.ConstInt? {
        ExactOverBase(xsize, x.x0, ysize, y.x0, c - x.x1.value + y.x1.value, regs);
      } else if x.x1.ConstInt? {
        ExactOverBase(xsize, x.x0, ysize, y, c - x.x1.value, regs);
      } else {
        ExactOverBase(xsize, x, ysize, y.x0, c + y.x1.value, regs);
      }
    } else if x.Plus? {
      if RtxEqual(Base(x), Base(y)) { EqualRegs(Base(x), Base(y)); }
      ExactOverBase(xsize, x.x0, ysize, y, c - x.x1.value, regs);
    } else if y.Plus? {
      if RtxEqual(Base(x), Base(y)) { EqualRegs(Base(x), Base(y)); }
      ExactOverBase(xsize, x, ysize, y.x0, c + y.x1.value, regs);
    }
  }

  /** What canon_rtx makes: an integer is the second operand of a sum, and integers are not added to integers. */
  predicate Canonical(x: Rtx) {
    x.Plus? ==> Canonical(x.x0) && Canonical(x.x1) && Regs(x.x0) > 0 && (x.x1.ConstInt? || Regs(x.x1) > 0)
  }

  /** How x can be matched with y. */
  datatype Matching =
    | Equal
    | Integers
    | LeftInt(m: Matching)
    | RightInt(m: Matching)
    | First(m: Matching)
    | Second(m: Matching)

  /** x and y are the same, in any order, except for integers; at most one operand of two sums is not the same. */
  predicate Matches(x: Rtx, y: Rtx, m: Matching)
    decreases m
  {
    match m
    case Equal => RtxEqual(x, y)
    case Integers => x.ConstInt? && y.ConstInt?
    case LeftInt(n) => x.Plus? && x.x1.ConstInt? && Matches(x.x0, y, n)
    case RightInt(n) => y.Plus? && y.x1.ConstInt? && Matches(x, y.x0, n)
    case First(n) => x.Plus? && y.Plus? && RtxEqual(x.x1, y.x1) && Matches(x.x0, y.x0, n)
    case Second(n) => x.Plus? && y.Plus? && RtxEqual(x.x0, y.x0) && Matches(x.x1, y.x1, n)
  }

  ghost predicate Alike(x: Rtx, y: Rtx) {
    exists m :: Matches(x, y, m)
  }

  lemma {:induction false} MatchRegs(x: Rtx, y: Rtx, m: Matching)
    requires Matches(x, y, m)
    ensures Regs(x) == Regs(y)
    decreases m
  {
    match m
    case Equal => EqualRegs(x, y);
    case Integers =>
    case LeftInt(n) => MatchRegs(x.x0, y, n);
    case RightInt(n) => MatchRegs(x, y.x0, n);
    case First(n) => MatchRegs(x.x0, y.x0, n); EqualRegs(x.x1, y.x1);
    case Second(n) => MatchRegs(x.x1, y.x1, n); EqualRegs(x.x0, y.x0);
  }

  /** An integer added to x does not matter. */
  lemma {:induction false} WithoutLeft(x: Rtx, y: Rtx, m: Matching) returns (n: Matching)
    requires x.Plus? && x.x1.ConstInt? && Canonical(x) && Canonical(y) && Matches(x, y, m)
    ensures Matches(x.x0, y, n)
    decreases m
  {
    MatchRegs(x, y, m);
    match m
    case Equal =>
      if x == y || (RtxEqual(x.x0, y.x0) && RtxEqual(x.x1, y.x1)) {
        n := RightInt(Equal);
      } else {
        EqualRegs(x.x1, y.x0);
        n := Equal;
      }
    case Integers => n := m;
    case LeftInt(l) => n := l;
    case RightInt(l) =>
      n := WithoutLeft(x, y.x0, l);
      n := RightInt(n);
    case First(l) => n := RightInt(l);
    case Second(l) =>
      MatchRegs(x.x1, y.x1, l);
      n := RightInt(Equal);
  }

  lemma {:induction false} Reversed(x: Rtx, y: Rtx, m: Matching) returns (n: Matching)
    requires Matches(x, y, m)
    ensures Matches(y, x, n)
    decreases m
  {
    match m
    case Equal => EqualSymmetric(x, y); n := Equal;
    case Integers => n := Integers;
    case LeftInt(l) => n := Reversed(x.x0, y, l); n := RightInt(n);
    case RightInt(l) => n := Reversed(x, y.x0, l); n := LeftInt(n);
    case First(l) => EqualSymmetric(x.x1, y.x1); n := Reversed(x.x0, y.x0, l); n := First(n);
    case Second(l) => EqualSymmetric(x.x0, y.x0); n := Reversed(x.x1, y.x1, l); n := Second(n);
  }

  /** The same on either side, and on both. */
  lemma IntsDoNotMatter(x: Rtx, y: Rtx)
    requires Canonical(x) && Canonical(y)
    ensures x.Plus? && x.x1.ConstInt? ==> (Alike(x, y) <==> Alike(x.x0, y))
    ensures y.Plus? && y.x1.ConstInt? ==> (Alike(x, y) <==> Alike(x, y.x0))
  {
    if m :| Matches(x, y, m) {
      if x.Plus? && x.x1.ConstInt? { var n := WithoutLeft(x, y, m); }
      if y.Plus? && y.x1.ConstInt? {
        var r := Reversed(x, y, m);
        var n := WithoutLeft(y, x, r);
        var back := Reversed(y.x0, x, n);
      }
    }
    if x.Plus? && x.x1.ConstInt? && Alike(x.x0, y) {
      var m :| Matches(x.x0, y, m);
      assert Matches(x, y, LeftInt(m));
    }
    if y.Plus? && y.x1.ConstInt? && Alike(x, y.x0) {
      var m :| Matches(x, y.x0, m);
      assert Matches(x, y, RightInt(m));
    }
  }

  lemma SureToBeAlike(x: Rtx, y: Rtx)
    requires RtxEqual(x, y) || (x.ConstInt? && y.ConstInt?)
    ensures Alike(x, y)
  {
    assert Matches(x, y, if RtxEqual(x, y) then Equal else Integers);
  }

  lemma SumsAlike(x: Rtx, y: Rtx)
    requires x.Plus? && y.Plus? && !x.x1.ConstInt? && !y.x1.ConstInt? && !RtxEqual(x, y)
    ensures Alike(x, y) <==> (RtxEqual(x.x1, y.x1) && Alike(x.x0, y.x0)) || (RtxEqual(x.x0, y.x0) && Alike(x.x1, y.x1))
  {
    hide RtxEqual;
    if m :| Matches(x, y, m) {
      assert m.First? || m.Second?;
      assert Matches(if m.First? then x.x0 else x.x1, if m.First? then y.x0 else y.x1, m.m);
    }
    if m :| RtxEqual(x.x1, y.x1) && Matches(x.x0, y.x0, m) { assert Matches(x, y, First(m)); }
    if m :| RtxEqual(x.x0, y.x0) && Matches(x.x1, y.x1, m) { assert Matches(x, y, Second(m)); }
  }

  /** If one operand is the same, it depends on the other. */
  lemma SecondTheSame(x: Rtx, y: Rtx)
    requires x.Plus? && y.Plus? && Canonical(x) && Canonical(y) && !RtxEqual(x, y) && RtxEqual(x.x1, y.x1)
    ensures Alike(x, y) <==> Alike(x.x0, y.x0)
  {
    hide Alike;
    EqualRegs(x.x1, y.x1);
    if x.x1.ConstInt? {
      assert y.x1.ConstInt?;
      IntsDoNotMatter(x, y);
      IntsDoNotMatter(x.x0, y);
    } else {
      SumsAlike(x, y);
      if RtxEqual(x.x0, y.x0) { SureToBeAlike(x.x0, y.x0); }
    }
  }

  lemma FirstTheSame(x: Rtx, y: Rtx)
    requires x.Plus? && y.Plus? && Canonical(x) && Canonical(y) && RtxEqual(x.x0, y.x0) && !RtxEqual(x.x1, y.x1)
    requires !RtxEqual(x, y)
    ensures Alike(x, y) <==> Alike(x.x1, y.x1)
  {
    if m :| Matches(x.x1, y.x1, m) { assert Matches(x, y, Second(m)); }
    if m :| Matches(x, y, m) {
      MatchRegs(x, y, m);
      EqualRegs(x.x0, y.x0);
      if m.Second? {
        assert Matches(x.x1, y.x1, m.m);
      } else {
        assert Matches(x.x1, y.x1, Integers);
      }
    }
  }

  lemma NothingTheSame(x: Rtx, y: Rtx)
    requires !RtxEqual(x, y) && !(x.ConstInt? && y.ConstInt?)
    requires !(x.Plus? && x.x1.ConstInt?) && !(y.Plus? && y.x1.ConstInt?)
    requires x.Plus? && y.Plus? ==> !RtxEqual(x.x0, y.x0) && !RtxEqual(x.x1, y.x1)
    ensures !Alike(x, y)
  {
  }

  /** The answer for canonical addresses: no conflict just if they are alike, and then so far apart that the bytes
      cannot meet, which does not depend on the registers. */
  lemma {:induction false} ConflictDecides(xsize: int, x: Rtx, ysize: int, y: Rtx, c: int, regs: nat -> int)
    requires xsize > 0 && ysize > 0 && Canonical(x) && Canonical(y)
    ensures !Conflict(xsize, x, ysize, y, c) <==>
      Alike(x, y) && Apart(Value(x, regs), xsize, Value(y, regs) + c, ysize)
    decreases Size(x) + Size(y)
  {
    hide Alike, RtxEqual;
    if RtxEqual(x, y) {
      EqualValue(x, y, regs);
      SureToBeAlike(x, y);
    } else if x.Plus? && y.Plus? && RtxEqual(x.x1, y.x1) {
      EqualValue(x.x1, y.x1, regs);
      SecondTheSame(x, y);
      ConflictDecides(xsize, x.x0, ysize, y.x0, c, regs);
    } else if x.Plus? && y.Plus? && RtxEqual(x.x0, y.x0) {
      EqualValue(x.x0, y.x0, regs);
      FirstTheSame(x, y);
      ConflictDecides(xsize, x.x1, ysize, y.x1, c, regs);
    } else if x.Plus? && x.x1.ConstInt? {
      IntsDoNotMatter(x, y);
      if y.Plus? && y.x1.ConstInt? {
        IntsDoNotMatter(x.x0, y);
        ConflictDecides(xsize, x.x0, ysize, y.x0, c - x.x1.value + y.x1.value, regs);
      } else {
        ConflictDecides(xsize, x.x0, ysize, y, c - x.x1.value, regs);
      }
    } else if y.Plus? && y.x1.ConstInt? {
      IntsDoNotMatter(x, y);
      ConflictDecides(xsize, x, ysize, y.x0, c + y.x1.value, regs);
    } else if x.ConstInt? && y.ConstInt? {
      SureToBeAlike(x, y);
    } else {
      NothingTheSame(x, y);
    }
  }

  // ---- the interval test of nonoverlapping_memrefs_p -------------------------------------------

  /** What is known of one memref when both are based on the same object: the offset and size of its
      decl, and its own MEM_OFFSET and MEM_SIZE. */
  datatype Ref = Ref(declOffset: int, declSize: Option<int>, memOffset: Option<int>, memSize: Option<int>)

  function StartOf(r: Ref): int {
    if r.memOffset.Some? then r.declOffset + r.memOffset.value else r.declOffset
  }

  /** The size that the test works with; negative if unknown. */
  function SizeOf(r: Ref): int {
    if r.memSize.Some? && r.memOffset.Some? then r.memSize.value
    else (if r.declSize.Some? then r.declSize.value else -1) - (if r.memOffset.Some? then r.memOffset.value else 0)
  }

  /** The tail of nonoverlapping_memrefs_p. */
  predicate NonOverlapping(x: Ref, y: Ref) {
    var offsetx, offsety, sizex, sizey := StartOf(x), StartOf(y), SizeOf(x), SizeOf(y);
    if offsetx > offsety then sizey >= 0 && offsetx >= offsety + sizey
    else sizex >= 0 && offsety >= offsetx + sizex
  }

  /** Byte p may belong to r: the reference itself if its offset and size are known, and otherwise
      anything from its start to the end of its decl, which may be unknown. */
  predicate MayTouch(r: Ref, p: int) {
    && r.declOffset + (if r.memOffset.Some? then r.memOffset.value else 0) <= p
    && (if r.memSize.Some? && r.memOffset.Some? then p < r.declOffset + r.memOffset.value + r.memSize.value
        else r.declSize.Some? ==> p < r.declOffset + r.declSize.value)
  }

  /** A reference before the start of a decl whose size is not known. */
  predicate Misleading(r: Ref) {
    r.declSize.None? && r.memSize.None? && r.memOffset.Some? && r.memOffset.value < 0
  }

  function Lower(x: Ref, y: Ref): Ref {
    if StartOf(x) > StartOf(y) then y else x
  }

  function Upper(x: Ref, y: Ref): Ref {
    if StartOf(x) > StartOf(y) then x else y
  }

  ghost predicate MayMeetAt(x: Ref, y: Ref) {
    exists p :: MayTouch(x, p) && MayTouch(y, p)
  }

  /** When a positive answer is wrong: just when the lower reference is misleading, and the upper one is not empty. */
  lemma NonOverlappingIsSound(x: Ref, y: Ref)
    requires NonOverlapping(x, y)
    ensures MayMeetAt(x, y) <==> Misleading(Lower(x, y)) && exists p :: MayTouch(Upper(x, y), p)
  {
    if Misleading(Lower(x, y)) && exists p :: MayTouch(Upper(x, y), p) {
      var p :| MayTouch(Upper(x, y), p);
      assert MayTouch(Lower(x, y), p);
    }
  }

  /** A misleading reference defeats the test: -1 minus a negative offset looks like a known size. */
  lemma MisleadingReference()
    ensures
      var x, y := Ref(0, None, Some(-5), None), Ref(0, Some(8), Some(0), Some(4));
      Misleading(x) && NonOverlapping(x, y) && MayTouch(x, 0) && MayTouch(y, 0)
  {
  }

  /** Between references that are not empty the test is exact but in that case: it separates just those without a
      common byte, whether the end of the upper one is known or not. */
  lemma NonOverlappingIsExact(x: Ref, y: Ref)
    requires (exists p :: MayTouch(x, p)) && (exists p :: MayTouch(y, p)) && !Misleading(Lower(x, y))
    ensures NonOverlapping(x, y) <==> !MayMeetAt(x, y)
  {
    var later := if StartOf(x) > StartOf(y) then StartOf(x) else StartOf(y);
    if !NonOverlapping(x, y) {
      assert MayTouch(x, later) && MayTouch(y, later);
    }
  }
}
