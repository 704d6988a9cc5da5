/** What the bit-vector operations mean for the single bits of their operands, and for the numbers these
    stand for when read with and without sign. */
module BitLaws {
  import opened BitVectors
  import opened Exprs

  /** Bit `i` of a number. */
  predicate Bit(n: int, i: nat) { n / Pow2(i) % 2 == 1 }

  lemma {:induction false} HalfBit(n: nat, i: nat)
    requires i > 0
    ensures Bit(n, i) <==> Bit(n / 2, i - 1)
  {
    SplitRemainder(n, 2, Pow2(i - 1));
  }

  lemma LowBit(n: nat)
    ensures Bit(n, 0) <==> n % 2 == 1
  {
    assert Pow2(0) == 1;
  }

  lemma {:induction false} ShiftedBit(n: nat, s: nat, i: nat)
    ensures Bit(n / Pow2(s), i) <==> Bit(n, s + i)
  {
    hide Pow2;
    PowSum(s, i);
    SplitRemainder(n, Pow2(s), Pow2(i));
  }

  /** The bits of a number are all there is to it. */
  lemma {:induction false} BitsDecide(w: nat, a: nat, b: nat)
    requires a < Pow2(w) && b < Pow2(w) && forall i | 0 <= i < w :: Bit(a, i) <==> Bit(b, i)
    ensures a == b
  {
    if w > 0 {
      forall i | 0 <= i < w - 1 ensures Bit(a / 2, i) <==> Bit(b / 2, i) {
        HalfBit(a, i + 1);
        HalfBit(b, i + 1);
        assert Bit(a, i + 1) <==> Bit(b, i + 1);
      }
      BitsDecide(w - 1, a / 2, b / 2);
      LowBit(a);
      LowBit(b);
      assert Bit(a, 0) <==> Bit(b, 0);
    }
  }

  /** And, or and exclusive or, bit by bit. */
  lemma {:induction false} BitwiseBits(w: nat, a: nat, b: nat, i: nat)
    ensures Bit(EvalBitwise(BvAnd, w, a, b), i) <==> Bit(a, i) && Bit(b, i)
    ensures Bit(EvalBitwise(BvOr, w, a, b), i) <==> Bit(a, i) || Bit(b, i)
    ensures Bit(EvalBitwise(BvXor, w, a, b), i) <==> (Bit(a, i) != Bit(b, i))
    decreases i
  {
    var x, y, z := BitAnd(a, b), BitOr(a, b), BitXor(a, b);
    Halves(a, b);
    if i == 0 {
      LowBit(a);
      LowBit(b);
      LowBit(x);
      LowBit(y);
      LowBit(z);
    } else {
      BitwiseBits(w, a / 2, b / 2, i - 1);
      HalfBit(a, i);
      HalfBit(b, i);
      HalfBit(x, i);
      HalfBit(y, i);
      HalfBit(z, i);
    }
    hide Bit, BitAnd, BitOr, BitXor;
  }

  lemma Halves(a: nat, b: nat)
    ensures BitAnd(a, b) / 2 == BitAnd(a / 2, b / 2) && (BitAnd(a, b) % 2 == 1 <==> a % 2 == 1 && b % 2 == 1)
    ensures BitOr(a, b) / 2 == BitOr(a / 2, b / 2) && (BitOr(a, b) % 2 == 1 <==> a % 2 == 1 || b % 2 == 1)
    ensures BitXor(a, b) / 2 == BitXor(a / 2, b / 2) && (BitXor(a, b) % 2 == 1 <==> a % 2 != b % 2)
  {
  }

  lemma {:induction false} PowSplit(w: nat, i: nat)
    requires i < w
    ensures Pow2(w) == Pow2(w - i - 1) * 2 * Pow2(i)
  {
    PowSum(w - i - 1, i + 1);
  }

  lemma {:induction false} PowGrows(m: nat, n: nat)
    requires m <= n
    ensures Pow2(m) <= Pow2(n)
    decreases n
  {
    if m < n {
      PowGrows(m, n - 1);
    }
  }

  /** Truncation keeps the low bits. */
  lemma {:induction false} TruncatedBit(w: nat, n: nat, i: nat)
    requires i < w
    ensures Bit(Truncate(w, n), i) <==> Bit(n, i)
  {
    hide Pow2;
    var p, m, k := Pow2(w), Pow2(i), Pow2(w - i - 1);
    var q, low := n / p, n % p;
    PowSplit(w, i);
    assert n == p * q + low;
    assert p * q == q * (k * 2 * m);
    HigherPart(q, k, low, m, 2);
  }

  lemma {:induction false} RaisedBit(n: nat, s: nat, i: nat)
    ensures Bit(n * Pow2(s), i) <==> s <= i && Bit(n, i - s)
  {
    hide Pow2;
    if s <= i {
      ShiftedBit(n * Pow2(s), s, i - s);
      UniqueRemainder(n * Pow2(s), Pow2(s), n, 0);
    } else {
      PowSplit(s, i);
      HigherPart(n, Pow2(s - i - 1), 0, Pow2(i), 2);
      UniqueRemainder(0, Pow2(i), 0, 0);
    }
  }

  /** Shifting moves bits, as far as the width allows, and fills up with zeros. */
  lemma {:induction false} ShiftedBits(w: nat, a: nat, s: nat, i: nat)
    requires a < Pow2(w) && i < w
    ensures Bit(EvalBitwise(Shl, w, a, s), i) <==> s <= i && Bit(a, i - s)
    ensures Bit(EvalBitwise(LShr, w, a, s), i) <==> i + s < w && Bit(a, i + s)
  {
    hide Bit, Pow2;
    TruncatedBit(w, a * Pow2(s), i);
    RaisedBit(a, s, i);
    TruncatedBit(w, a / Pow2(s), i);
    ShiftedBit(a, s, i);
    if i + s >= w {
      NoHighBit(w, a, i + s);
    }
  }

  lemma {:induction false} NoHighBit(w: nat, a: nat, i: nat)
    requires a < Pow2(w) && w <= i
    ensures !Bit(a, i)
  {
    hide Pow2;
    PowGrows(w, i);
    UniqueRemainder(a, Pow2(i), 0, a);
  }

  /** A concatenation has the bits of its right operand, then those of the left one. */
  lemma {:induction false} ConcatBits(m: nat, a: nat, n: nat, b: nat, i: nat)
    requires a < Pow2(m) && b < Pow2(n)
    ensures var r := EvalBinary(BvConcat, BvVal(m, a), BvVal(n, b));
            r.HasType(BvType(m + n)) && (Bit(r.bits, i) <==> if i < n then Bit(b, i) else Bit(a, i - n))
  {
    hide Bit, Pow2;
    ConcatBound(a, b, m, n);
    var x := a * Pow2(n) + b;
    if i < n {
      TruncatedBit(n, x, i);
      UniqueRemainder(x, Pow2(n), a, b);
    } else {
      ShiftedBit(x, n, i - n);
      UniqueRemainder(x, Pow2(n), a, b);
    }
  }

  lemma {:induction false} ExtractBits(a: Value, offset: nat, w: nat, i: nat)
    requires a.BvVal? && i < w
    ensures Bit(EvalExtract(a, offset, w).bits, i) <==> Bit(a.bits, offset + i)
  {
    hide Bit, Pow2;
    TruncatedBit(w, a.bits / Pow2(offset), i);
    ShiftedBit(a.bits, offset, i);
  }

  // ---- Arithmetic that wraps around ----

  lemma {:induction false} WrappedSum(w: nat, x: int, y: int)
    ensures Truncate(w, Truncate(w, x) + y) == Truncate(w, x + y)
  {
    hide Pow2;
    var m := Pow2(w);
    var q, r := x / m, x % m;
    assert x == m * q + r;
    assert r + y == m * ((r + y) / m) + (r + y) % m;
    assert m * (q + (r + y) / m) == m * q + m * ((r + y) / m);
    UniqueRemainder(x + y, m, q + (r + y) / m, (r + y) % m);
  }

  /** Adding what was subtracted gives the number back, and multiplying by one more adds it once more,
      both modulo the width. */
  lemma {:induction false} WrappedArithmetic(w: nat, a: nat, b: nat)
    requires a < Pow2(w) && b < Pow2(w)
    ensures EvalBinary(Arithmetic(Add), EvalBinary(Arithmetic(Sub), BvVal(w, a), BvVal(w, b)), BvVal(w, b)) == BvVal(w, a)
    ensures EvalBinary(Arithmetic(Mul), BvVal(w, a), BvVal(w, b + 1))
            == EvalBinary(Arithmetic(Add), EvalBinary(Arithmetic(Mul), BvVal(w, a), BvVal(w, b)), BvVal(w, a))
    ensures EvalBinary(Arithmetic(Mul), BvVal(w, a), BvVal(w, 0)) == BvVal(w, 0)
    ensures EvalBinary(Arithmetic(Add), BvVal(w, a), BvVal(w, b)) == BvVal(w, if a + b < Pow2(w) then a + b else a + b - Pow2(w))
  {
    hide Pow2;
    var m := Pow2(w);
    WrappedSum(w, a - b, b);
    SmallRemainder(a, m);
    WrappedSum(w, a * b, a);
    assert a * (b + 1) == a * b + a;
    UniqueRemainder(a + b, m, if a + b < m then 0 else 1, if a + b < m then a + b else a + b - m);
    SmallRemainder(0, m);
    assert a * 0 == 0;
    hide Truncate;
  }

  // ---- With and without sign ----

  /** The numbers that fit into `w` bits with sign. */
  predicate Fits(w: nat, x: int)
    requires w > 0
  {
    0 <= x + Pow2(w - 1) < Pow2(w)
  }

  /** Read with sign, a number of width `w` lies around zero and is congruent to itself. */
  lemma {:induction false} SignedRange(w: nat, n: nat)
    requires w > 0 && n < Pow2(w)
    ensures Fits(w, Signed(w, n)) && (Signed(w, n) == n || Signed(w, n) == n - Pow2(w))
    ensures Signed(w, n) == 0 <==> n == 0
  {
  }

  lemma {:induction false} SignedBack(w: nat, x: int)
    requires w > 0 && Fits(w, x)
    ensures Signed(w, Truncate(w, x)) == x
  {
    SmallRemainder(if x < 0 then x + Pow2(w) else x, Pow2(w));
  }

  /** Both extensions keep the number, each under its own reading. */
  lemma {:induction false} ExtendKeeps(a: Value, w: nat)
    requires a.BvVal? && a.bits < Pow2(a.width) && 0 < a.width <= w
    ensures EvalExtend(false, a, w) == BvVal(w, a.bits)
    ensures EvalExtend(true, a, w).HasType(BvType(w)) && Signed(w, EvalExtend(true, a, w).bits) == Signed(a.width, a.bits)
  {
    PowGrows(a.width, w);
    SmallRemainder(a.bits, Pow2(w));
    SignedRange(a.width, a.bits);
    FitsWider(a.width, w, Signed(a.width, a.bits));
    SignedBack(w, Signed(a.width, a.bits));
    hide Signed, Fits, Pow2;
  }

  lemma FitsWider(m: nat, n: nat, x: int)
    requires 0 < m <= n && Fits(m, x)
    ensures Fits(n, x)
  {
    PowGrows(m - 1, n - 1);
    assert Pow2(m) == 2 * Pow2(m - 1) && Pow2(n) == 2 * Pow2(n - 1);
    hide Pow2;
  }

  /** Division without sign: quotient and remainder below the divisor. */
  lemma {:induction false} UnsignedDivision(w: nat, a: nat, b: nat)
    requires a < Pow2(w) && b < Pow2(w)
    ensures var q, r := EvalBitwise(BvUDiv, w, a, b), EvalBitwise(BvURem, w, a, b);
            if b == 0 then q == Pow2(w) - 1 && r == a else a == b * q + r && r < b
  {
    hide Pow2;
    if b != 0 {
      SmallQuotient(a, b);
      SmallRemainder(a / b, Pow2(w));
      SmallRemainder(a % b, Pow2(w));
    } else {
      SmallRemainder(a, Pow2(w));
    }
  }

  lemma SmallQuotient(a: nat, b: nat)
    requires b > 0
    ensures a / b <= a && a == b * (a / b) + a % b && a % b < b
  {
    Euclid(a, b);
  }

  /** Division with sign rounds toward zero: the remainder is smaller than the divisor and has the sign of
      the dividend. Only the least number divided by minus one does not fit, and wraps around to itself. */
  lemma {:induction false} SignedDivision(w: nat, a: nat, b: nat)
    requires w > 0 && a < Pow2(w) && b < Pow2(w)
    ensures var q, r := EvalBitwise(BvSDiv, w, a, b), EvalBitwise(BvSRem, w, a, b);
            var x, y := Signed(w, a), Signed(w, b);
            var m, n := Signed(w, q), Signed(w, r);
            && (b == 0 ==> m == (if x < 0 && w > 1 then 1 else -1) && n == x)
            && (b != 0 ==> (if x + Pow2(w - 1) == 0 && y == -1 then m == x && n == 0 else x == y * m + n))
            && (b != 0 ==> Abs(n) < Abs(y) && (x >= 0 ==> n >= 0) && (x <= 0 ==> n <= 0))
  {
    var x, y := Signed(w, a), Signed(w, b);
    SignedRange(w, a);
    SignedRange(w, b);
    if b == 0 {
      ByZero(w, a);
    } else {
      var d := TruncatedDiv(x, y);
      Rounding(x, y);
      Quotient(w, x, y);
      SignedBack(w, x - y * d);
      if !Fits(w, d) {
        assert d == Pow2(w - 1) && x - y * d == 0;
        WrapsAround(w);
      } else {
        SignedBack(w, d);
      }
    }
    hide Signed, Pow2, TruncatedDiv, Truncate, Fits;
  }

  lemma ByZero(w: nat, a: nat)
    requires w > 0 && a < Pow2(w)
    ensures Signed(w, SDiv(w, a, 0)) == (if Signed(w, a) < 0 && w > 1 then 1 else -1) && Signed(w, SRem(w, a, 0)) == Signed(w, a)
  {
    assert Pow2(w) == 2 * Pow2(w - 1) && (w > 1 ==> Pow2(w - 1) == 2 * Pow2(w - 2)) && Pow2(0) == 1;
    SmallRemainder(a, Pow2(w));
    SmallRemainder(1, Pow2(w));
    SmallRemainder(Pow2(w) - 1, Pow2(w));
    hide Pow2;
  }

  lemma WrapsAround(w: nat)
    requires w > 0
    ensures Signed(w, Truncate(w, Pow2(w - 1))) == Pow2(w - 1) - Pow2(w)
  {
    SmallRemainder(Pow2(w - 1), Pow2(w));
  }

  function Abs(x: int): int { if x < 0 then -x else x }

  lemma Rounding(x: int, y: int)
    requires y != 0
    ensures var r := x - y * TruncatedDiv(x, y); Abs(r) < Abs(y) && (x >= 0 ==> r >= 0) && (x <= 0 ==> r <= 0)
    ensures Abs(TruncatedDiv(x, y)) <= Abs(x)
  {
    var z := Abs(x);
    Euclid(z, y);
    assert y * -(z / y) == -(y * (z / y));
  }

  lemma Euclid(z: nat, y: int)
    requires y != 0
    ensures 0 <= z - y * (z / y) == z % y < Abs(y) && Abs(z / y) <= z
  {
    var q := z / y;
    assert z == y * q + z % y;
    if q != 0 {
      Grows(Abs(y), Abs(q));
      Grows(Abs(q), Abs(y));
      assert y * q == if (y > 0) == (q > 0) then Abs(y) * Abs(q) else -(Abs(y) * Abs(q));
    }
  }

  /** The quotient of numbers of one width fits, but for one pair. */
  lemma {:induction false} Quotient(w: nat, x: int, y: int)
    requires w > 0 && y != 0 && Fits(w, x) && Fits(w, y)
    ensures Fits(w, x - y * TruncatedDiv(x, y))
    ensures var d := TruncatedDiv(x, y);
            if x + Pow2(w - 1) == 0 && y == -1 then d == Pow2(w - 1) else Fits(w, d)
  {
    Rounding(x, y);
    assert Pow2(w) == 2 * Pow2(w - 1);
    hide Pow2;
    if y == -1 {
      assert TruncatedDiv(x, y) == -x;
    } else if x + Pow2(w - 1) == 0 {
      SmallerQuotient(x, y);
    }
    hide TruncatedDiv;
  }

  lemma SmallerQuotient(x: int, y: int)
    requires x < 0 && y != 0 && y != -1
    ensures TruncatedDiv(x, y) < -x
  {
  }

  /** Shifting right with sign divides the number read with sign, rounding down. */
  lemma {:induction false} SignedShift(w: nat, a: nat, s: nat)
    requires w > 0 && a < Pow2(w)
    ensures Signed(w, EvalBitwise(AShr, w, a, s)) == Signed(w, a) / Pow2(s)
  {
    SignedRange(w, a);
    Shrinks(w, Signed(w, a), Pow2(s));
    SignedBack(w, Signed(w, a) / Pow2(s));
    hide Signed, Truncate, Pow2;
  }

  lemma Shrinks(w: nat, x: int, m: nat)
    requires w > 0 && m > 0 && Fits(w, x)
    ensures Fits(w, x / m)
  {
    assert Pow2(w) == 2 * Pow2(w - 1);
    hide Pow2;
    if x >= 0 {
      SmallQuotient(x, m);
    } else {
      NegativeQuotient(x, m);
    }
  }

  lemma NegativeQuotient(x: int, m: nat)
    requires x < 0 < m
    ensures x <= x / m < 0
  {
    var q, r := x / m, x % m;
    assert x == m * q + r;
    assert m * q == -(m * -q);
    if q < x {
      Multiple(m, -q, -x);
      Grows(-x, m);
    }
  }
}
