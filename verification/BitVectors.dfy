/** Fixed-width bit-vector arithmetic on natural numbers below `Pow2(width)`, with the
    SMT-LIB reading of division by zero. */
module BitVectors {

  function Pow2(n: nat): (p: nat)
    ensures p > 0
  {
    if n == 0 then 1 else 2 * Pow2(n - 1)
  }

  /** Two's complement truncation of an integer to `w` bits. */
  function Truncate(w: nat, i: int): (n: nat)
    ensures n < Pow2(w)
  {
    i % Pow2(w)
  }

  function Signed(w: nat, n: nat): int {
    if w > 0 && n >= Pow2(w - 1) then n - Pow2(w) else n
  }

  /** Division rounding toward zero, as C++ and SMT-LIB `bvsdiv` do. */
  function TruncatedDiv(x: int, y: int): int
    requires y != 0
  {
    if x >= 0 then x / y else -((-x) / y)
  }

  function UDiv(w: nat, a: nat, b: nat): nat {
    if b == 0 then Pow2(w) - 1 else Truncate(w, a / b)
  }

  function URem(w: nat, a: nat, b: nat): nat {
    if b == 0 then Truncate(w, a) else Truncate(w, a % b)
  }

  function SDiv(w: nat, a: nat, b: nat): nat {
    var x, y := Signed(w, a), Signed(w, b);
    if y == 0 then Truncate(w, if x < 0 then 1 else -1) else Truncate(w, TruncatedDiv(x, y))
  }

  function SRem(w: nat, a: nat, b: nat): nat {
    var x, y := Signed(w, a), Signed(w, b);
    if y == 0 then Truncate(w, a) else Truncate(w, x - y * TruncatedDiv(x, y))
  }

  function Shl(w: nat, a: nat, s: nat): nat {
    Truncate(w, a * Pow2(s))
  }

  function LShr(w: nat, a: nat, s: nat): nat {
    Truncate(w, a / Pow2(s))
  }

  function AShr(w: nat, a: nat, s: nat): nat {
    Truncate(w, Signed(w, a) / Pow2(s))
  }

  function BitAnd(a: nat, b: nat): nat {
    if a == 0 || b == 0 then 0
    else 2 * BitAnd(a / 2, b / 2) + (if a % 2 == 1 && b % 2 == 1 then 1 else 0)
  }

  function BitOr(a: nat, b: nat): nat {
    if a == 0 then b else if b == 0 then a
    else 2 * BitOr(a / 2, b / 2) + (if a % 2 == 1 || b % 2 == 1 then 1 else 0)
  }

  function BitXor(a: nat, b: nat): nat {
    if a == 0 then b else if b == 0 then a
    else 2 * BitXor(a / 2, b / 2) + (if a % 2 != b % 2 then 1 else 0)
  }

  lemma {:induction false} BitwiseBounds(w: nat, a: nat, b: nat)
    requires a < Pow2(w) && b < Pow2(w)
    ensures BitAnd(a, b) < Pow2(w) && BitOr(a, b) < Pow2(w) && BitXor(a, b) < Pow2(w)
  {
    if w > 0 {
      BitwiseBounds(w - 1, a / 2, b / 2);
    }
  }

  lemma {:induction false} BitwiseCommutes(a: nat, b: nat)
    ensures BitAnd(a, b) == BitAnd(b, a)
    ensures BitOr(a, b) == BitOr(b, a)
    ensures BitXor(a, b) == BitXor(b, a)
  {
    if a != 0 && b != 0 {
      BitwiseCommutes(a / 2, b / 2);
    }
  }

  lemma OddHalves(q: nat)
    requires q > 0
    ensures (2 * q - 1) / 2 == q - 1 && (2 * q - 1) % 2 == 1
  {
  }

  /** The all-ones vector is neutral for `and` and absorbing for `or`. */
  lemma {:induction false} AllOnes(w: nat, a: nat)
    requires a < Pow2(w)
    ensures BitAnd(a, Pow2(w) - 1) == a
    ensures BitOr(a, Pow2(w) - 1) == Pow2(w) - 1
  {
    if w > 0 {
      var q := Pow2(w - 1);
      assert Pow2(w) == 2 * q;
      AllOnes(w - 1, a / 2);
      OddHalves(q);
      hide Pow2;
    }
  }

  lemma SmallRemainder(n: int, p: int)
    requires 0 <= n < p
    ensures n % p == n && (n - p) % p == n
  {
    assert p * (-1) + n == n - p;
  }

  lemma {:induction false} SignedTruncate(w: nat, n: nat)
    requires n < Pow2(w)
    ensures Truncate(w, n) == n && Truncate(w, Signed(w, n)) == n
  {
    SmallRemainder(n, Pow2(w));
  }

  /** Dividing by the literal one, whose signed reading is -1 in width one. */
  lemma {:induction false} DivideByOne(w: nat, a: nat)
    requires a < Pow2(w) && 1 < Pow2(w)
    ensures UDiv(w, a, 1) == a && SDiv(w, a, 1) == a
    ensures URem(w, a, 1) == 0 && SRem(w, a, 1) == 0
  {
    SignedTruncate(w, a);
    SignedTruncate(w, 0);
    if w == 1 {
      assert Pow2(0) == 1 && Pow2(1) == 2;
      assert a == 0 || a == 1;
      assert Signed(1, 1) == -1;
    } else {
      assert Pow2(w - 1) == 2 * Pow2(w - 2);
      assert Signed(w, 1) == 1;
      UnitDivisor(Signed(w, a));
    }
  }

  lemma UnitDivisor(x: int)
    ensures TruncatedDiv(x, 1) == x && x - 1 * TruncatedDiv(x, 1) == 0
  {
  }

  lemma ZeroDividend(y: int)
    requires y != 0
    ensures TruncatedDiv(0, y) == 0 && 0 - y * TruncatedDiv(0, y) == 0 && 0 % y == 0 && 0 / y == 0
  {
  }

  /** Zero shifted, or divided by anything but zero, is zero. */
  lemma {:induction false} ZeroOnTheLeft(w: nat, b: nat)
    requires b < Pow2(w)
    ensures Shl(w, 0, b) == 0 && LShr(w, 0, b) == 0 && AShr(w, 0, b) == 0
    ensures URem(w, 0, b) == 0 && SRem(w, 0, b) == 0
    ensures b != 0 ==> UDiv(w, 0, b) == 0 && SDiv(w, 0, b) == 0
    ensures b == 0 ==> UDiv(w, 0, b) == Pow2(w) - 1 && SDiv(w, 0, b) == Pow2(w) - 1
  {
    assert Signed(w, 0) == 0;
    SignedTruncate(w, 0);
    ZeroDividend(Pow2(b));
    if b != 0 {
      ZeroDividend(b);
      ZeroDividend(Signed(w, b));
    } else {
      SmallRemainder(Pow2(w) - 1, Pow2(w));
    }
  }

  lemma {:induction false} PowSum(m: nat, n: nat)
    ensures Pow2(m + n) == Pow2(m) * Pow2(n)
  {
    if m > 0 {
      PowSum(m - 1, n);
      assert Pow2(m + n) == 2 * Pow2(m - 1 + n);
    }
  }

  lemma {:induction false} ConcatBound(a: nat, b: nat, m: nat, n: nat)
    requires a < Pow2(m) && b < Pow2(n)
    ensures a * Pow2(n) + b < Pow2(m + n)
  {
    PowSum(m, n);
    RowMajor(a, b, Pow2(m), Pow2(n));
  }

  lemma RowMajor(a: nat, b: nat, rows: nat, cols: nat)
    requires a < rows && b < cols
    ensures a * cols + b < rows * cols
  {
    assert (a + 1) * cols <= rows * cols;
  }

  // ---- Division by a positive number ----

  lemma {:induction false} RemainderSum(a: nat, b: nat, m: nat)
    requires m > 0
    ensures (a + b % m) % m == (a + b) % m
  {
    var q := b / m;
    assert b == m * q + b % m;
    RemainderShift(a + b % m, q, m);
  }

  lemma {:induction false} RemainderShift(x: nat, q: nat, m: nat)
    requires m > 0
    ensures (x + m * q) % m == x % m
  {
    if q > 0 {
      RemainderShift(x, q - 1, m);
      assert x + m * q == (x + m * (q - 1)) + m;
      AddOnce(x + m * (q - 1), m);
    }
  }

  lemma AddOnce(y: nat, m: nat)
    requires m > 0
    ensures (y + m) % m == y % m
  {
    var q, r := y / m, y % m;
    assert y + m == m * (q + 1) + r;
    UniqueRemainder(y + m, m, q + 1, r);
  }

  lemma UniqueRemainder(x: int, m: nat, q: int, r: nat)
    requires m > 0 && x == m * q + r && r < m
    ensures x / m == q && x % m == r
  {
    assert x == m * (x / m) + x % m;
    SameQuotient(m, q, r, x / m, x % m);
  }

  lemma SameQuotient(m: nat, q: int, r: int, q': int, r': int)
    requires m > 0 && m * q + r == m * q' + r' && r - r' < m && r' - r < m
    ensures q == q' && r == r'
  {
    if q > q' {
      Multiple(m, q, q');
    } else if q < q' {
      Multiple(m, q', q);
    }
  }

  lemma Multiple(m: nat, q: int, q': int)
    requires q > q'
    ensures m * q - m * q' >= m
  {
    assert m * q - m * q' == m * (q - q');
    Grows(m, q - q');
  }

  lemma {:induction false} Grows(m: nat, d: int)
    requires d >= 1
    ensures m * d >= m
    decreases d
  {
    if d > 1 {
      Grows(m, d - 1);
      assert m * d == m * (d - 1) + m;
    }
  }

  lemma {:induction false} HigherPart(a: nat, k: nat, low: nat, m: nat, b: nat)
    requires m > 0 && b > 0
    ensures (a * (k * b * m) + low) / m % b == low / m % b
  {
    var c := a * k;
    assert a * (k * b * m) == c * b * m;
    var q, r := low / m, low % m;
    assert low == m * q + r;
    UniqueRemainder(c * b * m + low, m, c * b + q, r);
    RemainderShift(q, c, b);
    assert c * b + q == q + b * c;
  }

  lemma {:induction false} SplitRemainder(x: nat, a: nat, b: nat)
    requires a > 0 && b > 0
    ensures x / a % b * a + x % a == x % (a * b) && x / a / b == x / (a * b)
  {
    var q, r := x / a, x % a;
    var q', r' := q / b, q % b;
    assert x == a * q + r && q == b * q' + r';
    assert a * (b * q' + r') == a * b * q' + r' * a;
    RowMajor(r', r, b, a);
    assert b * a == a * b;
    UniqueRemainder(x, a * b, q', r' * a + r);
  }
}
