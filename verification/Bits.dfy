/** Options, powers of two, and the bitwise operators that the sources apply to
    unbounded or wrapping unsigned integers. */
module Bits {

  datatype Option<+T> = None | Some(value: T)

  const U8: nat := 0x100
  const U32: nat := 0x1_0000_0000
  const U64: nat := 0x1_0000_0000_0000_0000

  /** `x` modulo `m`, by repeated addition or subtraction. */
  function Wrap(x: int, m: nat): (r: nat)
    requires m > 0
    ensures r < m
    decreases x < 0, if x < 0 then -x else x
  {
    if x < 0 then Wrap(x + m, m) else if x >= m then Wrap(x - m, m) else x
  }

  /** Truncation to 8, 32 and 64 bits, also of negative intermediate results. */
  function Wrap8(x: int): nat { Wrap(x, U8) }
  function Wrap32(x: int): nat { Wrap(x, U32) }
  function Wrap64(x: int): nat { Wrap(x, U64) }

  lemma OneWrap(x: int, m: nat)
    requires m > 0
    ensures 0 <= x < m ==> Wrap(x, m) == x
    ensures 0 <= x + m < m ==> Wrap(x, m) == x + m
    ensures 0 <= x - m < m ==> Wrap(x, m) == x - m
  {
  }

  lemma {:induction false} WrapIsMod(x: int, m: nat)
    requires m > 0
    ensures Wrap(x, m) == x % m
    decreases x < 0, if x < 0 then -x else x
  {
    if x < 0 {
      WrapIsMod(x + m, m);
      ModPlus(x, m);
    } else if x >= m {
      WrapIsMod(x - m, m);
      ModPlus(x - m, m);
    } else {
      DivModUnique(x, m, 0, x);
    }
  }

  lemma ModPlus(x: int, m: nat)
    requires m > 0
    ensures (x + m) % m == x % m
  {
    var q, r := x / m, x % m;
    assert x == q * m + r && (q + 1) * m == q * m + m;
    DivModUnique(x + m, m, q + 1, r);
  }

  type byte = x: int | 0 <= x < 256

  function Min(a: int, b: int): int {
    if a <= b then a else b
  }

  function Pow2(k: nat): (r: nat)
    ensures r >= 1
  {
    if k == 0 then 1 else 2 * Pow2(k - 1)
  }

  predicate IsPow2(a: nat) {
    a == 1 || (a > 1 && a % 2 == 0 && IsPow2(a / 2))
  }

  /** `a & b` on naturals. */
  function And(a: nat, b: nat): nat {
    if a == 0 || b == 0 then 0
    else 2 * And(a / 2, b / 2) + (if a % 2 == 1 && b % 2 == 1 then 1 else 0)
  }

  /** `a | b` on naturals. */
  function Or(a: nat, b: nat): nat
    decreases a + b
  {
    if a == 0 && b == 0 then 0
    else 2 * Or(a / 2, b / 2) + (if a % 2 == 1 || b % 2 == 1 then 1 else 0)
  }

  lemma MulAtLeast(d: int, m: nat)
    requires d >= 1
    ensures d * m >= m
  {
  }

  /** Quotient and remainder are unique. */
  lemma DivModUnique(x: int, m: nat, q: int, r: nat)
    requires m > 0 && x == q * m + r && r < m
    ensures x / m == q && x % m == r
  {
    var d := x / m - q;
    assert x == (x / m) * m + x % m;
    assert d * m == r - x % m;
    if d >= 1 {
      MulAtLeast(d, m);
    } else if d <= -1 {
      MulAtLeast(-d, m);
    }
  }

  lemma HalvesMod(n: nat, m: nat)
    requires m > 0
    ensures n % (2 * m) == 2 * ((n / 2) % m) + n % 2
  {
    var t, r := (n / 2) / m, (n / 2) % m;
    assert n / 2 == t * m + r;
    assert t * (2 * m) == 2 * (t * m);
    DivModUnique(n, 2 * m, t, 2 * r + n % 2);
  }

  /** Masking with `a - 1` is the remainder by `a`, for a power of two `a`. */
  lemma {:induction false} AndMask(n: nat, a: nat)
    requires IsPow2(a)
    ensures And(n, a - 1) == n % a
    decreases a
  {
    if a > 1 {
      AndMask(n / 2, a / 2);
      HalvesMod(n, a / 2);
      assert (a - 1) / 2 == a / 2 - 1;
    }
  }

  lemma OrZero(b: nat)
    ensures Or(0, b) == b
  {
    if b > 0 { OrZero(b / 2); }
  }

  /** `x << k`. */
  function Shl(x: nat, k: nat): nat {
    if k == 0 then x else 2 * Shl(x, k - 1)
  }

  /** Or-ing bits above position `k` into a value below `2^k` adds them. */
  lemma {:induction false} OrDisjoint(a: nat, b: nat, k: nat)
    requires a < Pow2(k)
    ensures Or(a, Shl(b, k)) == a + Shl(b, k)
    decreases k
  {
    if k == 0 {
      OrZero(b);
    } else {
      OrDisjoint(a / 2, b, k - 1);
    }
  }

  lemma {:induction false} ShlAdd(x: nat, y: nat, k: nat)
    ensures Shl(x + 128 * y, k) == Shl(x, k) + Shl(y, k + 7)
    ensures x < 128 ==> Shl(x, k) + Pow2(k) <= Pow2(k + 7)
    decreases k
  {
    if k > 0 {
      ShlAdd(x, y, k - 1);
    } else {
      assert Shl(y, 1) == 2 * y && Shl(y, 2) == 4 * y && Shl(y, 3) == 8 * y && Shl(y, 4) == 16 * y;
      assert Shl(y, 5) == 32 * y && Shl(y, 6) == 64 * y && Shl(y, 7) == 128 * y;
      assert Pow2(3) == 8 && Pow2(5) == 32 && Pow2(7) == 128;
    }
  }

  lemma {:induction false} Pow2Add(a: nat, b: nat)
    ensures Pow2(a + b) == Pow2(a) * Pow2(b)
    decreases a
  {
    if a > 0 { Pow2Add(a - 1, b); }
  }
}
