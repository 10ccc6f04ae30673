/** Machine words as bounded integers: powers of two and the shift and bitwise operators that the
    C code applies to them, defined bit by bit. */
module Words {

  type byte = x: int | 0 <= x < 256

  datatype Option<+T> = None | Some(value: T)

  function Pow2(n: nat): (r: nat)
    ensures r >= 1
  {
    if n == 0 then 1 else 2 * Pow2(n - 1)
  }

  /** `a << k` before truncation to a word. */
  function Shl(a: nat, k: nat): nat {
    if k == 0 then a else 2 * Shl(a, k - 1)
  }

  /** `a >> k`. */
  function Shr(a: nat, k: nat): nat {
    if k == 0 then a else Shr(a / 2, k - 1)
  }

  /** The low `k` bits of `a`. */
  function Low(a: nat, k: nat): nat {
    if k == 0 then 0 else a % 2 + 2 * Low(a / 2, k - 1)
  }

  /** Bitwise `a | b`. */
  function BitOr(a: nat, b: nat): nat
    decreases a + b
  {
    if a == 0 && b == 0 then 0
    else (if a % 2 == 1 || b % 2 == 1 then 1 else 0) + 2 * BitOr(a / 2, b / 2)
  }

  /** Bitwise `a & b`. */
  function BitAnd(a: nat, b: nat): nat
    decreases a + b
  {
    if a == 0 && b == 0 then 0
    else (if a % 2 == 1 && b % 2 == 1 then 1 else 0) + 2 * BitAnd(a / 2, b / 2)
  }

  lemma {:induction false} Pow2Monotone(a: nat, b: nat)
    requires a <= b
    ensures Pow2(a) <= Pow2(b)
  {
    if a < b {
      Pow2Monotone(a, b - 1);
    }
  }

  /** The powers that occur as word sizes. */
  lemma Pow2At(m: nat)
    ensures m == 4 ==> Pow2(m) == 16
    ensures m == 8 ==> Pow2(m) == 256
    ensures m == 14 ==> Pow2(m) == 0x4000
    ensures m == 15 ==> Pow2(m) == 0x8000
    ensures m == 16 ==> Pow2(m) == 0x10000
    ensures m == 32 ==> Pow2(m) == 0x1_0000_0000
  {
    assert Pow2(8) == 256;
    assert Pow2(16) == 0x10000;
    assert Pow2(24) == 0x100_0000;
  }

  lemma {:induction false} OrZero(b: nat)
    ensures BitOr(0, b) == b
  {
    if b != 0 {
      OrZero(b / 2);
    }
  }

  /** Or-ing in a value shifted above every bit of `a` is addition. */
  lemma {:induction false} OrDisjoint(a: nat, b: nat, k: nat)
    requires a < Pow2(k)
    ensures BitOr(a, Shl(b, k)) == a + Shl(b, k)
  {
    if k == 0 {
      OrZero(b);
    } else {
      OrDisjoint(a / 2, b, k - 1);
    }
  }

  lemma {:induction false} AndZero(a: nat)
    ensures BitAnd(a, 0) == 0
  {
    if a != 0 {
      AndZero(a / 2);
    }
  }

  /** Masking with `(1 << k) - 1` keeps the low bits. */
  lemma {:induction false} AndMask(a: nat, k: nat)
    ensures Shl(1, k) == Pow2(k) && BitAnd(a, Pow2(k) - 1) == Low(a, k) < Pow2(k)
  {
    if k == 0 {
      AndZero(a);
    } else {
      AndMask(a / 2, k - 1);
    }
  }

  lemma {:induction false} ShlBound(a: nat, n: nat, k: nat)
    requires a < Pow2(n)
    ensures Shl(a, k) + Pow2(k) <= Pow2(n + k)
  {
    if k != 0 {
      ShlBound(a, n, k - 1);
    }
  }

  lemma Shl8(a: nat)
    ensures Shl(a, 8) == 256 * a
  {
    assert Shl(a, 1) == 2 * Shl(a, 0);
    assert Shl(a, 3) == 2 * Shl(a, 2) && Shl(a, 2) == 2 * Shl(a, 1);
    assert Shl(a, 5) == 2 * Shl(a, 4) && Shl(a, 4) == 2 * Shl(a, 3);
    assert Shl(a, 7) == 2 * Shl(a, 6) && Shl(a, 6) == 2 * Shl(a, 5);
  }

  lemma {:induction false} ShlMonotone(a: nat, b: nat, k: nat)
    requires a <= b
    ensures Shl(a, k) <= Shl(b, k)
  {
    if k != 0 {
      ShlMonotone(a, b, k - 1);
    }
  }

  lemma {:induction false} ShrBound(a: nat, n: nat, k: nat)
    requires k <= n && a < Pow2(n)
    ensures Shr(a, k) < Pow2(n - k)
  {
    if k != 0 {
      ShrBound(a / 2, n - 1, k - 1);
    }
  }

  /** Quotient and remainder by the sector size, from the decomposition itself. */
  lemma SectorSplit(x: nat, q: nat, r: nat)
    requires x == 512 * q + r && r < 512
    ensures x / 512 == q && x % 512 == r
  {
  }

  // ----- division by an arbitrary number -----

  lemma MulAtLeast(k: int, d: nat)
    requires k >= 1
    ensures k * d >= d
  {
  }

  /** Quotient and remainder are the only way to write `a` as a multiple plus a small rest. */
  lemma RemainderIs(a: int, d: nat, q: int, r: int)
    requires d > 0 && 0 <= r < d
    requires a == q * d + r
    ensures a % d == r && a / d == q
  {
    var q', r' := a / d, a % d;
    assert (q - q') * d == r' - r by {
      assert a == q' * d + r';
      assert q * d - q' * d == (q - q') * d;
    }
    if q > q' {
      MulAtLeast(q - q', d);
    } else if q < q' {
      MulAtLeast(q' - q, d);
    }
  }

  lemma SmallRemainder(a: nat, d: nat)
    requires a < d
    ensures a % d == a && a / d == 0
  {
    RemainderIs(a, d, 0, a);
  }

  lemma RemainderShift(a: nat, d: nat)
    requires 0 < d <= a
    ensures (a - d) % d == a % d
  {
    var q, r := a / d, a % d;
    assert a == q * d + r;
    assert a - d == (q - 1) * d + r;
    RemainderIs(a - d, d, q - 1, r);
  }
}
