/** The DEFLATE view of a byte string as a stream of bits (section 3.1.1 of RFC 1951). */
module BitStream {
  import opened Words

  /** Bit `i` of the stream: bytes in order, least significant bit first; zero past the end. */
  function BitAt(s: seq<byte>, i: nat): (b: nat)
    ensures b <= 1
  {
    if |s| == 0 then 0
    else if i < 8 then Shr(s[0], i) % 2
    else BitAt(s[1..], i - 8)
  }

  /** `n` bits from position `p` as a number packed starting with the least significant bit. */
  function LsbValue(s: seq<byte>, p: nat, n: nat): nat
    decreases n
  {
    if n == 0 then 0 else BitAt(s, p) + 2 * LsbValue(s, p + 1, n - 1)
  }

  /** `n` bits from position `p` as a Huffman code, packed starting with the most significant bit. */
  function MsbValue(s: seq<byte>, p: nat, n: nat): nat {
    if n == 0 then 0 else 2 * MsbValue(s, p, n - 1) + BitAt(s, p + n - 1)
  }

  lemma {:induction false} BitInByte(s: seq<byte>, q: nat, k: nat)
    requires q < |s| && k < 8
    ensures BitAt(s, 8 * q + k) == Shr(s[q], k) % 2
  {
    if q != 0 {
      BitInByte(s[1..], q - 1, k);
      assert 8 * q + k - 8 == 8 * (q - 1) + k;
    }
  }

  lemma {:induction false} LsbBound(s: seq<byte>, p: nat, n: nat)
    ensures LsbValue(s, p, n) < Pow2(n)
    decreases n
  {
    if n != 0 {
      LsbBound(s, p + 1, n - 1);
    }
  }

  lemma {:induction false} MsbBound(s: seq<byte>, p: nat, n: nat)
    ensures MsbValue(s, p, n) < Pow2(n)
  {
    if n != 0 {
      MsbBound(s, p, n - 1);
    }
  }

  lemma {:induction false} LsbSplit(s: seq<byte>, p: nat, a: nat, b: nat)
    ensures LsbValue(s, p, a + b) == LsbValue(s, p, a) + Shl(LsbValue(s, p + a, b), a)
    decreases a
  {
    if a != 0 {
      LsbSplit(s, p + 1, a - 1, b);
      assert p + 1 + (a - 1) == p + a;
    }
  }

  /** Taking `n` of `m` buffered bits: the low part is read, the high part stays. */
  lemma {:induction false} LsbTake(s: seq<byte>, p: nat, n: nat, m: nat)
    requires n <= m
    ensures Low(LsbValue(s, p, m), n) == LsbValue(s, p, n)
    ensures Shr(LsbValue(s, p, m), n) == LsbValue(s, p + n, m - n)
    decreases n
  {
    if n != 0 {
      LsbTake(s, p + 1, n - 1, m - 1);
      assert p + 1 + (n - 1) == p + n;
    }
  }

  /** Eight bits from a byte boundary are that byte. */
  lemma LsbByte(s: seq<byte>, q: nat, n: nat)
    requires q < |s| && n == 8
    ensures LsbValue(s, 8 * q, n) == s[q]
  {
    LsbOfByte(s, q, n);
  }

  lemma {:induction false} LsbOfByte(s: seq<byte>, q: nat, n: nat)
    requires q < |s| && n <= 8
    ensures LsbValue(s, 8 * q + 8 - n, n) == Shr(s[q], 8 - n)
  {
    if n == 0 {
      ShrBound(s[q], 8, 8);
    } else {
      LsbOfByte(s, q, n - 1);
      BitInByte(s, q, 8 - n);
      ShrStep(s[q], 8 - n);
    }
  }

  lemma {:induction false} ShrStep(a: nat, k: nat)
    ensures Shr(a, k + 1) == Shr(a, k) / 2
  {
    if k != 0 {
      ShrStep(a / 2, k - 1);
    }
  }
}
