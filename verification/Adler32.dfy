/** Adler-32 with deferred reduction, against the definition of section 2.2 of RFC 1950. */
module Adler32 {
  import opened Words

  /** A 32-bit unsigned word: a value out of range would be an overflow. */
  type u32 = x: int | 0 <= x < 0x1_0000_0000

  /** Both sums after a string of bytes, reduced at every byte. */
  function Sums(data: seq<byte>): (nat, nat) {
    if |data| == 0 then (1, 0)
    else
      var before := Sums(data[..|data| - 1]);
      var s1 := (before.0 + data[|data| - 1]) % 65521;
      (s1, (before.1 + s1) % 65521)
  }

  function Adler(data: seq<byte>): nat {
    65536 * Sums(data).1 + Sums(data).0
  }

  lemma SumsNext(data: seq<byte>, n: nat)
    requires n < |data|
    ensures Sums(data[..n + 1]).0 == (Sums(data[..n]).0 + data[n]) % 65521
    ensures Sums(data[..n + 1]).1 == (Sums(data[..n]).1 + Sums(data[..n + 1]).0) % 65521
  {
    assert data[..n + 1][..n] == data[..n];
  }

  /** Reducing a summand first does not change the remainder. */
  lemma ModAdd(a: nat, b: nat)
    ensures (a + b) % 65521 == (a % 65521 + b) % 65521
  {
    var q, r := a / 65521, a % 65521;
    var q', r' := (r + b) / 65521, (r + b) % 65521;
    assert a + b == (q + q') * 65521 + r';
    RemainderIs(a + b, 65521, q + q', r');
  }

  /** The running sums, unreduced since the start of the block, agree with the reduced ones. */
  ghost predicate Agree(s1: nat, s2: nat, data: seq<byte>) {
    s1 % 65521 == Sums(data).0 && s2 % 65521 == Sums(data).1
  }

  lemma AgreeNext(s1: nat, s2: nat, data: seq<byte>, n: nat)
    requires n < |data| && Agree(s1, s2, data[..n])
    ensures Agree(s1 + data[n], s2 + (s1 + data[n]), data[..n + 1])
  {
    SumsNext(data, n);
    var t: nat := s1 + data[n];
    ModAdd(s1, data[n]);
    ModAdd(s2, t);
    ModAdd(t, s2 % 65521);
  }

  // ----- in closed form -----

  /** The sum of the bytes. */
  function Total(data: seq<byte>): nat {
    if data == [] then 0 else data[0] + Total(data[1..])
  }

  /** Each byte as often as there are bytes from it to the end. */
  function Weighted(data: seq<byte>): nat {
    if data == [] then 0 else |data| * data[0] + Weighted(data[1..])
  }

  lemma {:induction false} OneByteMore(data: seq<byte>, b: byte)
    ensures Total(data + [b]) == Total(data) + b
    ensures Weighted(data + [b]) == Weighted(data) + Total(data) + b
  {
    if data == [] {
      assert [] + [b] == [b];
    } else {
      OneByteMore(data[1..], b);
      assert (data + [b])[1..] == data[1..] + [b] && (data + [b])[0] == data[0];
      assert (|data| + 1) * data[0] == |data| * data[0] + data[0];
    }
  }

  /** Both sums: one and the bytes; one for each byte, and the bytes by their place from the end. */
  lemma {:induction false} SumsAre(data: seq<byte>)
    ensures Sums(data).0 == (1 + Total(data)) % 65521
    ensures Sums(data).1 == (|data| + Weighted(data)) % 65521
  {
    if data != [] {
      var init, b: byte := data[..|data| - 1], data[|data| - 1];
      SumsAre(init);
      OneByteMore(init, b);
      assert data == init + [b];
      var t, w := 1 + Total(init), |init| + Weighted(init);
      ModAdd(t, b);
      ModAdd(w, (t + b) % 65521);
      ModAdd(t + b, w);
    }
  }

  // ----- no overflow -----

  /** 1 + 2 + ... + n. */
  function Triangle(n: nat): nat {
    if n == 0 then 0 else Triangle(n - 1) + n
  }

  lemma {:induction false} TriangleIs(n: nat)
    ensures 2 * Triangle(n) == n * (n + 1)
  {
    if n > 0 {
      TriangleIs(n - 1);
      assert n * (n + 1) == (n - 1) * n + 2 * n;
    }
  }

  /** Bounds on the sums, `j` bytes into a block. */
  ghost predicate Bounded(s1: nat, s2: nat, j: nat) {
    s1 <= 65520 + 255 * j && s2 <= 65520 + 65520 * j + 255 * Triangle(j)
  }

  lemma {:induction false} TriangleMonotone(m: nat, n: nat)
    requires m <= n
    ensures Triangle(m) <= Triangle(n)
  {
    if m < n {
      TriangleMonotone(m, n - 1);
    }
  }

  /** The largest block for which the sums fit. */
  lemma BlockFits(j: nat, max: nat)
    requires j <= max && max == 5552
    ensures 65520 + 65520 * j + 255 * Triangle(j) < 0x1_0000_0000 && 65520 + 255 * j < 0x1_0000_0000
  {
    TriangleMonotone(j, max);
    TriangleIs(max);
  }

  /** One byte. */
  method Add(s1: u32, s2: u32, data: seq<byte>, p: nat, ghost j: nat) returns (t1: u32, t2: u32)
    requires p < |data| && j < 5552 && Bounded(s1, s2, j) && Agree(s1, s2, data[..p])
    ensures Bounded(t1, t2, j + 1) && Agree(t1, t2, data[..p + 1])
  {
    BlockFits(j + 1, 5552);
    AgreeNext(s1, s2, data, p);
    t1 := s1 + data[p];
    t2 := s2 + t1;
  }

  /** `n` bytes, part of a block of which `j` are done. */
  method AddRun(s1: u32, s2: u32, data: seq<byte>, p: nat, n: nat, ghost j: nat) returns (t1: u32, t2: u32)
    requires p + n <= |data| && j + n <= 5552 && Bounded(s1, s2, j) && Agree(s1, s2, data[..p])
    ensures Bounded(t1, t2, j + n) && Agree(t1, t2, data[..p + n])
  {
    t1, t2 := s1, s2;
    for i := 0 to n
      invariant Bounded(t1, t2, j + i) && Agree(t1, t2, data[..p + i])
    {
      t1, t2 := Add(t1, t2, data, p + i, j + i);
    }
  }

  /** A block: sixteen bytes at a time, then the rest, then one reduction. */
  method Block(s1: u32, s2: u32, data: seq<byte>, p: nat, k: nat) returns (t1: u32, t2: u32)
    requires p + k <= |data| && k <= 5552 && s1 < 65521 && s2 < 65521 && Agree(s1, s2, data[..p])
    ensures t1 < 65521 && t2 < 65521 && Agree(t1, t2, data[..p + k])
  {
    t1, t2 := s1, s2;
    var i, buf := k / 16, p;
    ghost var j := 0;
    while i > 0
      invariant 0 <= i && j + 16 * i + k % 16 == k && buf == p + j
      invariant Bounded(t1, t2, j) && Agree(t1, t2, data[..buf])
    {
      t1, t2 := AddRun(t1, t2, data, buf, 16, j);
      buf, i := buf + 16, i - 1;
      j := j + 16;
    }
    t1, t2 := AddRun(t1, t2, data, buf, k % 16, j);
    t1, t2 := t1 % 65521, t2 % 65521;
  }

  /** tinf_adler32. */
  method TinfAdler32(data: seq<byte>) returns (sum: u32)
    requires |data| < 0x1_0000_0000
    ensures sum == Adler(data)
  {
    var s1: u32, s2: u32 := 1, 0;
    var length, buf := |data|, 0;
    assert data[..0] == [];
    while length > 0
      invariant 0 <= length && buf + length == |data|
      invariant s1 < 65521 && s2 < 65521 && Agree(s1, s2, data[..buf])
    {
      var k := if length < 5552 then length else 5552;
      s1, s2 := Block(s1, s2, data, buf, k);
      buf, length := buf + k, length - k;
    }
    assert data[..buf] == data;
    SmallRemainder(s1, 65521);
    SmallRemainder(s2, 65521);
    sum := Pack(s1, s2, 16);
  }

  /** The second sum in the high half, the first in the low half. */
  method Pack(s1: u32, s2: u32, half: nat) returns (sum: u32)
    requires s1 < 65521 && s2 < 65521 && half == 16
    ensures sum == 65536 * s2 + s1
  {
    Pow2At(half);
    OrDisjoint(s1, s2, half);
    ShlIs(s2, half);
    sum := BitOr(s1, Shl(s2, half));
  }

  lemma {:induction false} ShlIs(a: nat, k: nat)
    ensures Shl(a, k) == a * Pow2(k)
  {
    if k != 0 {
      ShlIs(a, k - 1);
      assert a * Pow2(k) == 2 * (a * Pow2(k - 1));
    }
  }
}
