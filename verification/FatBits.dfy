/** A file allocation table as a stream of bits: entries are numbers of 12, 16 or 28 bits, one every 12,
    16 or 32 bits, least significant bit first (Microsoft FAT32 File System Specification, version 1.03,
    section "FAT Data Structure"). */
module FatBits {
  import opened Words
  import opened BitStream
  import opened FatImage

  /** Bits from one entry to the next. */
  function Pitch(t: FatType): nat {
    match t case Fat12 => 12 case Fat16 => 16 case Fat32 => 32
  }

  /** Bits of an entry; the rest up to the next one is reserved. */
  function Width(t: FatType): nat {
    match t case Fat12 => 12 case Fat16 => 16 case Fat32 => 28
  }

  /** Entry `c` of a table as a number of its bit stream. */
  function Number(t: FatType, img: seq<byte>, c: nat): nat {
    LsbValue(img, Pitch(t) * c, Width(t))
  }

  // ----- bytes as numbers -----

  lemma {:induction false} LowIs(a: nat, k: nat)
    ensures Low(a, k) == a % Pow2(k)
  {
    if k > 0 {
      LowIs(a / 2, k - 1);
      Halves(a, Pow2(k - 1));
    }
  }

  lemma Halves(a: nat, m: nat)
    requires m > 0
    ensures a % (2 * m) == a % 2 + 2 * (a / 2 % m)
  {
    var q, r := a / 2 / m, a / 2 % m;
    assert a / 2 == q * m + r;
    assert a == q * (2 * m) + (a % 2 + 2 * r);
    RemainderIs(a, 2 * m, q, a % 2 + 2 * r);
  }

  /** Bytes `i` and `i + 1` as a number. */
  function Pair(img: seq<byte>, i: nat): nat
    requires i + 1 < |img|
  {
    var lo: int, hi: int := img[i], img[i + 1];
    lo + 256 * hi
  }

  lemma TwoBytes(img: seq<byte>, i: nat, n: nat)
    requires i + 1 < |img| && n == 8
    ensures LsbValue(img, 8 * i, n + n) == Pair(img, i)
  {
    LsbSplit(img, 8 * i, n, n);
    LsbByte(img, i, n);
    LsbByte(img, i + 1, n);
    Shl8(img[i + 1]);
  }

  lemma FourBytes(img: seq<byte>, i: nat, n: nat)
    requires i + 3 < |img| && n == 8
    ensures LsbValue(img, 8 * i, 4 * n) == Pair(img, i) + 0x10000 * Pair(img, i + 2)
  {
    TwoBytes(img, i, n);
    TwoBytes(img, i + 2, n);
    LsbSplit(img, 8 * i, n + n, n + n);
    var hi := Pair(img, i + 2);
    ShlAdd(hi, n, n);
    Shl8(hi);
    Shl8(256 * hi);
  }

  lemma {:induction false} ShlAdd(a: nat, m: nat, n: nat)
    ensures Shl(a, m + n) == Shl(Shl(a, m), n)
    decreases n
  {
    if n > 0 {
      ShlAdd(a, m, n - 1);
    }
  }

  lemma Powers(k: nat)
    requires k == 4
    ensures Pow2(k) == 16 && Pow2(3 * k) == 0x1000 && Pow2(7 * k) == 0x1000_0000
  {
    Pow2Add(k, k);
    Pow2Add(2 * k, k);
    Pow2Add(3 * k, 3 * k);
    Pow2Add(6 * k, k);
  }

  lemma {:induction false} Pow2Add(a: nat, b: nat)
    ensures Pow2(a + b) == Pow2(a) * Pow2(b)
    decreases b
  {
    if b > 0 {
      Pow2Add(a, b - 1);
      assert Pow2(a) * (2 * Pow2(b - 1)) == 2 * (Pow2(a) * Pow2(b - 1));
    }
  }

  lemma ShrNibble(a: nat, k: nat)
    requires k == 4
    ensures Shr(a, k) == a / 16
  {
    ShrStep(a, k - 1);
    ShrStep(a, k - 2);
    ShrStep(a, k - 3);
    ShrStep(a, k - 4);
  }

  /** Every entry is the number at its place in the bit stream. */
  lemma EntryIsNumber(t: FatType, img: seq<byte>, c: nat)
    requires Inside(t, img, c)
    ensures Entry(t, img, c) == Number(t, img, c)
  {
    match t
    case Fat12 => Entry12IsNumber(img, c, 4);
    case Fat16 => TwoBytes(img, 2 * c, 8);
    case Fat32 => Entry32IsNumber(img, c, 4);
  }

  lemma Entry12IsNumber(img: seq<byte>, c: nat, k: nat)
    requires Inside(Fat12, img, c) && k == 4
    ensures Entry(Fat12, img, c) == LsbValue(img, 12 * c, 3 * k)
  {
    var i := c + c / 2;
    if c % 2 == 1 {
      HighTwelve(img, i, k);
      assert 8 * i + k == 12 * c;
    } else {
      LowTwelve(img, i, k);
      assert 8 * i == 12 * c;
    }
  }

  lemma HighTwelve(img: seq<byte>, i: nat, k: nat)
    requires i + 1 < |img| && k == 4
    ensures Pair(img, i) / 16 == LsbValue(img, 8 * i + k, 3 * k)
  {
    TwoBytes(img, i, 2 * k);
    LsbTake(img, 8 * i, k, 4 * k);
    ShrNibble(Pair(img, i), k);
  }

  lemma LowTwelve(img: seq<byte>, i: nat, k: nat)
    requires i + 1 < |img| && k == 4
    ensures Pair(img, i) % 0x1000 == LsbValue(img, 8 * i, 3 * k)
  {
    TwoBytes(img, i, 2 * k);
    LsbTake(img, 8 * i, 3 * k, 4 * k);
    LowIs(Pair(img, i), 3 * k);
    Powers(k);
  }

  lemma Entry32IsNumber(img: seq<byte>, c: nat, k: nat)
    requires Inside(Fat32, img, c) && k == 4
    ensures Entry(Fat32, img, c) == LsbValue(img, 32 * c, 7 * k)
  {
    LowTwentyEight(img, 4 * c, k);
  }

  lemma LowTwentyEight(img: seq<byte>, i: nat, k: nat)
    requires i + 3 < |img| && k == 4
    ensures (Pair(img, i) + 0x10000 * Pair(img, i + 2)) % 0x1000_0000 == LsbValue(img, 8 * i, 7 * k)
  {
    FourBytes(img, i, 2 * k);
    LsbTake(img, 8 * i, 7 * k, 8 * k);
    LowIs(LsbValue(img, 8 * i, 8 * k), 7 * k);
    Powers(k);
  }

  // ----- writing -----

  lemma {:induction false} ShrTwice(a: nat, m: nat, n: nat)
    ensures Shr(a, m + n) == Shr(Shr(a, m), n)
    decreases m
  {
    if m > 0 {
      ShrTwice(a / 2, m - 1, n);
    }
  }

  lemma ShrByte(a: nat, k: nat)
    requires k == 8
    ensures Shr(a, k) == a / 256
  {
    ShrNibble(a, k - 4);
    ShrNibble(a / 16, k - 4);
    ShrTwice(a, k - 4, k - 4);
  }

  /** Bits of a low part and a high part. */
  lemma {:induction false} Joined(a: nat, y: nat, m: nat, k: nat)
    requires a < Pow2(m)
    ensures if k < m then Shr(a + Pow2(m) * y, k) % 2 == Shr(a, k) % 2 else Shr(a + Pow2(m) * y, k) == Shr(y, k - m)
    decreases m
  {
    if m > 0 {
      var h := Pow2(m - 1) * y;
      assert Pow2(m) * y == 2 * h;
      assert (a + 2 * h) / 2 == a / 2 + h && (a + 2 * h) % 2 == a % 2;
      if k > 0 {
        Joined(a / 2, y, m - 1, k - 1);
      }
    }
  }

  lemma JoinedNibbles(x: nat, y: nat, k: nat)
    requires x < 16
    ensures if k < 4 then Shr(x + 16 * y, k) % 2 == Shr(x, k) % 2 else Shr(x + 16 * y, k) == Shr(y, k - 4)
  {
    Pow2At(4);
    Joined(x, y, 4, k);
  }

  lemma LowByte(y: nat, k: nat)
    requires k < 8
    ensures Shr(y % 256, k) % 2 == Shr(y, k) % 2
  {
    Pow2At(8);
    Joined(y % 256, y / 256, 8, k);
    assert y % 256 + 256 * (y / 256) == y;
  }

  lemma LowNibble(y: nat, k: nat)
    requires k < 4
    ensures Shr(y % 16, k) % 2 == Shr(y, k) % 2
  {
    JoinedNibbles(y % 16, y / 16, k);
    assert y % 16 + 16 * (y / 16) == y;
  }

  /** The low nibble of a byte replaced, and the high one. */
  lemma LowReplaced(b: nat, y: nat, k: nat)
    ensures Shr(16 * (b / 16) + y % 16, k) % 2 == if k < 4 then Shr(y, k) % 2 else Shr(b, k) % 2
  {
    JoinedNibbles(y % 16, b / 16, k);
    JoinedNibbles(b % 16, b / 16, k);
    assert b % 16 + 16 * (b / 16) == b;
    if k < 4 { LowNibble(y, k); }
  }

  lemma HighReplaced(b: nat, y: nat, k: nat)
    requires k < 8
    ensures Shr(b % 16 + 16 * (y % 16), k) % 2 == if k < 4 then Shr(b, k) % 2 else Shr(y, k - 4) % 2
  {
    JoinedNibbles(b % 16, y % 16, k);
    if k < 4 { LowNibble(b, k); } else { LowNibble(y, k - 4); }
  }

  /** Bit `i` of the table after `val` was written to entry `c`: a bit of the value inside the entry, and
      what it was anywhere else, reserved bits and neighbours included. */
  lemma BitsAfterWrite(t: FatType, img: seq<byte>, c: nat, val: nat, i: nat)
    requires Inside(t, img, c) && i < 8 * |img|
    ensures BitAt(WithEntry(t, img, c, val), i) ==
      if Pitch(t) * c <= i < Pitch(t) * c + Width(t) then Shr(val, i - Pitch(t) * c) % 2 else BitAt(img, i)
  {
    BitInByte(img, i / 8, i % 8);
    BitInByte(WithEntry(t, img, c, val), i / 8, i % 8);
    match t
    case Fat12 => Bits12(img, c, val, i / 8, i % 8, 4);
    case Fat16 => Bits16(img, c, val, i / 8, i % 8, 8);
    case Fat32 => Bits32(img, c, val, i / 8, i % 8, 8);
  }

  /** The table `img'` is `img` with the bits of entry `c` set to those of `val`. */
  ghost predicate Written(t: FatType, img: seq<byte>, c: nat, val: nat, img': seq<byte>) {
    |img'| == |img| && forall i {:trigger BitAt(img', i)} :: 0 <= i < 8 * |img| ==>
      BitAt(img', i) == if Pitch(t) * c <= i < Pitch(t) * c + Width(t) then Shr(val, i - Pitch(t) * c) % 2 else BitAt(img, i)
  }

  lemma WithEntryIsWritten(t: FatType, img: seq<byte>, c: nat, val: nat)
    requires Inside(t, img, c)
    ensures Written(t, img, c, val, WithEntry(t, img, c, val))
  {
    forall i: nat | i < 8 * |img|
      ensures BitAt(WithEntry(t, img, c, val), i) ==
        if Pitch(t) * c <= i < Pitch(t) * c + Width(t) then Shr(val, i - Pitch(t) * c) % 2 else BitAt(img, i)
    {
      BitsAfterWrite(t, img, c, val, i);
    }
  }

  lemma Bits16(img: seq<byte>, c: nat, val: nat, q: nat, k: nat, e: nat)
    requires Inside(Fat16, img, c) && q < |img| && k < e == 8
    ensures Shr(WithEntry(Fat16, img, c, val)[q], k) % 2 ==
      if 2 * c <= q < 2 * c + 2 then Shr(val, 8 * q + k - 16 * c) % 2 else Shr(img[q], k) % 2
  {
    if q == 2 * c {
      LowByte(val, k);
    } else if q == 2 * c + 1 {
      LowByte(val / 256, k);
      ShrByte(val, e);
      ShrTwice(val, e, k);
    }
  }

  lemma Bits32(img: seq<byte>, c: nat, val: nat, q: nat, k: nat, e: nat)
    requires Inside(Fat32, img, c) && q < |img| && k < e == 8
    ensures Shr(WithEntry(Fat32, img, c, val)[q], k) % 2 ==
      if 4 * c <= q < 4 * c + 3 || (q == 4 * c + 3 && k < 4) then Shr(val, 8 * q + k - 32 * c) % 2 else Shr(img[q], k) % 2
  {
    var a, b, d := val / 256, val / 256 / 256, val / 256 / 256 / 256;
    ShrByte(val, e);
    ShrByte(a, e);
    ShrByte(b, e);
    ShrTwice(val, e, k);
    ShrTwice(val, e, e);
    ShrTwice(val, e + e, k);
    ShrTwice(val, e + e, e);
    ShrTwice(val, e + e + e, k);
    if q == 4 * c {
      LowByte(val, k);
    } else if q == 4 * c + 1 {
      LowByte(a, k);
    } else if q == 4 * c + 2 {
      LowByte(b, k);
    } else if q == 4 * c + 3 {
      LowReplaced(img[q], d, k);
    }
  }

  lemma Bits12(img: seq<byte>, c: nat, val: nat, q: nat, k: nat, e: nat)
    requires Inside(Fat12, img, c) && q < |img| && k < 8 && e == 4
    ensures Shr(WithEntry(Fat12, img, c, val)[q], k) % 2 ==
      if 12 * c <= 8 * q + k < 12 * c + 12 then Shr(val, 8 * q + k - 12 * c) % 2 else Shr(img[q], k) % 2
  {
    var i := c + c / 2;
    ShrNibble(val, e);
    ShrTwice(val, e, k);
    ShrByte(val, 2 * e);
    ShrTwice(val, 2 * e, k);
    if c % 2 == 1 {
      assert 8 * i + 4 == 12 * c;
      if q == i {
        HighReplaced(img[q], val, k);
      } else if q == i + 1 {
        LowByte(val / 16, k);
      }
    } else {
      assert 8 * i == 12 * c;
      if q == i {
        LowByte(val, k);
      } else if q == i + 1 {
        LowReplaced(img[q], val / 256, k);
      }
    }
  }
}
