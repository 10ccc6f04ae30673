/** The bytes of a file allocation table and the entries packed into them (Microsoft FAT32 File
    System Specification, version 1.03, section "FAT Data Structure"). */
module FatImage {
  import opened Words

  datatype FatType = Fat12 | Fat16 | Fat32

  /** Offset of the first byte of entry `c`. */
  function EntryByte(t: FatType, c: nat): nat {
    match t
    case Fat12 => c + c / 2
    case Fat16 => 2 * c
    case Fat32 => 4 * c
  }

  /** The whole entry lies inside the table. */
  predicate Inside(t: FatType, img: seq<byte>, c: nat) {
    EntryByte(t, c) + (if t.Fat32? then 4 else 2) <= |img|
  }

  /** The value of entry `c`: 12 bits at a nibble boundary, 16 bits, or the low 28 of 32 bits. */
  function Entry(t: FatType, img: seq<byte>, c: nat): (v: nat)
    requires Inside(t, img, c)
  {
    var i := EntryByte(t, c);
    match t
    case Fat12 => Value12(img[i], img[i + 1], c % 2 == 1)
    case Fat16 => Value16(img[i], img[i + 1])
    case Fat32 => Value28(img[i], img[i + 1], img[i + 2], img[i + 3])
  }

  function Value12(lo: nat, hi: nat, odd: bool): nat {
    if odd then (lo + 256 * hi) / 16 else (lo + 256 * hi) % 0x1000
  }

  function Value16(lo: nat, hi: nat): nat {
    lo + 256 * hi
  }

  function Value28(b0: nat, b1: nat, b2: nat, b3: nat): nat {
    (b0 + 256 * b1 + 0x10000 * b2 + 0x100_0000 * b3) % 0x1000_0000
  }

  /** A value as the entry can hold it. */
  function Masked(t: FatType, val: nat): nat {
    match t
    case Fat12 => val % 0x1000
    case Fat16 => val % 0x10000
    case Fat32 => val % 0x1000_0000
  }

  /** The table after entry `c` is overwritten; bits that belong to neighbours or are reserved stay. */
  function WithEntry(t: FatType, img: seq<byte>, c: nat, val: nat): (r: seq<byte>)
    requires Inside(t, img, c)
    ensures |r| == |img|
  {
    var i := EntryByte(t, c);
    match t
    case Fat12 => img[i := First12(img[i], c % 2 == 1, val)][i + 1 := Second12(img[i + 1], c % 2 == 1, val)]
    case Fat16 => img[i := val % 256][i + 1 := (val / 256) % 256]
    case Fat32 =>
      img[i := val % 256][i + 1 := (val / 256) % 256][i + 2 := (val / 256 / 256) % 256][i + 3 := Top28(img[i + 3], val)]
  }

  function First12(b: byte, odd: bool, val: nat): byte {
    if odd then b % 16 + 16 * (val % 16) else val % 256
  }

  function Second12(b: byte, odd: bool, val: nat): byte {
    if odd then (val / 16) % 256 else 16 * (b / 16) + (val / 256) % 16
  }

  function Top28(b: byte, val: nat): byte {
    16 * (b / 16) + (val / 256 / 256 / 256) % 16
  }

  /** Writing an entry and reading it back gives the masked value; no other entry changes. */
  lemma EntryAfterWrite(t: FatType, img: seq<byte>, c: nat, val: nat, d: nat)
    requires Inside(t, img, c) && Inside(t, img, d)
    ensures Entry(t, WithEntry(t, img, c, val), d) == if d == c then Masked(t, val) else Entry(t, img, d)
  {
    match t
    case Fat12 => Entry12AfterWrite(img, c, val, d);
    case Fat16 => Entry16AfterWrite(img, c, val, d);
    case Fat32 => Entry32AfterWrite(img, c, val, d);
  }

  lemma Entry16AfterWrite(img: seq<byte>, c: nat, val: nat, d: nat)
    requires Inside(Fat16, img, c) && Inside(Fat16, img, d)
    ensures Entry(Fat16, WithEntry(Fat16, img, c, val), d) == if d == c then Masked(Fat16, val) else Entry(Fat16, img, d)
  {
    assert val % 0x10000 == val % 256 + 256 * ((val / 256) % 256);
  }

  lemma Entry32AfterWrite(img: seq<byte>, c: nat, val: nat, d: nat)
    requires Inside(Fat32, img, c) && Inside(Fat32, img, d)
    ensures Entry(Fat32, WithEntry(Fat32, img, c, val), d) == if d == c then Masked(Fat32, val) else Entry(Fat32, img, d)
  {
    if c == d {
      LowBits28(val, val / 256, val / 256 / 256, val / 256 / 256 / 256, img[4 * c + 3] / 16);
    }
  }

  /** Four bytes of a value whose top nibble is replaced agree with it in the low 28 bits. */
  lemma LowBits28(q0: nat, q1: nat, q2: nat, q3: nat, t: nat)
    requires q1 == q0 / 256 && q2 == q1 / 256 && q3 == q2 / 256
    ensures Value28(q0 % 256, q1 % 256, q2 % 256, 16 * t + q3 % 16) == q0 % 0x1000_0000
  {
    var low := q0 % 256 + 256 * (q1 % 256) + 0x10000 * (q2 % 256) + 0x100_0000 * (q3 % 16);
    AddMultiple(low, t);
    AddMultiple(low, q3 / 16);
  }

  lemma AddMultiple(low: nat, k: nat)
    requires low < 0x1000_0000
    ensures (low + 0x1000_0000 * k) % 0x1000_0000 == low
  {
  }

  lemma Entry12AfterWrite(img: seq<byte>, c: nat, val: nat, d: nat)
    requires Inside(Fat12, img, c) && Inside(Fat12, img, d)
    ensures Entry(Fat12, WithEntry(Fat12, img, c, val), d) == if d == c then Masked(Fat12, val) else Entry(Fat12, img, d)
  {
    var i, j := c + c / 2, d + d / 2;
    if c == d {
      if c % 2 == 1 { OddWritten(img[i], val); } else { EvenWritten(img[i + 1], val); }
    } else if c % 2 == 0 && d == c + 1 {
      assert j == i + 1;
      OddKept(img[j], (val / 256) % 16, img[j + 1]);
    } else if c % 2 == 1 && d == c - 1 {
      assert j + 1 == i;
      EvenKept(img[j], img[i], val % 16);
    } else {
      Apart(c, d);
    }
  }

  /** Twelve-bit entries that share no byte pair lie apart. */
  lemma Apart(c: nat, d: nat)
    requires c != d && !(c % 2 == 0 && d == c + 1) && !(c % 2 == 1 && d == c - 1)
    ensures d + d / 2 + 1 < c + c / 2 || c + c / 2 + 1 < d + d / 2
  {
  }

  /** The low twelve bits as a nibble and a byte, and as a byte and a nibble. */
  lemma Low12(val: nat)
    ensures val % 0x1000 == val % 16 + 16 * ((val / 16) % 256)
    ensures val % 0x1000 == val % 256 + 256 * ((val / 256) % 16)
  {
    var a, b := val / 16, val / 256;
    Below4096(val % 16 + 16 * (a % 256), a / 256);
    Below4096(val % 256 + 256 * (b % 16), b / 16);
  }

  lemma OddWritten(first: nat, val: nat)
    ensures Value12(first % 16 + 16 * (val % 16), (val / 16) % 256, true) == val % 0x1000
  {
    Low12(val);
    NibbleShift(val % 0x1000, first % 16);
  }

  lemma NibbleShift(x: nat, low: nat)
    requires low < 16
    ensures (16 * x + low) / 16 == x
  {
  }

  lemma EvenWritten(second: nat, val: nat)
    ensures Value12(val % 256, 16 * (second / 16) + (val / 256) % 16, false) == val % 0x1000
  {
    Low12(val);
    Below4096(val % 0x1000, second / 16);
  }

  lemma Below4096(low: nat, k: nat)
    requires low < 0x1000
    ensures (low + 0x1000 * k) % 0x1000 == low
  {
  }

  lemma OddKept(second: nat, x: nat, hi: nat)
    requires x < 16
    ensures Value12(16 * (second / 16) + x, hi, true) == Value12(second, hi, true)
  {
    var k := second / 16 + 16 * hi;
    NibbleShift(k, x);
    NibbleShift(k, second % 16);
  }

  lemma EvenKept(lo: nat, first: nat, y: nat)
    requires lo < 256
    ensures Value12(lo, first % 16 + 16 * y, false) == Value12(lo, first, false)
  {
    var low := lo + 256 * (first % 16);
    Below4096(low, first / 16);
    Below4096(low, y);
  }
}
