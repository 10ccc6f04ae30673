/** The inflate decoder of tinf as it runs: a bit buffer refilled byte by byte, code tables filled
    in place, and a destination buffer written front to back. Every routine is proved against
    `DeflateFormat` and `CanonicalCode`. */
module Tinflate {
  import opened Words
  import opened BitStream
  import opened CanonicalCode

  datatype Status = TinfOk | DataError | BufError

  /** `struct tinf_tree`: symbols sorted by code, and how many codes there are of each length. */
  class Tree {
    const counts: array<nat>
    const symbols: array<nat>
    var maxSym: int

    constructor ()
      ensures Shaped() && fresh(counts) && fresh(symbols)
    {
      counts := new nat[16](_ => 0);
      symbols := new nat[288](_ => 0);
      maxSym := -1;
    }

    ghost predicate Shaped() {
      counts.Length == 16 && symbols.Length == 288 && counts != symbols
    }

    /** `maxSym` is the largest symbol with a code, or -1. */
    ghost predicate TopsAt(lens: seq<nat>)
      reads this
    {
      && -1 <= maxSym < |lens|
      && (maxSym >= 0 ==> lens[maxSym] > 0)
      && forall s :: maxSym < s < |lens| ==> lens[s] == 0
    }

    /** The table describes the canonical code of `lens`; a lone code is padded with a second
        one-bit code whose symbol is one too large. */
    ghost predicate Describes(lens: seq<nat>)
      reads this, counts, symbols
    {
      && Shaped()
      && ValidLengths(lens)
      && (Complete(lens) || Lone(lens))
      && counts[0] == 0
      && (forall l :: 1 <= l <= 15 ==> counts[l] == if Lone(lens) && l == 1 then 2 else CountOf(lens, l))
      && SymbolsSorted(lens, symbols[..])
      && (Lone(lens) ==> symbols[1] == maxSym + 1 && TopsAt(lens))
    }
  }

  /** Each symbol with a code sits at its place in the (length, value) order. */
  ghost predicate SymbolsSorted(lens: seq<nat>, symbols: seq<nat>) {
    forall s {:trigger Slot(lens, s)} :: 0 <= s < |lens| && lens[s] > 0 ==>
      Slot(lens, s) < |symbols| && symbols[Slot(lens, s)] == s
  }

  /** `struct tinf_data`. */
  class Data {
    const source: seq<byte>
    var pos: nat            // d->source, as an index
    var tag: nat            // bits read from the source and not yet consumed
    var bitcount: nat
    var overflow: bool
    ghost var at: nat       // position of the next unread bit, until an overflow
    const dest: array<byte>
    var destPos: nat        // d->dest - d->dest_start
    const destEnd: nat

    constructor (source: seq<byte>, dest: array<byte>, destLen: nat)
      requires destLen <= dest.Length
      ensures this.source == source && this.dest == dest && destEnd == destLen
      ensures Ready() && !overflow && at == 0 && destPos == 0
    {
      this.source, this.dest, destEnd := source, dest, destLen;
      pos, tag, bitcount, overflow, destPos, at := 0, 0, 0, false, 0, 0;
    }

    /** The buffer holds the `bitcount` bits before byte `pos`; after an overflow it holds junk. */
    ghost predicate Valid()
      reads this
    {
      && pos <= |source|
      && bitcount <= 32 && tag < Pow2(bitcount)
      && (overflow ==> pos == |source|)
      && (!overflow ==> at + bitcount == 8 * pos && tag == LsbValue(source, at, bitcount))
      && destPos <= destEnd <= dest.Length
    }

    /** Between reads fewer than eight bits stay buffered. */
    ghost predicate Ready()
      reads this
    {
      Valid() && bitcount < 8
    }

    /** tinf_refill. With fewer than eight bits buffered, up to 25 may be asked for. */
    method Refill(num: nat)
      requires Ready() && num <= 25
      modifies this`pos, this`tag, this`bitcount, this`overflow, this`at
      ensures Valid() && num <= bitcount
      ensures bitcount == old(bitcount) || bitcount < num + 8
      ensures old(overflow) ==> overflow
      ensures !old(overflow) ==> (overflow <==> old(at) + num > 8 * |source|)
      ensures !overflow ==> at == old(at)
    {
      while bitcount < num
        invariant Valid()
        invariant bitcount == old(bitcount) || bitcount < num + 8
        invariant old(overflow) ==> overflow
        invariant !old(overflow) && overflow ==> old(at) + num > 8 * |source|
        invariant !overflow ==> at == old(at)
      {
        if pos != |source| {
          PushByte();
        } else {
          Pow2Monotone(bitcount, bitcount + 8);
          overflow := true;
          bitcount := bitcount + 8;
        }
      }
    }

    /** One round of the refill loop that finds a byte. */
    method PushByte()
      requires Valid() && bitcount <= 24 && pos < |source|
      modifies this`pos, this`tag, this`bitcount
      ensures Valid() && pos == old(pos) + 1 && bitcount == old(bitcount) + 8
      ensures !overflow ==> at == old(at)
    {
      PushedTag(tag, source[pos], bitcount);
      if !overflow {
        PushedValue(source, pos, at, bitcount, tag);
      }
      tag := PushBits(tag, source[pos], bitcount);
      pos, bitcount := pos + 1, bitcount + 8;
    }

    /** tinf_getbits: refill, then take `num` bits off the low end of the buffer. */
    method GetBits(num: nat) returns (bits: nat)
      requires Ready() && num <= 25
      modifies this`pos, this`tag, this`bitcount, this`overflow, this`at
      ensures Ready() && bits < Pow2(num)
      ensures old(overflow) ==> overflow
      ensures !old(overflow) ==> (overflow <==> old(at) + num > 8 * |source|)
      ensures !overflow ==> at == old(at) + num && bits == LsbValue(source, old(at), num)
    {
      Refill(num);
      TakenTag(tag, num, bitcount);
      if !overflow {
        LsbTake(source, at, num, bitcount);
      }
      bits := BitAnd(tag, Shl(1, num) - 1);
      tag := Shr(tag, num);
      bitcount := bitcount - num;
      at := at + num;
    }

    /** tinf_getbits(d, 1). */
    method GetBit() returns (bit: nat)
      requires Ready()
      modifies this`pos, this`tag, this`bitcount, this`overflow, this`at
      ensures Ready() && bit <= 1
      ensures old(overflow) ==> overflow
      ensures !old(overflow) ==> (overflow <==> old(at) + 1 > 8 * |source|)
      ensures !overflow ==> at == old(at) + 1 && bit == BitAt(source, old(at))
    {
      bit := GetBits(1);
      if !overflow {
        LsbBit(source, old(at));
      }
    }

    /** tinf_getbits_base. */
    method GetBitsBase(num: nat, base: nat) returns (value: nat)
      requires Ready() && num <= 25
      modifies this`pos, this`tag, this`bitcount, this`overflow, this`at
      ensures Ready() && base <= value < base + Pow2(num)
      ensures old(overflow) ==> overflow
      ensures !old(overflow) ==> (overflow <==> old(at) + num > 8 * |source|)
      ensures !overflow ==>
        at == old(at) + num && value == base + LsbValue(source, old(at), num)
    {
      value := base;
      if num != 0 {
        var bits := GetBits(num);
        value := base + bits;
      } else if !overflow {
        assert at + num <= 8 * |source|;
      }
    }

    /** tinf_decode_symbol: the symbol at the index that the walk over the code lengths finds. */
    method DecodeSymbol(t: Tree, ghost lens: seq<nat>) returns (sym: nat)
      requires Ready() && t.Describes(lens)
      modifies this`pos, this`tag, this`bitcount, this`overflow, this`at
      ensures Ready()
      ensures old(overflow) ==> overflow
      ensures Padded(t, lens, sym) || (sym < |lens| && lens[sym] > 0)
      ensures !old(overflow) && (overflow || Padded(t, lens, sym)) ==>
        CanonicalCode.DecodeSymbol(lens, source, old(at)).None?
      ensures !overflow && !Padded(t, lens, sym) ==>
        CanonicalCode.DecodeSymbol(lens, source, old(at)) == Some((sym, at))
      ensures !overflow ==> old(at) < at <= old(at) + 15
    {
      var index;
      ghost var len, offs;
      index, len, offs := FindIndex(t, lens);
      SymbolInTable(t, lens, len, offs);
      sym := t.symbols[index];
      if !overflow {
        SymbolMatches(t, lens, source, old(at), len, offs);
      }
    }

    /** The bit number `len` of a code that starts at `p`. */
    method NextCodeBit(ghost lens: seq<nat>, ghost p: nat, ghost len: nat, ghost v: nat) returns (bit: nat)
      requires Ready() && len >= 1
      requires !overflow ==> at == p + len - 1 && AtBits(lens, source, p, len, v)
      modifies this`pos, this`tag, this`bitcount, this`overflow, this`at
      ensures Ready() && bit <= 1 && (old(overflow) ==> overflow)
      ensures !old(overflow) && overflow ==> CanonicalCode.DecodeSymbol(lens, source, p).None?
      ensures !overflow ==> at == p + len && 2 * v + bit == MsbValue(source, p, len)
      ensures !overflow && 2 * v + bit >= EndCode(lens, len) ==> AtBits(lens, source, p, len + 1, 2 * v + bit)
    {
      if !overflow {
        if p + len > 8 * |source| {
          TruncatedCode(lens, source, p, len);
        } else {
          BitsStep(lens, source, p, len, v);
        }
      }
      ghost var q := p + len - 1;
      bit := GetBit();
      assert !overflow ==> bit == BitAt(source, q);
    }

    /** The loop of tinf_decode_symbol: instead of the code itself, `base + offs` tracks its index
        in the sorted order of codes, one bit and one code length at a time. */
    method FindIndex(t: Tree, ghost lens: seq<nat>) returns (index: nat, ghost len: nat, ghost offs: nat)
      requires Ready() && t.Describes(lens)
      modifies this`pos, this`tag, this`bitcount, this`overflow, this`at
      ensures Ready()
      ensures old(overflow) ==> overflow
      ensures 1 <= len <= 15 && offs < t.counts[len] && (len > 1 ==> !Lone(lens))
      ensures index == Offset(lens, len) + offs
      ensures !old(overflow) && overflow ==>
        CanonicalCode.DecodeSymbol(lens, source, old(at)).None?
      ensures !overflow ==> at == old(at) + len
      ensures !overflow ==> MsbValue(source, old(at), len) == FirstCode(lens, len) + offs
    {
      var base: nat, offset: nat, length := 0, 0, 1;
      ghost var p: nat := if overflow then 0 else at;
      ghost var v: nat := 0;
      while true
        invariant Ready() && (old(overflow) ==> overflow)
        invariant AtLength(lens, length, base, offset, v)
        invariant !old(overflow) && overflow ==> CanonicalCode.DecodeSymbol(lens, source, p).None?
        invariant !overflow ==> at == p + length - 1 && AtBits(lens, source, p, length, v)
        decreases 15 - length
      {
        var bit := NextCodeBit(lens, p, length, v);
        IndexStep(t, lens, length, base, offset, v, bit);
        offset, v := 2 * offset + bit, 2 * v + bit;
        if offset < t.counts[length] {
          break;
        }
        base, offset := base + t.counts[length], offset - t.counts[length];
        length := length + 1;
      }
      index, len, offs := base + offset, length, offset;
    }
  }

  /** Before the bit number `len`: `base` codes are shorter, and the word `v` read so far lies
      `offset` past the codes of the previous length. */
  ghost predicate AtLength(lens: seq<nat>, len: nat, base: nat, offset: nat, v: nat) {
    && 1 <= len <= 15
    && (len > 1 ==> !Lone(lens))
    && v < Pow2(len - 1)
    && base == Offset(lens, len)
    && v == offset + EndCode(lens, len - 1)
  }

  /** The word `v` is the `len - 1` bits from `p`, and these spell no code. */
  ghost predicate AtBits(lens: seq<nat>, source: seq<byte>, p: nat, len: nat, v: nat) {
    len >= 1 && v == MsbValue(source, p, len - 1) && NoneShorter(lens, source, p, len)
  }

  lemma IndexStep(t: Tree, lens: seq<nat>, len: nat, base: nat, offset: nat, v: nat, bit: nat)
    requires t.Describes(lens) && AtLength(lens, len, base, offset, v) && bit <= 1
    ensures 2 * v + bit == 2 * offset + bit + FirstCode(lens, len)
    ensures 2 * offset + bit >= t.counts[len] ==>
      && AtLength(lens, len + 1, base + t.counts[len], 2 * offset + bit - t.counts[len], 2 * v + bit)
      && 2 * v + bit >= EndCode(lens, len)
  {
    if 2 * offset + bit >= t.counts[len] {
      WalkPast(t, lens, len, 2 * v + bit);
    }
  }

  lemma BitsStep(lens: seq<nat>, source: seq<byte>, p: nat, len: nat, v: nat)
    requires AtBits(lens, source, p, len, v)
    ensures var w := 2 * v + BitAt(source, p + len - 1);
      w == MsbValue(source, p, len) && (w >= EndCode(lens, len) ==> AtBits(lens, source, p, len + 1, w))
  {
    if MsbValue(source, p, len) >= EndCode(lens, len) {
      NoneShorterStep(lens, source, p, len);
    }
  }

  /** The symbol that a lone code's table gives for the bit 1: too large to be in use. */
  ghost predicate Padded(t: Tree, lens: seq<nat>, sym: nat)
    reads t
  {
    Lone(lens) && sym == t.maxSym + 1
  }

  /** `tag |= (unsigned int) b << k` on 32-bit words. */
  function PushBits(tag: nat, b: byte, k: nat): nat {
    BitOr(tag, Shl(b, k) % 0x1_0000_0000)
  }

  /** A byte shifted below bit 24 stays inside 32 bits, and lands above the buffered bits. */
  lemma PushedTag(tag: nat, b: byte, k: nat)
    requires tag < Pow2(k) && k <= 24
    ensures PushBits(tag, b, k) == tag + Shl(b, k) < Pow2(k + 8)
  {
    ByteFits(b, k);
    assert Shl(b, k) % 0x1_0000_0000 == Shl(b, k);
    OrDisjoint(tag, b, k);
  }

  lemma ByteFits(b: byte, k: nat)
    requires k <= 24
    ensures Shl(b, k) + Pow2(k) <= Pow2(k + 8) <= 0x1_0000_0000
  {
    Pow2At(8);
    ShlBound(b, 8, k);
    Pow2Monotone(k + 8, 32);
    Pow2At(32);
  }

  lemma PushedValue(source: seq<byte>, i: nat, p: nat, k: nat, tag: nat)
    requires k <= 24 && i < |source| && p + k == 8 * i && tag == LsbValue(source, p, k)
    ensures PushBits(tag, source[i], k) == LsbValue(source, p, k + 8)
  {
    LsbBound(source, p, k);
    PushedTag(tag, source[i], k);
    PushedBits(source, p, k, i, 8);
  }

  /** Reading the low `n` bits off a buffer of `k`. */
  lemma TakenTag(tag: nat, n: nat, k: nat)
    requires tag < Pow2(k) && n <= k
    ensures Shl(1, n) >= 1 && BitAnd(tag, Shl(1, n) - 1) == Low(tag, n) < Pow2(n)
    ensures Shr(tag, n) < Pow2(k - n)
  {
    AndMask(tag, n);
    ShrBound(tag, k, n);
  }

  lemma PushedBits(source: seq<byte>, q: nat, k: nat, i: nat, n: nat)
    requires q + k == 8 * i && i < |source| && n == 8
    ensures LsbValue(source, q, k + n) == LsbValue(source, q, k) + Shl(source[i], k)
  {
    ByteAtBit(source, q + k, i, n);
    AppendBits(source, q, k, n, source[i]);
  }

  lemma ByteAtBit(source: seq<byte>, q: nat, i: nat, n: nat)
    requires q == 8 * i && i < |source| && n == 8
    ensures LsbValue(source, q, n) == source[i]
  {
    LsbByte(source, i, n);
  }

  lemma AppendBits(source: seq<byte>, q: nat, k: nat, n: nat, b: nat)
    requires LsbValue(source, q + k, n) == b
    ensures LsbValue(source, q, k + n) == LsbValue(source, q, k) + Shl(b, k)
  {
    LsbSplit(source, q, k, n);
  }

  lemma LsbBit(source: seq<byte>, p: nat)
    ensures LsbValue(source, p, 1) == BitAt(source, p)
  {
    assert LsbValue(source, p + 1, 0) == 0;
  }

  /** A word beyond the codes of length `len` is not the longest: some longer code is left. */
  lemma WalkPast(t: Tree, lens: seq<nat>, len: nat, v: nat)
    requires t.Describes(lens) && 1 <= len <= 15 && v < Pow2(len)
    requires v >= FirstCode(lens, len) + t.counts[len]
    requires len > 1 ==> !Lone(lens)
    ensures len < 15 && !Lone(lens) && v >= EndCode(lens, len)
  {
    assert len == 1 ==> Pow2(len) == 2;
    if len == 15 {
      CompleteCovers(lens, len, v);
    }
  }

  /** What the table holds at index Offset(len) + offs: the symbol with that code, or the pad. */
  lemma SymbolInTable(t: Tree, lens: seq<nat>, len: nat, offs: nat)
    requires t.Describes(lens) && 1 <= len <= 15 && offs < t.counts[len]
    requires len > 1 ==> !Lone(lens)
    ensures Offset(lens, len) + offs < 288
    ensures Lone(lens) && offs == 1 ==> Padded(t, lens, t.symbols[Offset(lens, len) + offs])
    ensures !(Lone(lens) && offs == 1) ==>
      var sym := t.symbols[Offset(lens, len) + offs];
      && sym < |lens| && lens[sym] == len && CodeOf(lens, sym) == FirstCode(lens, len) + offs
      && !Padded(t, lens, sym)
  {
    if Lone(lens) {
      assert Offset(lens, 1) == 0;
    }
    if !(Lone(lens) && offs == 1) {
      var s := SymbolAt(lens, len, offs);
      SlotBound(lens, s);
      if Lone(lens) {
        LoneSame(lens, s, t.maxSym);
      }
    }
  }

  lemma SymbolMatches(t: Tree, lens: seq<nat>, source: seq<byte>, p: nat, len: nat, offs: nat)
    requires t.Describes(lens) && 1 <= len <= 15 && offs < t.counts[len]
    requires len > 1 ==> !Lone(lens)
    requires p + len <= 8 * |source| && MsbValue(source, p, len) == FirstCode(lens, len) + offs
    ensures Offset(lens, len) + offs < 288
    ensures var sym := t.symbols[Offset(lens, len) + offs];
      CanonicalCode.DecodeSymbol(lens, source, p) == if Padded(t, lens, sym) then None else Some((sym, p + len))
  {
    SymbolInTable(t, lens, len, offs);
    if Lone(lens) && offs == 1 {
      assert FirstCode(lens, 1) == 0;
      LoneOne(lens, source, p);
    } else {
      DecodeSymbolIs(lens, source, p, t.symbols[Offset(lens, len) + offs]);
    }
  }
}
