/** Block decoding: matches and literals into the destination buffer, stored blocks and the dynamic
    code description. */
module TinflateBlocks {
  import opened Words
  import opened BitStream
  import opened CanonicalCode
  import opened DeflateFormat
  import opened Tinflate
  import opened TinflateTrees

  // ----- the tables of tinf_inflate_block_data -----

  type ExtraBits = x: int | 0 <= x <= 13

  const LENGTH_BITS: seq<ExtraBits> := [
    0, 0, 0, 0, 0, 0, 0, 0, 1, 1, 1, 1, 2, 2, 2, 2, 3, 3, 3, 3, 4, 4, 4, 4, 5, 5, 5, 5, 0]

  const LENGTH_BASE: seq<nat> := [
    3, 4, 5, 6, 7, 8, 9, 10, 11, 13, 15, 17, 19, 23, 27, 31, 35, 43, 51, 59,
    67, 83, 99, 115, 131, 163, 195, 227, 258]

  const DIST_BITS: seq<ExtraBits> := [
    0, 0, 0, 0, 1, 1, 2, 2, 3, 3, 4, 4, 5, 5, 6, 6, 7, 7, 8, 8, 9, 9, 10, 10, 11, 11, 12, 12, 13, 13]

  const DIST_BASE: seq<nat> := [
    1, 2, 3, 4, 5, 7, 9, 13, 17, 25, 33, 49, 65, 97, 129, 193, 257, 385, 513, 769,
    1025, 1537, 2049, 3073, 4097, 6145, 8193, 12289, 16385, 24577]

  /** The tables hold the ranges that the format defines. */
  lemma {:induction false} LengthTables(c: nat)
    requires c < 29
    ensures LENGTH_BITS[c] == LengthBits(c) && LENGTH_BASE[c] == LengthBase(c)
  {
    LengthBitsTable(c);
    if 0 < c < 28 {
      LengthTables(c - 1);
      LengthRecurrence(c);
      SmallPow2(LENGTH_BITS[c - 1]);
    }
  }

  lemma {:induction false} LengthBitsTable(c: nat)
    requires c < 29
    ensures LENGTH_BITS[c] == LengthBits(c)
  {
    if 8 <= c < 28 {
      LengthBitsTable(c - 4);
      assert LENGTH_BITS[c] == LENGTH_BITS[c - 4] + 1;
    }
  }

  lemma LengthRecurrence(c: nat)
    requires 0 < c < 28
    ensures LENGTH_BASE[c] == LENGTH_BASE[c - 1] + POWERS[LENGTH_BITS[c - 1]]
  {
  }

  lemma {:induction false} DistanceTables(c: nat)
    requires c < 30
    ensures DIST_BITS[c] == DistanceBits(c) && DIST_BASE[c] == DistanceBase(c)
  {
    DistanceBitsTable(c);
    if c > 0 {
      DistanceTables(c - 1);
      DistanceRecurrence(c);
      SmallPow2(DIST_BITS[c - 1]);
    }
  }

  lemma {:induction false} DistanceBitsTable(c: nat)
    requires c < 30
    ensures DIST_BITS[c] == DistanceBits(c)
  {
    if c >= 4 {
      DistanceBitsTable(c - 2);
      assert DIST_BITS[c] == DIST_BITS[c - 2] + 1;
    }
  }

  lemma DistanceRecurrence(c: nat)
    requires 0 < c < 30
    ensures DIST_BASE[c] == DIST_BASE[c - 1] + POWERS[DIST_BITS[c - 1]]
  {
  }

  const POWERS: seq<nat> := [1, 2, 4, 8, 16, 32, 64, 128, 256, 512, 1024, 2048, 4096, 8192]

  lemma {:induction false} SmallPow2(n: nat)
    requires n < 14
    ensures Pow2(n) == POWERS[n]
  {
    if n > 0 {
      SmallPow2(n - 1);
      assert POWERS[n] == 2 * POWERS[n - 1];
    }
  }

  // ----- trees as the block decoder uses them -----

  /** A literal/length table: every legal symbol with a code is at most maxSym. */
  ghost predicate LiteralTree(t: Tree, ll: seq<nat>)
    reads t, t.counts, t.symbols
  {
    && t.Describes(ll)
    && |ll| > 256 && ll[256] > 0
    && 256 <= t.maxSym <= 285
    && forall s :: t.maxSym < s < |ll| && s <= 285 ==> ll[s] == 0
  }

  /** A distance table, or the mark of a block without distance codes. */
  ghost predicate DistanceTree(t: Tree, dl: seq<nat>)
    reads t, t.counts, t.symbols
  {
    if t.maxSym == -1 then Empty(dl)
    else
      && t.Describes(dl)
      && 0 <= t.maxSym <= 29
      && forall s :: t.maxSym < s < |dl| && s <= 29 ==> dl[s] == 0
  }

  lemma {:induction false} EmptyHasNoCode(lens: seq<nat>, s: nat)
    requires Empty(lens) && s < |lens|
    ensures lens[s] == 0
  {
    if s < |lens| - 1 {
      EmptyHasNoCode(lens[..|lens| - 1], s);
    }
  }

  lemma EmptyDecodesNothing(lens: seq<nat>, src: seq<byte>, p: nat)
    requires Empty(lens)
    ensures CanonicalCode.DecodeSymbol(lens, src, p).None?
  {
    forall s: nat | s < |lens|
      ensures !Spells(lens, src, p, s)
    {
      EmptyHasNoCode(lens, s);
    }
    DecodeSymbolNone(lens, src, p);
  }

  // ----- matches -----

  /** The part of tinf_inflate_block_data that reads a match after its length symbol. */
  method ReadMatch(d: Data, dt: Tree, ghost dl: seq<nat>, bits: nat, base: nat)
    returns (ok: bool, length: nat, dist: nat)
    requires d.Ready() && DistanceTree(dt, dl) && dt.maxSym != -1 && bits <= 13
    modifies d`pos, d`tag, d`bitcount, d`overflow, d`at
    ensures d.Ready() && (old(d.overflow) ==> d.overflow)
    ensures ok ==> dist > 0
    ensures !old(d.overflow) && (d.overflow || !ok) ==>
      MatchWith(dl, d.source, old(d.at), bits, base).None?
    ensures !d.overflow && ok ==>
      MatchWith(dl, d.source, old(d.at), bits, base) == Some((length, dist, d.at))
  {
    ghost var p := d.at;
    length := d.GetBitsBase(bits, base);
    if !old(d.overflow) && d.overflow {
      TruncatedLength(dl, d.source, p, bits, base);
    }
    assert !d.overflow ==> d.at == p + bits;
    ok, dist := ReadDistance(d, dt, dl);
    if !d.overflow && ok {
      MatchWithIs(dl, d.source, p, bits, base, dist, d.at);
    } else if MatchDistance(dl, d.source, p + bits).None? {
      NoMatchWith(dl, d.source, p, bits, base);
    }
  }

  lemma NoMatchWith(dl: seq<nat>, src: seq<byte>, p: nat, bits: nat, base: nat)
    requires MatchDistance(dl, src, p + bits).None?
    ensures MatchWith(dl, src, p, bits, base).None?
  {
  }

  lemma TruncatedLength(dl: seq<nat>, src: seq<byte>, p: nat, bits: nat, base: nat)
    requires p + bits > 8 * |src|
    ensures MatchWith(dl, src, p, bits, base).None?
  {
  }

  lemma MatchWithIs(dl: seq<nat>, src: seq<byte>, p: nat, bits: nat, base: nat, dist: nat, q: nat)
    requires MatchDistance(dl, src, p + bits) == Some((dist, q))
    ensures MatchWith(dl, src, p, bits, base) == Some((base + LsbValue(src, p, bits), dist, q))
  {
  }

  /** Distance symbol, range check and extra bits. */
  method ReadDistance(d: Data, dt: Tree, ghost dl: seq<nat>) returns (ok: bool, dist: nat)
    requires d.Ready() && DistanceTree(dt, dl) && dt.maxSym != -1
    modifies d`pos, d`tag, d`bitcount, d`overflow, d`at
    ensures d.Ready() && (old(d.overflow) ==> d.overflow)
    ensures ok ==> dist > 0
    ensures !old(d.overflow) && (d.overflow || !ok) ==> MatchDistance(dl, d.source, old(d.at)).None?
    ensures !d.overflow && ok ==> MatchDistance(dl, d.source, old(d.at)) == Some((dist, d.at))
  {
    var sym := d.DecodeSymbol(dt, dl);
    if sym > dt.maxSym || sym > 29 {
      return false, 0;
    }
    DistanceTables(sym);
    dist := ReadExtended(d, DIST_BITS[sym], DIST_BASE[sym]);
    ok := true;
  }

  /** tinf_getbits_base against the value it reads. */
  method ReadExtended(d: Data, bits: nat, base: nat) returns (value: nat)
    requires d.Ready() && bits <= 13
    modifies d`pos, d`tag, d`bitcount, d`overflow, d`at
    ensures d.Ready() && (old(d.overflow) ==> d.overflow) && value >= base
    ensures !old(d.overflow) && d.overflow ==> ExtendedValue(d.source, old(d.at), bits, base).None?
    ensures !d.overflow ==> ExtendedValue(d.source, old(d.at), bits, base) == Some((value, d.at))
  {
    value := d.GetBitsBase(bits, base);
  }

  /** The copy loop: source and target may overlap, so later bytes can repeat earlier ones. */
  method CopyBytes(d: Data, length: nat, offs: nat)
    requires d.Valid() && 0 < offs <= d.destPos && d.destPos + length <= d.destEnd
    modifies d`destPos, d.dest
    ensures d.Valid() && d.destPos == old(d.destPos) + length
    ensures d.dest[..d.destPos] == CopyMatch(old(d.dest[..d.destPos]), offs, length)
    ensures forall k :: d.destPos <= k < d.dest.Length ==> d.dest[k] == old(d.dest[k])
  {
    var n := d.destPos;
    ghost var out := d.dest[..n];
    for i := 0 to length
      invariant d.destPos == n
      invariant d.dest[..n + i] == CopyMatch(out, offs, i)
      invariant forall k :: n + i <= k < d.dest.Length ==> d.dest[k] == old(d.dest[k])
    {
      ghost var before := d.dest[..n + i];
      d.dest[n + i] := d.dest[n + i - offs];
      assert d.dest[..n + i + 1] == before + [before[n + i - offs]];
    }
    d.destPos := n + length;
  }

  // ----- compressed blocks -----

  /** What a step or a block may do to the output: extend it, and leave the rest alone. */
  twostate predicate OutputGrows(d: Data)
    reads d, d.dest
  {
    && old(d.destPos) <= d.destPos <= d.destEnd <= d.dest.Length
    && forall k :: d.destPos <= k < d.dest.Length ==> d.dest[k] == old(d.dest[k])
  }

  datatype Step = Continue | Done(status: Status)

  /** One round of the loop of tinf_inflate_block_data. */
  method BlockStep(d: Data, lt: Tree, dt: Tree, ghost ll: seq<nat>, ghost dl: seq<nat>) returns (step: Step)
    requires d.Ready() && LiteralTree(lt, ll) && DistanceTree(dt, dl)
    modifies d, d.dest
    ensures d.Ready() && OutputGrows(d)
    ensures LiteralTree(lt, ll) && DistanceTree(dt, dl)
    ensures old(d.overflow) ==> step == Done(DataError)
    ensures !old(d.overflow) ==> StepMatches(step, Codes(ll, dl, d.source, old(d.at), old(d.dest[..d.destPos])), d, ll, dl)
    ensures !old(d.overflow) && step == Continue && !d.overflow ==> d.at > old(d.at)
    ensures step == Done(TinfOk) ==> !d.overflow && d.at > old(d.at)
  {
    ghost var p, out := d.at, d.dest[..d.destPos];
    var sym := d.DecodeSymbol(lt, ll);
    if d.overflow {
      return Done(DataError);
    }
    if sym < 256 {
      if d.destPos == d.destEnd {
        return Done(BufError);
      }
      d.dest[d.destPos] := sym;
      d.destPos := d.destPos + 1;
      assert d.dest[..d.destPos] == out + [sym];
      return Continue;
    }
    if sym == 256 {
      return Done(TinfOk);
    }
    if sym > lt.maxSym || sym - 257 > 28 {
      return Done(DataError);
    }
    if dt.maxSym == -1 {
      NoDistances(dl, d.source, d.at, sym);
      return Done(DataError);
    }
    LengthTables(sym - 257);
    var ok, length, dist := ReadMatch(d, dt, dl, LENGTH_BITS[sym - 257], LENGTH_BASE[sym - 257]);
    if !ok || dist > d.destPos {
      return Done(DataError);
    }
    if d.destEnd - d.destPos < length {
      return Done(BufError);
    }
    CopyBytes(d, length, dist);
    step := Continue;
  }

  /** A step agrees with the rest of the block that the format defines from the same point. */
  ghost predicate StepMatches(step: Step, whole: Option<(nat, seq<byte>)>, d: Data, ll: seq<nat>, dl: seq<nat>)
    reads d, d.dest
    requires d.destPos <= d.dest.Length
  {
    match step
    case Continue =>
      if d.overflow then whole.None? else whole == Codes(ll, dl, d.source, d.at, d.dest[..d.destPos])
    case Done(status) => StatusMatches(status, whole, d)
  }

  /** Success yields position and output; a data error means there is none; a buffer error means
      that the output, if there is one, does not fit. */
  ghost predicate StatusMatches(status: Status, whole: Option<(nat, seq<byte>)>, d: Data)
    reads d, d.dest
    requires d.destPos <= d.dest.Length
  {
    match status
    case TinfOk => !d.overflow && whole == Some((d.at, d.dest[..d.destPos]))
    case DataError => whole.None?
    case BufError => whole.Some? ==> |whole.value.1| > d.destEnd
  }

  lemma NoDistances(dl: seq<nat>, src: seq<byte>, p: nat, sym: nat)
    requires Empty(dl) && sym > 256
    ensures Match(dl, src, p, sym).None?
  {
    if sym <= 285 {
      EmptyDecodesNothing(dl, src, p + LengthBits(sym - 257));
    }
  }

  /** tinf_inflate_block_data. */
  method InflateBlockData(d: Data, lt: Tree, dt: Tree, ghost ll: seq<nat>, ghost dl: seq<nat>) returns (res: Status)
    requires d.Ready() && LiteralTree(lt, ll) && DistanceTree(dt, dl)
    modifies d, d.dest
    ensures d.Ready() && OutputGrows(d)
    ensures old(d.overflow) ==> res == DataError
    ensures !old(d.overflow) ==> StatusMatches(res, Codes(ll, dl, d.source, old(d.at), old(d.dest[..d.destPos])), d)
    ensures res == TinfOk ==> d.at > old(d.at)
  {
    ghost var whole := Codes(ll, dl, d.source, d.at, d.dest[..d.destPos]);
    while true
      invariant d.Ready() && LiteralTree(lt, ll) && DistanceTree(dt, dl)
      invariant OutputGrows(d)
      invariant old(d.overflow) ==> d.overflow
      invariant !old(d.overflow) ==> StepMatches(Continue, whole, d, ll, dl)
      invariant !d.overflow ==> d.at >= old(d.at)
      decreases if d.overflow then 0 else 8 * |d.source| + 1 - d.at
    {
      var step := BlockStep(d, lt, dt, ll, dl);
      if step.Done? {
        return step.status;
      }
    }
  }

  // ----- stored blocks -----

  /** read_le16. */
  method ReadLe16(source: seq<byte>, i: nat) returns (v: nat)
    requires i + 2 <= |source|
    ensures v == LittleEndian16(source, i)
  {
    Pow2At(8);
    OrDisjoint(source[i], source[i + 1], 8);
    var hi: nat := source[i + 1];
    Shl8(hi);
    v := BitOr(source[i], Shl(hi, 8));
  }

  /** tinf_inflate_uncompressed_block: reads bytes directly at the source pointer, which is the
      next byte boundary because fewer than eight bits are buffered. */
  method InflateUncompressedBlock(d: Data) returns (res: Status)
    requires d.Ready()
    modifies d, d.dest
    ensures res == TinfOk ==> d.Ready() && d.at >= old(d.at)
    ensures OutputGrows(d)
    ensures old(d.overflow) ==> res == DataError
    ensures !old(d.overflow) ==> StatusMatches(res, Stored(d.source, old(d.at), old(d.dest[..d.destPos])), d)
  {
    assert !d.overflow ==> (d.at + 7) / 8 == d.pos;
    if |d.source| - d.pos < 4 {
      return DataError;
    }
    var length := ReadLe16(d.source, d.pos);
    var invlength := ReadLe16(d.source, d.pos + 2);
    if length != 0xFFFF - invlength {  // ~invlength & 0xFFFF
      return DataError;
    }
    d.pos := d.pos + 4;
    if |d.source| - d.pos < length {
      return DataError;
    }
    if d.destEnd - d.destPos < length {
      return BufError;
    }
    CopyStored(d, length);
    d.tag, d.bitcount, d.at := 0, 0, 8 * d.pos;
    assert LsbValue(d.source, d.at, 0) == 0 && Pow2(0) == 1;
    res := TinfOk;
  }

  method CopyStored(d: Data, length: nat)
    requires d.pos + length <= |d.source| && d.destPos + length <= d.dest.Length
    modifies d`pos, d`destPos, d.dest
    ensures d.pos == old(d.pos) + length && d.destPos == old(d.destPos) + length
    ensures d.dest[..d.destPos] == old(d.dest[..d.destPos]) + d.source[old(d.pos)..d.pos]
    ensures forall k :: d.destPos <= k < d.dest.Length ==> d.dest[k] == old(d.dest[k])
  {
    var left := length;
    ghost var p, n, out := d.pos, d.destPos, d.dest[..d.destPos];
    while left != 0
      invariant 0 <= left <= length
      invariant d.pos == p + length - left && d.destPos == n + length - left
      invariant d.dest[..d.destPos] == out + d.source[p..d.pos]
      invariant forall k :: d.destPos <= k < d.dest.Length ==> d.dest[k] == old(d.dest[k])
    {
      ghost var before := d.dest[..d.destPos];
      d.dest[d.destPos] := d.source[d.pos];
      d.destPos, d.pos, left := d.destPos + 1, d.pos + 1, left - 1;
      assert d.dest[..d.destPos] == before + [d.source[d.pos - 1]];
    }
  }

  // ----- dynamic codes -----

  /** Read the lengths of the code-length alphabet in their transmission order. */
  method ReadCodeLengthCode(d: Data, lengths: array<nat>, hclen: nat)
    requires d.Ready() && lengths.Length == 320 && hclen <= 19
    modifies d`pos, d`tag, d`bitcount, d`overflow, d`at, lengths
    ensures d.Ready() && (old(d.overflow) ==> d.overflow)
    ensures forall k :: 0 <= k < 19 ==> lengths[k] <= 7
    ensures !old(d.overflow) ==> (d.overflow <==> old(d.at) + 3 * hclen > 8 * |d.source|)
    ensures !d.overflow ==> d.at == old(d.at) + 3 * hclen
    ensures !d.overflow ==> lengths[..19] == CodeLengthLengths(d.source, old(d.at), hclen)
  {
    for i := 0 to 19
      invariant forall k :: 0 <= k < i ==> lengths[k] == 0
      invariant d.Ready() && d.overflow == old(d.overflow) && d.at == old(d.at)
    {
      lengths[i] := 0;
    }
    ghost var p := d.at;
    assert lengths[..19] == CodeLengthLengths(d.source, p, 0);
    for i := 0 to hclen
      invariant d.Ready() && (old(d.overflow) ==> d.overflow)
      invariant forall k :: 0 <= k < 19 ==> lengths[k] <= 7
      invariant !old(d.overflow) && d.overflow ==> p + 3 * hclen > 8 * |d.source|
      invariant !d.overflow ==> d.at == p + 3 * i
      invariant !d.overflow ==> lengths[..19] == CodeLengthLengths(d.source, p, i)
    {
      ReadCodeLength(d, lengths, i, p);
    }
  }

  lemma EightValues(bits: nat)
    requires bits == 3
    ensures Pow2(bits) == 8
  {
    assert Pow2(bits - 2) == 2;
  }

  /** One of these lengths. */
  method ReadCodeLength(d: Data, lengths: array<nat>, i: nat, ghost p: nat)
    requires d.Ready() && lengths.Length == 320 && i < 19
    requires forall k :: 0 <= k < 19 ==> lengths[k] <= 7
    requires !d.overflow ==> d.at == p + 3 * i && lengths[..19] == CodeLengthLengths(d.source, p, i)
    modifies d`pos, d`tag, d`bitcount, d`overflow, d`at, lengths
    ensures d.Ready() && (old(d.overflow) ==> d.overflow)
    ensures forall k :: 0 <= k < 19 ==> lengths[k] <= 7
    ensures !old(d.overflow) && d.overflow ==> p + 3 * i + 3 > 8 * |d.source|
    ensures !d.overflow ==> d.at == p + 3 * i + 3 && lengths[..19] == CodeLengthLengths(d.source, p, i + 1)
  {
    ghost var before := lengths[..19];
    EightValues(CodeLengthBits);
    var clen := d.GetBits(CodeLengthBits);
    lengths[CODE_LENGTH_ORDER[i]] := clen;
    assert lengths[..19] == before[CODE_LENGTH_ORDER[i] := clen];
  }

  /** One symbol of the code-length code with its repeat count. */
  method ReadLengthItem(d: Data, lt: Tree, ghost cl: seq<nat>, prev: Option<nat>)
    returns (ok: bool, value: nat, length: nat)
    requires d.Ready() && lt.Describes(cl) && lt.TopsAt(cl) && |cl| == 19
    requires prev.Some? ==> prev.value <= 15
    modifies d`pos, d`tag, d`bitcount, d`overflow, d`at
    ensures d.Ready() && (old(d.overflow) ==> d.overflow)
    ensures ok ==> value <= 15 && length > 0
    ensures !old(d.overflow) && (d.overflow || !ok) ==> LengthItem(cl, d.source, old(d.at), prev).None?
    ensures !d.overflow && ok ==> LengthItem(cl, d.source, old(d.at), prev) == Some((value, length, d.at))
  {
    var sym := d.DecodeSymbol(lt, cl);
    if sym > lt.maxSym {
      return false, 0, 0;
    }
    var bits, base := 0, 1;
    value := sym;
    if sym == 16 {
      if prev.None? {
        return false, 0, 0;
      }
      value, bits, base := prev.value, 2, 3;
    } else if sym == 17 {
      value, bits, base := 0, 3, 3;
    } else if sym == 18 {
      value, bits, base := 0, 7, 11;
    }
    length := ReadExtended(d, bits, base);
    ok := true;
  }

  /** The loop over run-length items until `total` code lengths are known. */
  method ReadLengthRuns(d: Data, lt: Tree, ghost cl: seq<nat>, lengths: array<nat>, total: nat) returns (ok: bool)
    requires d.Ready() && lt.Describes(cl) && lt.TopsAt(cl) && |cl| == 19
    requires lengths.Length == 320 && total <= 320 && lengths != lt.counts && lengths != lt.symbols
    modifies d`pos, d`tag, d`bitcount, d`overflow, d`at, lengths
    ensures d.Ready() && (old(d.overflow) ==> d.overflow)
    ensures ok ==> forall k :: 0 <= k < total ==> lengths[k] <= 15
    ensures !old(d.overflow) && (d.overflow || !ok) ==> LengthRuns(cl, d.source, old(d.at), [], total).None?
    ensures !d.overflow && ok ==> LengthRuns(cl, d.source, old(d.at), [], total) == Some((lengths[..total], d.at))
  {
    var num := 0;
    ghost var whole := LengthRuns(cl, d.source, d.at, [], total);
    assert lengths[..num] == [];
    while num < total
      invariant d.Ready() && (old(d.overflow) ==> d.overflow)
      invariant num <= total
      invariant forall k :: 0 <= k < num ==> lengths[k] <= 15
      invariant !old(d.overflow) && d.overflow ==> whole.None?
      invariant !d.overflow ==> whole == LengthRuns(cl, d.source, d.at, lengths[..num], total)
      decreases total - num
    {
      var good;
      good, num := ReadLengthRun(d, lt, cl, lengths, num, total);
      if !good {
        return false;
      }
    }
    ok := true;
  }

  /** One round of that loop: an item, the bound check and the fill. */
  method ReadLengthRun(d: Data, lt: Tree, ghost cl: seq<nat>, lengths: array<nat>, num: nat, total: nat)
    returns (ok: bool, next: nat)
    requires d.Ready() && lt.Describes(cl) && lt.TopsAt(cl) && |cl| == 19
    requires lengths.Length == 320 && num < total <= 320
    requires forall k :: 0 <= k < num ==> lengths[k] <= 15
    modifies d`pos, d`tag, d`bitcount, d`overflow, d`at, lengths
    ensures d.Ready() && (old(d.overflow) ==> d.overflow)
    ensures ok ==> num < next <= total && forall k :: 0 <= k < next ==> lengths[k] <= 15
    ensures !old(d.overflow) && (d.overflow || !ok) ==>
      LengthRuns(cl, d.source, old(d.at), old(lengths[..num]), total).None?
    ensures !d.overflow && ok ==>
      LengthRuns(cl, d.source, old(d.at), old(lengths[..num]), total) ==
      LengthRuns(cl, d.source, d.at, lengths[..next], total)
  {
    var prev := if num == 0 then None else Some(lengths[num - 1]);
    ghost var acc, p := lengths[..num], d.at;
    var good, value, length := ReadLengthItem(d, lt, cl, prev);
    ghost var item := if !d.overflow && good then Some((value, length, d.at)) else None;
    if !old(d.overflow) {
      RunStep(cl, d.source, p, acc, total, prev, item);
    }
    if !good || length > total - num {
      return false, num;
    }
    FillRun(lengths, num, value, length);
    ok, next := true, num + length;
  }

  /** What one item does to the lengths read so far. */
  lemma RunStep(cl: seq<nat>, src: seq<byte>, p: nat, acc: seq<nat>, total: nat, prev: Option<nat>,
                item: Option<(nat, nat, nat)>)
    requires |acc| < total && prev == (if |acc| == 0 then None else Some(acc[|acc| - 1]))
    requires item == LengthItem(cl, src, p, prev)
    ensures LengthRuns(cl, src, p, acc, total) ==
      match item
      case None => None
      case Some((l, n, p1)) =>
        if n > total - |acc| then None else LengthRuns(cl, src, p1, acc + Repeat(l, n), total)
  {
  }

  method FillRun(lengths: array<nat>, num: nat, value: nat, length: nat)
    requires num + length <= lengths.Length
    modifies lengths
    ensures lengths[..num + length] == old(lengths[..num]) + Repeat(value, length)
  {
    for i := 0 to length
      invariant forall k :: 0 <= k < num ==> lengths[k] == old(lengths[k])
      invariant forall k :: num <= k < num + i ==> lengths[k] == value
    {
      lengths[num + i] := value;
    }
  }

  /** tinf_decode_trees after the three counts are read. */
  method DecodeTreesBody(d: Data, lt: Tree, dt: Tree, hlit: nat, hdist: nat, hclen: nat)
    returns (res: Status, ghost ll: seq<nat>, ghost dl: seq<nat>)
    requires d.Ready() && SeparateTrees(lt, dt)
    requires 257 <= hlit <= 286 && 1 <= hdist <= 30 && hclen <= 19
    modifies d`pos, d`tag, d`bitcount, d`overflow, d`at
    modifies lt, lt.counts, lt.symbols, dt, dt.counts, dt.symbols
    ensures d.Ready() && (old(d.overflow) ==> d.overflow)
    ensures res == TinfOk ==> LiteralTree(lt, ll) && DistanceTree(dt, dl)
    ensures !old(d.overflow) && (d.overflow || res != TinfOk) ==>
      DynamicFrom(d.source, old(d.at), hlit, hdist, hclen).None?
    ensures !d.overflow && res == TinfOk ==>
      DynamicFrom(d.source, old(d.at), hlit, hdist, hclen) == Some((ll, dl, d.at))
  {
    var lengths := new nat[288 + 32](_ => 0);
    ReadCodeLengthCode(d, lengths, hclen);
    if !d.overflow {
      AfterCodeLengths(d.source, old(d.at), hlit, hdist, hclen, lengths[..19]);
    }
    res, ll, dl := DecodeLengths(d, lt, dt, lengths, hlit, hdist);
  }

  lemma AfterCodeLengths(src: seq<byte>, p: nat, hlit: nat, hdist: nat, hclen: nat, cl: seq<nat>)
    requires 257 <= hlit <= 286 && hdist <= 30 && hclen <= 19 && p + 3 * hclen <= 8 * |src|
    requires cl == CodeLengthLengths(src, p, hclen)
    ensures DynamicFrom(src, p, hlit, hdist, hclen) == DynamicWith(cl, src, p + 3 * hclen, hlit, hdist)
  {
  }

  /** The code-length tree, the lengths it encodes, and the two trees for these lengths. */
  method DecodeLengths(d: Data, lt: Tree, dt: Tree, lengths: array<nat>, hlit: nat, hdist: nat)
    returns (res: Status, ghost ll: seq<nat>, ghost dl: seq<nat>)
    requires d.Ready() && SeparateTrees(lt, dt) && 257 <= hlit <= 286 && 1 <= hdist <= 30
    requires lengths.Length == 320 && lengths !in {lt.counts, lt.symbols, dt.counts, dt.symbols}
    requires forall k :: 0 <= k < 19 ==> lengths[k] <= 7
    modifies d`pos, d`tag, d`bitcount, d`overflow, d`at
    modifies lt, lt.counts, lt.symbols, dt, dt.counts, dt.symbols, lengths
    ensures d.Ready() && (old(d.overflow) ==> d.overflow)
    ensures res == TinfOk ==> LiteralTree(lt, ll) && DistanceTree(dt, dl)
    ensures !old(d.overflow) && (d.overflow || res != TinfOk) ==>
      DynamicWith(old(lengths[..19]), d.source, old(d.at), hlit, hdist).None?
    ensures !d.overflow && res == TinfOk ==>
      DynamicWith(old(lengths[..19]), d.source, old(d.at), hlit, hdist) == Some((ll, dl, d.at))
  {
    ll, dl := [], [];
    var cl := lengths[..19];
    res := BuildTree(lt, cl);
    if res != TinfOk {
      return;
    }
    if lt.maxSym == -1 {
      EmptyHasNoRuns(cl, d.source, d.at, hlit + hdist);
      return DataError, ll, dl;
    }
    var ok := ReadLengthRuns(d, lt, cl, lengths, hlit + hdist);
    if !ok {
      return DataError, ll, dl;
    }
    ghost var lens := lengths[..hlit + hdist];
    assert lengths[..hlit] == lens[..hlit] && lengths[hlit..hlit + hdist] == lens[hlit..];
    res, ll, dl := BuildDynamicTrees(lt, dt, lengths[..hlit], lengths[hlit..hlit + hdist]);
    assert !d.overflow ==> DynamicWith(cl, d.source, old(d.at), hlit, hdist) == SplitLengths(lens, hlit, d.at);
  }

  ghost predicate SeparateTrees(lt: Tree, dt: Tree) {
    lt.Shaped() && dt.Shaped() && lt != dt && {lt.counts, lt.symbols} !! {dt.counts, dt.symbols}
  }

  /** End of tinf_decode_trees: the end-of-block symbol must have a code; then build both trees. */
  method BuildDynamicTrees(lt: Tree, dt: Tree, lits: seq<nat>, dists: seq<nat>)
    returns (res: Status, ghost ll: seq<nat>, ghost dl: seq<nat>)
    requires SeparateTrees(lt, dt)
    requires 257 <= |lits| <= 286 && |dists| <= 30 && ValidLengths(lits) && ValidLengths(dists)
    modifies lt, lt.counts, lt.symbols, dt, dt.counts, dt.symbols
    ensures ll == lits && dl == dists
    ensures res == TinfOk <==> lits[256] > 0 && Acceptable(lits) && Acceptable(dists)
    ensures res == TinfOk ==> LiteralTree(lt, ll) && DistanceTree(dt, dl)
  {
    ll, dl := lits, dists;
    if lits[256] == 0 {
      return DataError, ll, dl;
    }
    res := BuildTree(lt, lits);
    if res != TinfOk {
      return;
    }
    NotEmpty(lits, 256);
    res := BuildTree(dt, dists);
  }

  lemma NotEmpty(lens: seq<nat>, s: nat)
    requires s < |lens| && lens[s] > 0
    ensures !Empty(lens)
  {
    if Empty(lens) {
      EmptyHasNoCode(lens, s);
    }
  }

  lemma EmptyHasNoRuns(cl: seq<nat>, src: seq<byte>, p: nat, total: nat)
    requires Empty(cl) && total > 0
    ensures LengthRuns(cl, src, p, [], total).None?
  {
    EmptyDecodesNothing(cl, src, p);
  }

  /** tinf_decode_trees. */
  method DecodeTrees(d: Data, lt: Tree, dt: Tree) returns (res: Status, ghost ll: seq<nat>, ghost dl: seq<nat>)
    requires d.Ready() && SeparateTrees(lt, dt)
    modifies d`pos, d`tag, d`bitcount, d`overflow, d`at
    modifies lt, lt.counts, lt.symbols, dt, dt.counts, dt.symbols
    ensures d.Ready() && (old(d.overflow) ==> d.overflow)
    ensures res == TinfOk ==> LiteralTree(lt, ll) && DistanceTree(dt, dl)
    ensures !old(d.overflow) && (d.overflow || res != TinfOk) ==> DynamicCodes(d.source, old(d.at)).None?
    ensures !d.overflow && res == TinfOk ==> DynamicCodes(d.source, old(d.at)) == Some((ll, dl, d.at))
  {
    var hlit, hdist, hclen := ReadCounts(d);
    if hlit > 286 || hdist > 30 {
      return DataError, [], [];
    }
    res, ll, dl := DecodeTreesBody(d, lt, dt, hlit, hdist, hclen);
  }

  method ReadCounts(d: Data) returns (hlit: nat, hdist: nat, hclen: nat)
    requires d.Ready()
    modifies d`pos, d`tag, d`bitcount, d`overflow, d`at
    ensures d.Ready() && (old(d.overflow) ==> d.overflow)
    ensures 257 <= hlit && 1 <= hdist && hclen <= 19
    ensures !old(d.overflow) && d.overflow ==> DynamicCodes(d.source, old(d.at)).None?
    ensures !d.overflow ==>
      DynamicCodes(d.source, old(d.at)) == DynamicFrom(d.source, d.at, hlit, hdist, hclen)
  {
    ghost var p := d.at;
    hlit := d.GetBitsBase(HlitBits, 257);
    assert !d.overflow ==> d.at == p + 5;
    hdist := d.GetBitsBase(HdistBits, 1);
    assert !d.overflow ==> d.at == p + 10;
    hclen := d.GetBitsBase(HclenBits, 4);
    Pow2At(HclenBits);
    if !d.overflow {
      CountsAre(d.source, p, d.at, hlit, hdist, hclen);
    }
  }

  lemma CountsAre(src: seq<byte>, p: nat, q: nat, hlit: nat, hdist: nat, hclen: nat)
    requires q == p + 14 <= 8 * |src|
    requires hlit == 257 + LsbValue(src, p, HlitBits) && hdist == 1 + LsbValue(src, p + 5, HdistBits)
    requires hclen == 4 + LsbValue(src, p + 10, HclenBits)
    ensures DynamicCodes(src, p) == DynamicFrom(src, q, hlit, hdist, hclen)
  {
  }
}
