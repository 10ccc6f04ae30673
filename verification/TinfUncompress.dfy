/** tinf_uncompress: the whole decoder against the meaning of the whole stream. */
module TinfUncompress {
  import opened Words
  import opened BitStream
  import opened DeflateFormat
  import opened Tinflate
  import opened TinflateTrees
  import opened TinflateBlocks

  /** tinf_inflate_fixed_block. */
  method InflateFixedBlock(d: Data, lt: Tree, dt: Tree) returns (res: Status)
    requires d.Ready() && SeparateTrees(lt, dt)
    modifies d, d.dest, lt, lt.counts, lt.symbols, dt, dt.counts, dt.symbols
    ensures d.Ready() && OutputGrows(d)
    ensures old(d.overflow) ==> res == DataError
    ensures res == TinfOk ==> d.at > old(d.at)
    ensures !old(d.overflow) ==> StatusMatches(res,
      Codes(FixedLiteralLengths(), FixedDistanceLengths(), d.source, old(d.at), old(d.dest[..d.destPos])), d)
  {
    BuildFixedTrees(lt, dt);
    res := InflateBlockData(d, lt, dt, FixedLiteralLengths(), FixedDistanceLengths());
  }

  /** tinf_inflate_dynamic_block. */
  method InflateDynamicBlock(d: Data, lt: Tree, dt: Tree) returns (res: Status)
    requires d.Ready() && SeparateTrees(lt, dt)
    modifies d, d.dest, lt, lt.counts, lt.symbols, dt, dt.counts, dt.symbols
    ensures d.Ready() && OutputGrows(d)
    ensures old(d.overflow) ==> res != TinfOk
    ensures res == TinfOk ==> d.at >= old(d.at)
    ensures !old(d.overflow) ==> StatusMatches(res, Dynamic(d.source, old(d.at), old(d.dest[..d.destPos])), d)
  {
    ghost var ll, dl;
    res, ll, dl := DecodeTrees(d, lt, dt);
    if res != TinfOk {
      return DataError;
    }
    res := InflateBlockData(d, lt, dt, ll, dl);
  }

  /** `r` is what the block at `p` yields, said so that the block's definition stays folded. */
  ghost predicate BlockYields(btype: nat, src: seq<byte>, p: nat, out: seq<byte>, r: Option<(nat, seq<byte>)>) {
    forall b {:trigger Block(b, src, p, out)} :: b == btype ==> Block(b, src, p, out) == r
  }

  /** `whole` is what the rest of the stream from `p` on stands for. */
  ghost predicate StandsFor(src: seq<byte>, p: nat, out: seq<byte>, whole: Option<seq<byte>>) {
    forall q {:trigger Blocks(src, q, out)} :: q == p ==> Blocks(src, q, out) == whole
  }

  /** The switch on the block type. */
  method InflateBlock(d: Data, btype: nat, lt: Tree, dt: Tree, ghost r: Option<(nat, seq<byte>)>) returns (res: Status)
    requires d.Ready() && SeparateTrees(lt, dt)
    requires !d.overflow ==> BlockYields(btype, d.source, d.at, d.dest[..d.destPos], r)
    modifies d, d.dest, lt, lt.counts, lt.symbols, dt, dt.counts, dt.symbols
    ensures OutputGrows(d)
    ensures old(d.overflow) ==> res != TinfOk
    ensures res == TinfOk ==> d.Ready() && d.at >= old(d.at)
    ensures !old(d.overflow) ==> StatusMatches(res, r, d)
  {
    assert !d.overflow ==> Block(btype, d.source, d.at, d.dest[..d.destPos]) == r;
    if btype == 0 {
      res := InflateUncompressedBlock(d);
    } else if btype == 1 {
      res := InflateFixedBlock(d, lt, dt);
    } else if btype == 2 {
      res := InflateDynamicBlock(d, lt, dt);
    } else {
      res := DataError;
    }
  }

  /** The rest of a stream begins with a block. */
  lemma FirstBlock(src: seq<byte>, p: nat, out: seq<byte>, whole: Option<seq<byte>>, bfinal: nat, btype: nat)
    returns (r: Option<(nat, seq<byte>)>)
    requires StandsFor(src, p, out, whole) && p + 3 <= 8 * |src|
    requires HeaderIs(src, p, bfinal, btype) && bfinal < 2
    ensures BlockYields(btype, src, p + 3, out, r)
    ensures r.None? ==> whole.None?
    ensures r.Some? ==>
      if bfinal != 0 then whole == Some(r.value.1)
      else StandsFor(src, r.value.0, r.value.1, whole) && (whole.Some? ==> r.value.1 <= whole.value)
  {
    r := Block(btype, src, p + 3, out);
    assert bfinal == LsbValue(src, p, 1) && btype == LsbValue(src, p + 1, 2);
    assert Blocks(src, p, out) == whole;
  }

  lemma TooShort(src: seq<byte>, p: nat, out: seq<byte>, whole: Option<seq<byte>>)
    requires StandsFor(src, p, out, whole) && p + 3 > 8 * |src|
    ensures whole.None?
  {
    assert Blocks(src, p, out) == whole;
  }

  /** One block with its three header bits. */
  method InflateNextBlock(d: Data, lt: Tree, dt: Tree, ghost whole: Option<seq<byte>>) returns (bfinal: nat, res: Status)
    requires d.Ready() && !d.overflow && SeparateTrees(lt, dt)
    requires StandsFor(d.source, d.at, d.dest[..d.destPos], whole)
    modifies d, d.dest, lt, lt.counts, lt.symbols, dt, dt.counts, dt.symbols
    ensures OutputGrows(d)
    ensures res == TinfOk ==> d.Ready() && !d.overflow && d.at > old(d.at)
    ensures BlockMatches(bfinal, res, whole, d)
  {
    ghost var p, out, r: Option<(nat, seq<byte>)> := d.at, d.dest[..d.destPos], None;
    var btype;
    bfinal, btype := BlockHeader(d);
    if d.overflow {
      TooShort(d.source, p, out, whole);
    } else {
      r := FirstBlock(d.source, p, out, whole, bfinal, btype);
    }
    res := InflateBlock(d, btype, lt, dt, r);
  }

  /** One bit at `p` and two after it. */
  ghost predicate HeaderIs(src: seq<byte>, p: nat, bfinal: nat, btype: nat) {
    forall q, n {:trigger LsbValue(src, q, n)} ::
      (q == p && n == 1 ==> bfinal == LsbValue(src, q, n)) && (q == p + 1 && n == 2 ==> btype == LsbValue(src, q, n))
  }

  /** The final flag and the type of a block. */
  method BlockHeader(d: Data) returns (bfinal: nat, btype: nat)
    requires d.Ready() && !d.overflow
    modifies d`pos, d`tag, d`bitcount, d`overflow, d`at
    ensures d.Ready() && (d.overflow <==> old(d.at) + 3 > 8 * |d.source|)
    ensures !d.overflow ==> d.at == old(d.at) + 3 && HeaderIs(d.source, old(d.at), bfinal, btype) && bfinal < 2
  {
    bfinal := d.GetBits(1);
    btype := d.GetBits(2);
  }

  /** A block agrees with the rest of the stream from its start. */
  ghost predicate BlockMatches(bfinal: nat, res: Status, whole: Option<seq<byte>>, d: Data)
    reads d, d.dest
    requires d.destPos <= d.dest.Length
  {
    match res
    case TinfOk =>
      if bfinal != 0 then whole == Some(d.dest[..d.destPos]) else StandsFor(d.source, d.at, d.dest[..d.destPos], whole)
    case DataError => whole.None?
    case BufError => whole.Some? ==> |whole.value| > d.destEnd
  }

  /** The block loop of tinf_uncompress. */
  method InflateBlocks(d: Data, lt: Tree, dt: Tree) returns (res: Status)
    requires d.Ready() && !d.overflow && SeparateTrees(lt, dt)
    modifies d, d.dest, lt, lt.counts, lt.symbols, dt, dt.counts, dt.symbols
    ensures OutputGrows(d)
    ensures StreamMatches(res, Blocks(d.source, old(d.at), old(d.dest[..d.destPos])), d)
  {
    ghost var whole := Blocks(d.source, d.at, d.dest[..d.destPos]);
    while true
      invariant d.Ready() && !d.overflow && OutputGrows(d)
      invariant StandsFor(d.source, d.at, d.dest[..d.destPos], whole)
      decreases 8 * |d.source| - d.at
    {
      var bfinal;
      bfinal, res := InflateNextBlock(d, lt, dt, whole);
      if res != TinfOk || bfinal != 0 {
        return;
      }
    }
  }

  ghost predicate StreamMatches(res: Status, whole: Option<seq<byte>>, d: Data)
    reads d, d.dest
    requires d.destPos <= d.dest.Length
  {
    match res
    case TinfOk => whole == Some(d.dest[..d.destPos])
    case DataError => whole.None?
    case BufError => whole.Some? ==> |whole.value| > d.destEnd
  }

  /** tinf_uncompress. Success exactly when the source is a well-formed stream whose bytes fit; then
      these bytes are in the destination. A well-formed stream that does not fit is a buffer error. */
  method Uncompress(dest: array<byte>, destLen: nat, source: seq<byte>) returns (res: Status, newLen: nat)
    requires destLen <= dest.Length
    modifies dest
    ensures res == TinfOk <==> Inflate(source).Some? && |Inflate(source).value| <= destLen
    ensures res == TinfOk ==> newLen <= destLen && dest[..newLen] == Inflate(source).value
    ensures Inflate(source).Some? && |Inflate(source).value| > destLen ==> res == BufError
    ensures res != TinfOk ==> newLen == destLen
    ensures forall k :: newLen <= k < dest.Length ==> dest[k] == old(dest[k])
  {
    var d := new Data(source, dest, destLen);
    var lt := new Tree();
    var dt := new Tree();
    assert d.dest[..0] == [];
    res := InflateBlocks(d, lt, dt);
    newLen := if res == TinfOk then d.destPos else destLen;
  }
}
