/** Section 3.2.7 of RFC 1951 lets a dynamic block declare up to 32 distance codes; the decoder
    refuses more than 30 on purpose. This is the meaning without that refusal, and the difference. */
module DeflateRfc {
  import opened Words
  import opened BitStream
  import opened DeflateFormat
  import opened Tinflate
  import opened TinfUncompress

  /** The number of distance codes that a dynamic block at `p` declares. */
  function DistanceCodes(src: seq<byte>, p: nat): nat {
    1 + LsbValue(src, p + 5, HdistBits)
  }

  /** Both dynamic codes, whatever the number of distance codes. */
  ghost function RfcCodes(src: seq<byte>, p: nat): (r: Option<(seq<nat>, seq<nat>, nat)>)
    ensures r.Some? ==> p <= r.value.2 <= 8 * |src|
  {
    if p + 14 > 8 * |src| then None
    else
      var hlit, hclen := 257 + LsbValue(src, p, HlitBits), 4 + LsbValue(src, p + 10, HclenBits);
      RfcFrom(src, p + 14, hlit, DistanceCodes(src, p), hclen)
  }

  ghost function RfcFrom(src: seq<byte>, p: nat, hlit: nat, hdist: nat, hclen: nat)
    : (r: Option<(seq<nat>, seq<nat>, nat)>)
    ensures r.Some? ==> p <= r.value.2 <= 8 * |src|
  {
    if hlit < 257 || hlit > 286 || hclen > 19 || p + 3 * hclen > 8 * |src| then None
    else DynamicWith(CodeLengthLengths(src, p, hclen), src, p + 3 * hclen, hlit, hdist)
  }

  ghost function RfcBlock(btype: nat, src: seq<byte>, p: nat, out: seq<byte>): (r: Option<(nat, seq<byte>)>)
    ensures r.Some? ==> p <= r.value.0 <= 8 * |src| && out <= r.value.1
  {
    if btype == 2 then
      match RfcCodes(src, p)
      case None => None
      case Some((ll, dl, q)) => Codes(ll, dl, src, q, out)
    else Block(btype, src, p, out)
  }

  ghost function RfcBlocks(src: seq<byte>, p: nat, out: seq<byte>): (r: Option<seq<byte>>)
    decreases 8 * |src| - p
  {
    if p + 3 > 8 * |src| then None
    else
      match RfcBlock(LsbValue(src, p + 1, 2), src, p + 3, out)
      case None => None
      case Some((q, out')) =>
        if LsbValue(src, p, 1) == 1 then Some(out') else RfcBlocks(src, q, out')
  }

  /** The bytes that a stream stands for by the text of the RFC. */
  ghost function RfcInflate(src: seq<byte>): Option<seq<byte>> {
    RfcBlocks(src, 0, [])
  }

  /** The block with header at `p` is dynamic and declares more than 30 distance codes. */
  predicate Declares(src: seq<byte>, p: nat, btype: nat) {
    btype == 2 && p + 14 <= 8 * |src| && DistanceCodes(src, p) > 30
  }

  /** A block that is reached from `p` does. */
  ghost predicate Excess(src: seq<byte>, p: nat, out: seq<byte>)
    decreases 8 * |src| - p
  {
    p + 3 <= 8 * |src| &&
    (Declares(src, p + 3, LsbValue(src, p + 1, 2)) ||
     match RfcBlock(LsbValue(src, p + 1, 2), src, p + 3, out)
     case None => false
     case Some((q, out')) => LsbValue(src, p, 1) != 1 && Excess(src, q, out'))
  }

  lemma BlockDiffers(btype: nat, src: seq<byte>, p: nat, out: seq<byte>)
    ensures Block(btype, src, p, out) == if Declares(src, p, btype) then None else RfcBlock(btype, src, p, out)
  {
    if btype == 2 && p + 14 <= 8 * |src| {
      CodesDiffer(src, p);
    }
  }

  lemma CodesDiffer(src: seq<byte>, p: nat)
    requires p + 14 <= 8 * |src|
    ensures DynamicCodes(src, p) == if DistanceCodes(src, p) > 30 then None else RfcCodes(src, p)
  {
  }

  /** The two meanings differ exactly where a block declares too many distance codes. */
  lemma {:induction false} BlocksDiffer(src: seq<byte>, p: nat, out: seq<byte>)
    ensures Blocks(src, p, out) == if Excess(src, p, out) then None else RfcBlocks(src, p, out)
    decreases 8 * |src| - p
  {
    if p + 3 <= 8 * |src| {
      var btype := LsbValue(src, p + 1, 2);
      BlockDiffers(btype, src, p + 3, out);
      match RfcBlock(btype, src, p + 3, out)
      case None =>
      case Some((q, out')) =>
        if !Declares(src, p + 3, btype) && LsbValue(src, p, 1) != 1 {
          BlocksDiffer(src, q, out');
        }
    }
  }

  /** So a stream is taken differently exactly if it has a meaning by the RFC and reaches such a block. */
  lemma InflateDiffers(src: seq<byte>)
    ensures Inflate(src) != RfcInflate(src) <==> Excess(src, 0, []) && RfcInflate(src).Some?
  {
    BlocksDiffer(src, 0, []);
  }

  /** tinf_uncompress in the terms of the RFC: success exactly when the source has a meaning, no block
      declares more than 30 distance codes, and the bytes fit. */
  method UncompressRfc(dest: array<byte>, destLen: nat, source: seq<byte>) returns (res: Status, newLen: nat)
    requires destLen <= dest.Length
    modifies dest
    ensures res == TinfOk <==>
      RfcInflate(source).Some? && !Excess(source, 0, []) && |RfcInflate(source).value| <= destLen
    ensures res == TinfOk ==> newLen <= destLen && dest[..newLen] == RfcInflate(source).value
    ensures forall k :: newLen <= k < dest.Length ==> dest[k] == old(dest[k])
  {
    BlocksDiffer(source, 0, []);
    res, newLen := Uncompress(dest, destLen, source);
  }
}
