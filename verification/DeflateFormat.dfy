/** A pure decoder for the DEFLATE format (sections 3.2.3 to 3.2.7 of RFC 1951) over the bits of
    a byte string. `None` means that the string is not a well-formed stream: a read past the end,
    a reserved value, a code that does not exist or a distance that reaches before the output. */
module DeflateFormat {
  import opened Words
  import opened BitStream
  import opened CanonicalCode

  // ----- the code ranges of section 3.2.5: each range starts where the previous one ends -----

  /** Extra bits of length code 257 + c: one more after every fourth code. */
  function LengthBits(c: nat): nat {
    if c < 8 || c == 28 then 0 else LengthBits(c - 4) + 1
  }

  /** Smallest length of code 257 + c; the last code stands for 258 alone. */
  function LengthBase(c: nat): nat {
    if c == 0 then 3 else if c == 28 then 258 else LengthBase(c - 1) + Pow2(LengthBits(c - 1))
  }

  /** Extra bits of distance code c: one more after every second code. */
  function DistanceBits(c: nat): nat {
    if c < 4 then 0 else DistanceBits(c - 2) + 1
  }

  /** Smallest distance of code c. */
  function DistanceBase(c: nat): (b: nat)
    ensures b > 0
  {
    if c == 0 then 1 else DistanceBase(c - 1) + Pow2(DistanceBits(c - 1))
  }

  type CodeLengthSymbol = x: int | 0 <= x < 19

  /** Order in which the lengths of the code-length alphabet are transmitted. */
  const CODE_LENGTH_ORDER: seq<CodeLengthSymbol> := [
    16, 17, 18, 0, 8, 7, 9, 6, 10, 5, 11, 4, 12, 3, 13, 2, 14, 1, 15]

  // ----- LZ77 back-references -----

  /** Append `length` bytes, each equal to the byte `dist` before it. */
  function CopyMatch(out: seq<byte>, dist: nat, length: nat): (r: seq<byte>)
    requires 0 < dist <= |out|
    ensures |r| == |out| + length && r[..|out|] == out
    decreases length
  {
    if length == 0 then out
    else
      var init := CopyMatch(out, dist, length - 1);
      init + [init[|init| - dist]]
  }

  /** A match shorter or longer than its distance repeats the last `dist` bytes periodically. */
  lemma {:induction false} CopyMatchPeriodic(out: seq<byte>, dist: nat, length: nat, i: nat)
    requires 0 < dist <= |out| && i < length
    ensures CopyMatch(out, dist, length)[|out| + i] == out[|out| - dist + i % dist]
    decreases i
  {
    CopyMatchBehind(out, dist, length, i);
    var r := CopyMatch(out, dist, length);
    if i < dist {
      SmallRemainder(i, dist);
      assert r[..|out|][|out| + i - dist] == r[|out| + i - dist];
    } else {
      CopyMatchPeriodic(out, dist, length, i - dist);
      RemainderShift(i, dist);
    }
  }

  /** Every copied byte equals the one `dist` before it. */
  lemma {:induction false} CopyMatchBehind(out: seq<byte>, dist: nat, length: nat, i: nat)
    requires 0 < dist <= |out| && i < length
    ensures CopyMatch(out, dist, length)[|out| + i] == CopyMatch(out, dist, length)[|out| + i - dist]
    decreases length
  {
    if i < length - 1 {
      CopyMatchBehind(out, dist, length - 1, i);
    }
  }

  // ----- blocks -----

  function LittleEndian16(src: seq<byte>, q: nat): (v: nat)
    requires q + 2 <= |src|
    ensures v < 65536
  {
    var lo: int, hi: int := src[q], src[q + 1];
    lo + 256 * hi
  }

  /** Section 3.2.4: skip to a byte boundary, LEN, its complement, then LEN bytes. */
  function Stored(src: seq<byte>, p: nat, out: seq<byte>): (r: Option<(nat, seq<byte>)>)
    ensures r.Some? ==> p <= r.value.0 <= 8 * |src| && out <= r.value.1
  {
    var q := (p + 7) / 8;
    if q + 4 > |src| then None
    else
      var len, nlen := LittleEndian16(src, q), LittleEndian16(src, q + 2);
      if len != 65535 - nlen || q + 4 + len > |src| then None
      else Some((8 * (q + 4 + len), out + src[q + 4..q + 4 + len]))
  }

  /** Section 3.2.3: literals and matches until the end-of-block symbol. */
  ghost function Codes(ll: seq<nat>, dl: seq<nat>, src: seq<byte>, p: nat, out: seq<byte>)
    : (r: Option<(nat, seq<byte>)>)
    ensures r.Some? ==> p < r.value.0 <= 8 * |src| && out <= r.value.1
    decreases 8 * |src| - p
  {
    match DecodeSymbol(ll, src, p)
    case None => None
    case Some((sym, p1)) =>
      if sym < 256 then Codes(ll, dl, src, p1, out + [sym])
      else if sym == 256 then Some((p1, out))
      else
        match Match(dl, src, p1, sym)
        case None => None
        case Some((length, dist, p2)) =>
          if dist > |out| then None
          else Codes(ll, dl, src, p2, CopyMatch(out, dist, length))
  }

  /** The rest of a match after its length symbol: (length, distance, next position). */
  ghost function Match(dl: seq<nat>, src: seq<byte>, p: nat, sym: nat): (r: Option<(nat, nat, nat)>)
    requires sym > 256
    ensures r.Some? ==> p < r.value.2 <= 8 * |src| && r.value.1 > 0
  {
    if sym > 285 then None
    else MatchWith(dl, src, p, LengthBits(sym - 257), LengthBase(sym - 257))
  }

  /** A match whose length is `base` plus `bits` extra bits. */
  ghost function MatchWith(dl: seq<nat>, src: seq<byte>, p: nat, bits: nat, base: nat): (r: Option<(nat, nat, nat)>)
    ensures r.Some? ==> p < r.value.2 <= 8 * |src| && r.value.1 > 0
  {
    match MatchDistance(dl, src, p + bits)
    case None => None
    case Some((dist, p1)) => Some((base + LsbValue(src, p, bits), dist, p1))
  }

  /** A distance code and its extra bits: (distance, next position). */
  ghost function MatchDistance(dl: seq<nat>, src: seq<byte>, p: nat): (r: Option<(nat, nat)>)
    ensures r.Some? ==> p < r.value.1 <= 8 * |src| && r.value.0 > 0
  {
    match DecodeSymbol(dl, src, p)
    case None => None
    case Some((sym, p1)) =>
      if sym > 29 then None else ExtendedValue(src, p1, DistanceBits(sym), DistanceBase(sym))
  }

  function ExtendedValue(src: seq<byte>, p: nat, bits: nat, base: nat): (r: Option<(nat, nat)>)
    ensures r.Some? ==> p <= r.value.1 <= 8 * |src| && r.value.0 >= base
  {
    if p + bits > 8 * |src| then None else Some((base + LsbValue(src, p, bits), p + bits))
  }

  /** Section 3.2.6. */
  function FixedLiteralLengths(): (lens: seq<nat>)
    ensures |lens| == 288
  {
    seq(288, i => if i < 144 then 8 else if i < 256 then 9 else if i < 280 then 7 else 8)
  }

  function FixedDistanceLengths(): (lens: seq<nat>)
    ensures |lens| == 32
  {
    seq(32, i => 5)
  }

  /** A set of code lengths the decoder takes: complete, a lone one-bit code, or no code at all. */
  predicate Acceptable(lens: seq<nat>) {
    Complete(lens) || Lone(lens) || Empty(lens)
  }

  const CodeLengthBits: nat := 3

  /** Section 3.2.7: lengths of the code-length alphabet, three bits each from position `p`. */
  function CodeLengthLengths(src: seq<byte>, p: nat, n: nat): (lens: seq<nat>)
    requires n <= 19
    ensures |lens| == 19
    decreases n
  {
    if n == 0 then seq(19, i => 0)
    else CodeLengthLengths(src, p, n - 1)[CODE_LENGTH_ORDER[n - 1] := LsbValue(src, p + 3 * (n - 1), CodeLengthBits)]
  }

  /** Extra bits and least count of a code-length symbol; 0 to 15 stand for themselves, once. */
  function RepeatBits(sym: nat): nat {
    if sym < 16 then 0 else if sym == 16 then 2 else if sym == 17 then 3 else 7
  }

  function RepeatBase(sym: nat): (b: nat)
    ensures b > 0
  {
    if sym < 16 then 1 else if sym == 18 then 11 else 3
  }

  /** One item of the run-length coded lengths: (length, repetitions, next position). */
  ghost function LengthItem(cl: seq<nat>, src: seq<byte>, p: nat, prev: Option<nat>)
    : (r: Option<(nat, nat, nat)>)
    ensures r.Some? ==> p < r.value.2 <= 8 * |src| && r.value.1 > 0
  {
    match DecodeSymbol(cl, src, p)
    case None => None
    case Some((sym, p1)) =>
      if sym > 18 || (sym == 16 && prev.None?) then None
      else
        match ExtendedValue(src, p1, RepeatBits(sym), RepeatBase(sym))
        case None => None
        case Some((n, p2)) => Some((if sym < 16 then sym else if sym == 16 then prev.value else 0, n, p2))
  }

  /** A length `n` times. */
  function Repeat(l: nat, n: nat): (r: seq<nat>)
    ensures |r| == n && forall i {:trigger r[i]} :: 0 <= i < n ==> r[i] == l
  {
    if n == 0 then [] else Repeat(l, n - 1) + [l]
  }

  /** Run-length coded lengths until exactly `total` of them are known. */
  ghost function LengthRuns(cl: seq<nat>, src: seq<byte>, p: nat, acc: seq<nat>, total: nat)
    : (r: Option<(seq<nat>, nat)>)
    ensures r.Some? ==> |r.value.0| == total && p <= r.value.1
    ensures r.Some? && p <= 8 * |src| ==> r.value.1 <= 8 * |src|
    decreases 8 * |src| - p
  {
    if |acc| > total then None
    else if |acc| == total then Some((acc, p))
    else
      match LengthItem(cl, src, p, if |acc| == 0 then None else Some(acc[|acc| - 1]))
      case None => None
      case Some((l, n, p1)) => LengthRuns(cl, src, p1, acc + Repeat(l, n), total)
  }

  // Widths of the fields of section 3.2.7.
  const HlitBits: nat := 5
  const HdistBits: nat := 5
  const HclenBits: nat := 4

  /** Section 3.2.7: both dynamic codes and the position after their description. */
  ghost function DynamicCodes(src: seq<byte>, p: nat): (r: Option<(seq<nat>, seq<nat>, nat)>)
    ensures r.Some? ==> p <= r.value.2 <= 8 * |src|
  {
    if p + 14 > 8 * |src| then None
    else
      DynamicFrom(src, p + 14, 257 + LsbValue(src, p, HlitBits), 1 + LsbValue(src, p + 5, HdistBits),
                  4 + LsbValue(src, p + 10, HclenBits))
  }

  /** The description after the three counts. */
  ghost function DynamicFrom(src: seq<byte>, p: nat, hlit: nat, hdist: nat, hclen: nat)
    : (r: Option<(seq<nat>, seq<nat>, nat)>)
    ensures r.Some? ==> p <= r.value.2 <= 8 * |src|
  {
    if hlit < 257 || hlit > 286 || hdist > 30 || hclen > 19 || p + 3 * hclen > 8 * |src| then None
    else DynamicWith(CodeLengthLengths(src, p, hclen), src, p + 3 * hclen, hlit, hdist)
  }

  /** The description after the code-length code. */
  ghost function DynamicWith(cl: seq<nat>, src: seq<byte>, p: nat, hlit: nat, hdist: nat)
    : (r: Option<(seq<nat>, seq<nat>, nat)>)
    requires hlit >= 257
    ensures r.Some? ==> p <= r.value.2 && (p <= 8 * |src| ==> r.value.2 <= 8 * |src|)
  {
    if !Acceptable(cl) then None
    else
      match LengthRuns(cl, src, p, [], hlit + hdist)
      case None => None
      case Some((lens, q)) => SplitLengths(lens, hlit, q)
  }

  /** The literal/length lengths come first, the distance lengths after them. */
  function SplitLengths(lens: seq<nat>, hlit: nat, q: nat): (r: Option<(seq<nat>, seq<nat>, nat)>)
    requires 257 <= hlit <= |lens|
    ensures r.Some? ==> r.value.2 == q
  {
    if lens[256] == 0 || !Acceptable(lens[..hlit]) || !Acceptable(lens[hlit..]) then None
    else Some((lens[..hlit], lens[hlit..], q))
  }

  ghost function Dynamic(src: seq<byte>, p: nat, out: seq<byte>): (r: Option<(nat, seq<byte>)>)
    ensures r.Some? ==> p <= r.value.0 <= 8 * |src| && out <= r.value.1
  {
    match DynamicCodes(src, p)
    case None => None
    case Some((ll, dl, q)) => Codes(ll, dl, src, q, out)
  }

  ghost function Block(btype: nat, src: seq<byte>, p: nat, out: seq<byte>): (r: Option<(nat, seq<byte>)>)
    ensures r.Some? ==> p <= r.value.0 <= 8 * |src| && out <= r.value.1
  {
    if btype == 0 then Stored(src, p, out)
    else if btype == 1 then Codes(FixedLiteralLengths(), FixedDistanceLengths(), src, p, out)
    else if btype == 2 then Dynamic(src, p, out)
    else None
  }

  /** Blocks from position `p` up to and including the final one. */
  ghost function Blocks(src: seq<byte>, p: nat, out: seq<byte>): (r: Option<seq<byte>>)
    ensures r.Some? ==> out <= r.value
    decreases 8 * |src| - p
  {
    if p + 3 > 8 * |src| then None
    else
      match Block(LsbValue(src, p + 1, 2), src, p + 3, out)
      case None => None
      case Some((q, out')) =>
        if LsbValue(src, p, 1) == 1 then Some(out') else Blocks(src, q, out')
  }

  /** The bytes that a DEFLATE stream stands for. */
  ghost function Inflate(src: seq<byte>): Option<seq<byte>> {
    Blocks(src, 0, [])
  }
}
