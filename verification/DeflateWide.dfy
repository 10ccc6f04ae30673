/** A stream with 31 distance codes: it stands for no bytes by RFC 1951, and the decoder refuses it. */
module DeflateWide {
  import opened Words
  import opened BitStream
  import opened CanonicalCode
  import opened DeflateFormat
  import opened DeflateRfc

  /** One final dynamic block: 257 literal/length codes, 31 distance codes and 18 code-length lengths
      are declared; runs of 138 and 118 zeros, a one and 31 zeros follow, then the end of the block. */
  predicate Wide(src: seq<byte>) {
    && |src| == 13 && src[0] == 0x05 && src[1] == 0xDE && src[2] == 0x81 && src[3] == 0 && src[4] == 0 && src[5] == 0
    && src[6] == 0 && src[7] == 0 && src[8] == 0x90 && src[9] == 0xFF && src[10] == 0x6B && src[11] == 0x29 && src[12] == 0
  }

  /** Bit `k` of byte `q` is set. */
  predicate Set(q: nat, k: nat) {
    if q == 0 then k == 0 || k == 2
    else if q == 1 then k != 0 && k != 5
    else if q == 2 then k == 0 || k == 7
    else if q == 8 then k == 4 || k == 7
    else if q == 9 then true
    else if q == 10 then k != 2 && k != 4 && k != 7
    else if q == 11 then k == 0 || k == 3 || k == 5
    else false
  }

  lemma BitIs(src: seq<byte>, q: nat, k: nat)
    requires Wide(src) && q < 13 && k < 8
    ensures BitAt(src, 8 * q + k) == if Set(q, k) then 1 else 0
  {
    BitInByte(src, q, k);
    if q < 8 {
      EarlyBit(src[q], q, k);
    } else {
      LateBit(src[q], q, k);
    }
  }

  lemma EarlyBit(b: byte, q: nat, k: nat)
    requires k < 8 && q < 8 && b == if q == 0 then 0x05 else if q == 1 then 0xDE else if q == 2 then 0x81 else 0
    ensures Shr(b, k) % 2 == if Set(q, k) then 1 else 0
  {
    ShrIs(b, k);
  }

  lemma LateBit(b: byte, q: nat, k: nat)
    requires k < 8 && 8 <= q < 13
    requires b == if q == 8 then 0x90 else if q == 9 then 0xFF else if q == 10 then 0x6B else if q == 11 then 0x29 else 0
    ensures Shr(b, k) % 2 == if Set(q, k) then 1 else 0
  {
    ShrIs(b, k);
  }

  /** The eight shifts of a byte. */
  lemma ShrIs(b: nat, k: nat)
    requires k < 8
    ensures Shr(b, k) == if k == 0 then b else if k == 1 then b / 2 else if k == 2 then b / 4 else if k == 3 then b / 8
      else if k == 4 then b / 16 else if k == 5 then b / 32 else if k == 6 then b / 64 else b / 128
  {
    if k > 0 {
      ShrIs(b, k - 1);
      ShrStep(b, k - 1);
    }
  }

  // ----- reading numbers -----

  lemma ThreeBits(src: seq<byte>, p: nat, n: nat)
    requires n == 3
    ensures LsbValue(src, p, n) == BitAt(src, p) + 2 * BitAt(src, p + 1) + 4 * BitAt(src, p + 2)
  {
    assert LsbValue(src, p + 1, n - 1) == BitAt(src, p + 1) + 2 * LsbValue(src, p + 2, n - 2);
    assert LsbValue(src, p + 2, n - 2) == BitAt(src, p + 2) + 2 * LsbValue(src, p + 3, n - 3);
  }

  lemma FourMore(src: seq<byte>, p: nat, n: nat, m: nat)
    requires m == n + 4
    ensures LsbValue(src, p, m) == BitAt(src, p) + 2 * BitAt(src, p + 1) + 4 * BitAt(src, p + 2) + 8 * BitAt(src, p + 3)
      + 16 * LsbValue(src, p + 4, n)
  {
    assert LsbValue(src, p, m) == BitAt(src, p) + 2 * LsbValue(src, p + 1, n + 3);
    assert LsbValue(src, p + 1, n + 3) == BitAt(src, p + 1) + 2 * LsbValue(src, p + 2, n + 2);
    assert LsbValue(src, p + 2, n + 2) == BitAt(src, p + 2) + 2 * LsbValue(src, p + 3, n + 1);
    assert LsbValue(src, p + 3, n + 1) == BitAt(src, p + 3) + 2 * LsbValue(src, p + 4, n);
  }

  /** A final block with dynamic codes. */
  lemma KindIs(src: seq<byte>, n: nat)
    requires Wide(src) && n == 0
    ensures LsbValue(src, 0, n + 1) == 1 && LsbValue(src, 1, n + 2) == 2
  {
    BitIs(src, 0, 0);
    BitIs(src, 0, 1);
    BitIs(src, 0, 2);
    assert LsbValue(src, 0, n + 1) == BitAt(src, 0) + 2 * LsbValue(src, 1, n);
    assert LsbValue(src, 1, n + 2) == BitAt(src, 1) + 2 * LsbValue(src, 2, n + 1);
    assert LsbValue(src, 2, n + 1) == BitAt(src, 2) + 2 * LsbValue(src, 3, n);
  }

  lemma FiveBits(src: seq<byte>, p: nat, n: nat)
    requires Wide(src) && n == 5 && (p == 3 || p == 8)
    ensures LsbValue(src, p, n) == if p == 3 then 0 else 30
  {
    FourMore(src, p, n - 4, n);
    assert LsbValue(src, p + 4, n - 4) == BitAt(src, p + 4) + 2 * LsbValue(src, p + 5, n - 5);
    BitIs(src, p / 8, p % 8);
    BitIs(src, (p + 1) / 8, (p + 1) % 8);
    BitIs(src, (p + 2) / 8, (p + 2) % 8);
    BitIs(src, (p + 3) / 8, (p + 3) % 8);
    BitIs(src, (p + 4) / 8, (p + 4) % 8);
  }

  /** The counts of the header. */
  lemma CountsAre(src: seq<byte>)
    requires Wide(src)
    ensures LsbValue(src, 3, HlitBits) == 0 && LsbValue(src, 8, HdistBits) == 30 && LsbValue(src, 13, HclenBits) == 14
  {
    FiveBits(src, 3, HlitBits);
    FiveBits(src, 8, HdistBits);
    FourMore(src, 13, 0, HclenBits);
    BitIs(src, 1, 5);
    BitIs(src, 1, 6);
    BitIs(src, 1, 7);
    BitIs(src, 2, 0);
  }

  // ----- lengths that are zero -----

  ghost predicate AllZero(lens: seq<nat>) {
    forall i {:trigger lens[i]} :: 0 <= i < |lens| ==> lens[i] == 0
  }

  /** Symbol `s` has a one-bit code and no other symbol has a code. */
  ghost predicate OnlyOne(lens: seq<nat>, s: nat) {
    s < |lens| && forall i {:trigger lens[i]} :: 0 <= i < |lens| ==> lens[i] == if i == s then 1 else 0
  }

  lemma {:induction false} ZeroIsEmpty(lens: seq<nat>)
    requires AllZero(lens)
    ensures CountOf(lens, 1) == 0 && NumCodes(lens) == 0 && Kraft(lens) == 0
  {
    if lens != [] {
      ZeroIsEmpty(lens[..|lens| - 1]);
    }
  }

  lemma {:induction false} OnlyIsLone(lens: seq<nat>, s: nat)
    requires OnlyOne(lens, s)
    ensures CountOf(lens, 1) == 1 && NumCodes(lens) == 1 && Kraft(lens) == Pow2(14)
    ensures AllZero(lens[..s]) && CountOf(lens[..s], 1) == 0
  {
    ZeroIsEmpty(lens[..s]);
    var init := lens[..|lens| - 1];
    if s < |lens| - 1 {
      OnlyIsLone(init, s);
    }
  }

  /** A symbol with a one-bit code is spelt by the number of such symbols before it. */
  lemma OneBit(lens: seq<nat>, src: seq<byte>, p: nat, s: nat)
    requires s < |lens| && lens[s] == 1 && p < 8 * |src| && BitAt(src, p) == CountOf(lens[..s], 1)
    ensures DecodeSymbol(lens, src, p) == Some((s, p + 1))
  {
    assert MsbValue(src, p, 1) == 2 * MsbValue(src, p, 0) + BitAt(src, p);
    assert FirstCode(lens, 1) == 2 * (FirstCode(lens, 0) + Used(lens, 0)) == 0;
    DecodeSymbolIs(lens, src, p, s);
  }

  // ----- the code-length code -----

  /** Symbols 1 and 18 have one bit each. */
  ghost predicate TwoCodes(cl: seq<nat>) {
    |cl| == 19 && forall j {:trigger cl[j]} :: 0 <= j < 19 ==> cl[j] == if j == 1 || j == 18 then 1 else 0
  }

  /** Those of them that are among the first `n` transmitted. */
  ghost predicate CodesUpTo(lens: seq<nat>, n: nat) {
    |lens| == 19 && forall j {:trigger lens[j]} :: 0 <= j < 19 ==>
      lens[j] == if (j == 18 && n >= 3) || (j == 1 && n == 18) then 1 else 0
  }

  lemma TwoComplete(cl: seq<nat>)
    requires TwoCodes(cl)
    ensures Complete(cl) && CountOf(cl[..1], 1) == 0 && CountOf(cl[..18], 1) == 1
  {
    OnlyIsLone(cl[..18], 1);
    assert cl[..18][..1] == cl[..1];
    PowerIs(14);
  }

  lemma PowerIs(n: nat)
    requires n == 14
    ensures 2 * Pow2(n) == 0x8000
  {
  }

  /** The lengths transmitted so far. */
  lemma {:induction false} FirstLengths(src: seq<byte>, p: nat, n: nat)
    requires Wide(src) && p == 17 && n <= 18
    ensures CodesUpTo(CodeLengthLengths(src, p, n), n)
  {
    if n > 0 {
      FirstLengths(src, p, n - 1);
      LengthAt(src, p + 3 * (n - 1), n - 1);
    }
  }

  /** Only the third and the last of 18 lengths are not zero. */
  lemma LengthAt(src: seq<byte>, p: nat, i: nat)
    requires Wide(src) && i < 18 && p == 17 + 3 * i
    ensures LsbValue(src, p, CodeLengthBits) == if i == 2 || i == 17 then 1 else 0
  {
    ThreeBits(src, p, CodeLengthBits);
    BitIs(src, p / 8, p % 8);
    BitIs(src, (p + 1) / 8, (p + 1) % 8);
    BitIs(src, (p + 2) / 8, (p + 2) % 8);
  }

  // ----- the runs of lengths -----

  lemma RunBits(src: seq<byte>, p: nat, m: nat)
    requires Wide(src) && (p == 71 || p == 79 || p == 88) && m == 7
    ensures BitAt(src, p) == 1 && LsbValue(src, p + 1, m) == if p == 71 then 127 else if p == 79 then 107 else 20
  {
    FourMore(src, p + 1, m - 4, m);
    ThreeBits(src, p + 5, m - 4);
    BitIs(src, p / 8, p % 8);
    BitIs(src, (p + 1) / 8, (p + 1) % 8);
    BitIs(src, (p + 2) / 8, (p + 2) % 8);
    BitIs(src, (p + 3) / 8, (p + 3) % 8);
    BitIs(src, (p + 4) / 8, (p + 4) % 8);
    BitIs(src, (p + 5) / 8, (p + 5) % 8);
    BitIs(src, (p + 6) / 8, (p + 6) % 8);
    BitIs(src, (p + 7) / 8, (p + 7) % 8);
  }

  /** A run of zeros. */
  lemma ZeroRun(cl: seq<nat>, src: seq<byte>, p: nat, prev: Option<nat>, m: nat) returns (n: nat)
    requires Wide(src) && TwoCodes(cl) && (p == 71 || p == 79 || p == 88) && m == 7
    ensures n == if p == 71 then 138 else if p == 79 then 118 else 31
    ensures LengthItem(cl, src, p, prev) == Some((0, n, p + 8))
  {
    n := 11 + LsbValue(src, p + 1, m);
    RunBits(src, p, m);
    TwoComplete(cl);
    OneBit(cl, src, p, 18);
  }

  lemma LengthOne(cl: seq<nat>, src: seq<byte>, p: nat, prev: Option<nat>)
    requires Wide(src) && TwoCodes(cl) && p == 87
    ensures LengthItem(cl, src, p, prev) == Some((1, 1, p + 1))
  {
    BitIs(src, 10, 7);
    TwoComplete(cl);
    OneBit(cl, src, p, 1);
  }

  lemma OneItem(cl: seq<nat>, src: seq<byte>, p: nat, acc: seq<nat>, item: (nat, nat, nat), total: nat)
    requires |acc| < total
    requires LengthItem(cl, src, p, if |acc| == 0 then None else Some(acc[|acc| - 1])) == Some(item)
    ensures LengthRuns(cl, src, p, acc, total) == LengthRuns(cl, src, item.2, acc + Repeat(item.0, item.1), total)
  {
  }

  /** The two runs of zeros for the literals. */
  lemma LiteralRuns(cl: seq<nat>, src: seq<byte>, total: nat, m: nat) returns (lens: seq<nat>)
    requires Wide(src) && TwoCodes(cl) && total == 288 && m == 7
    ensures |lens| == 256 && AllZero(lens)
    ensures LengthRuns(cl, src, 71, [], total) == LengthRuns(cl, src, 87, lens, total)
  {
    var a := ZeroRun(cl, src, 71, None, m);
    OneItem(cl, src, 71, [], (0, a, 79), total);
    lens := [] + Repeat(0, a);
    var b := ZeroRun(cl, src, 79, Some(lens[|lens| - 1]), m);
    OneItem(cl, src, 79, lens, (0, b, 87), total);
    lens := lens + Repeat(0, b);
  }

  /** Both codes: symbol 256 alone has one. */
  lemma RunsAre(cl: seq<nat>, src: seq<byte>, total: nat, m: nat) returns (lens: seq<nat>)
    requires Wide(src) && TwoCodes(cl) && total == 288 && m == 7
    ensures |lens| == total && OnlyOne(lens, 256) && LengthRuns(cl, src, 71, [], total) == Some((lens, 96))
  {
    lens := LiteralRuns(cl, src, total, m);
    LengthOne(cl, src, 87, Some(lens[|lens| - 1]));
    OneItem(cl, src, 87, lens, (1, 1, 88), total);
    lens := lens + Repeat(1, 1);
    var c := ZeroRun(cl, src, 88, Some(lens[|lens| - 1]), m);
    OneItem(cl, src, 88, lens, (0, c, 96), total);
    lens := lens + Repeat(0, c);
  }

  // ----- the block -----

  lemma CodesAre(src: seq<byte>, p: nat) returns (ll: seq<nat>, dl: seq<nat>)
    requires Wide(src) && p == 3
    ensures |ll| == 257 && OnlyOne(ll, 256) && RfcCodes(src, p) == Some((ll, dl, 96))
  {
    CountsAre(src);
    var hlit, hclen := 257 + LsbValue(src, p, HlitBits), 4 + LsbValue(src, p + 10, HclenBits);
    var lens := FromLengths(src, p + 14, hlit, DistanceCodes(src, p), hclen);
    ll, dl := lens[..hlit], lens[hlit..];
  }

  lemma FromLengths(src: seq<byte>, p: nat, hlit: nat, hdist: nat, hclen: nat) returns (lens: seq<nat>)
    requires Wide(src) && p == 17 && hlit == 257 && hdist == 31 && hclen == 18
    ensures |lens| == 288 && OnlyOne(lens, 256) && RfcFrom(src, p, hlit, hdist, hclen) == Some((lens[..hlit], lens[hlit..], 96))
  {
    FirstLengths(src, p, hclen);
    lens := WithCode(CodeLengthLengths(src, p, hclen), src, p + 3 * hclen, hlit, hdist);
  }

  lemma WithCode(cl: seq<nat>, src: seq<byte>, p: nat, hlit: nat, hdist: nat) returns (lens: seq<nat>)
    requires Wide(src) && CodesUpTo(cl, 18) && p == 71 && hlit == 257 && hdist == 31
    ensures |lens| == 288 && OnlyOne(lens, 256) && DynamicWith(cl, src, p, hlit, hdist) == Some((lens[..hlit], lens[hlit..], 96))
  {
    assert TwoCodes(cl);
    TwoComplete(cl);
    lens := RunsAre(cl, src, hlit + hdist, 7);
    OnlyIsLone(lens[..hlit], 256);
    ZeroIsEmpty(lens[hlit..]);
  }

  lemma EndOfBlock(ll: seq<nat>, dl: seq<nat>, src: seq<byte>)
    requires Wide(src) && OnlyOne(ll, 256)
    ensures Codes(ll, dl, src, 96, []) == Some((97, []))
  {
    OnlyIsLone(ll, 256);
    BitIs(src, 12, 0);
    OneBit(ll, src, 96, 256);
  }

  /** By the RFC the stream stands for no bytes; the decoder takes it for malformed. */
  lemma WideDiffers(src: seq<byte>)
    requires Wide(src)
    ensures RfcInflate(src) == Some([]) && Excess(src, 0, []) && Inflate(src) == None
  {
    KindIs(src, 0);
    CountsAre(src);
    var ll, dl := CodesAre(src, 3);
    EndOfBlock(ll, dl, src);
    BlocksDiffer(src, 0, []);
  }
}
