/** What the definitions of the format come to in plain numbers: where the code-length fields go, the
    ranges of lengths, distances and repeats, and what a stream with the fixed codes stands for. */
module DeflateFixed {
  import opened Words
  import opened BitStream
  import opened CanonicalCode
  import opened DeflateFormat
  import opened Tinflate
  import opened TinfUncompress

  // ----- section 3.2.7: fields and repeats -----

  /** The place of the field for symbol `j` among the code-length fields: 16, 17, 18, 0, then outwards
      from 8, the larger symbols at even places. */
  function FieldOf(j: nat): nat {
    if j >= 16 then j - 16 else if j == 0 then 3 else if j >= 8 then 2 * j - 12 else 19 - 2 * j
  }

  /** Each field sent goes to its symbol; symbols without one have length zero. */
  lemma {:induction false} CodeLengthAt(src: seq<byte>, p: nat, n: nat, j: nat)
    requires n <= 19 && j < 19
    ensures CodeLengthLengths(src, p, n)[j] == if FieldOf(j) < n then LsbValue(src, p + 3 * FieldOf(j), CodeLengthBits) else 0
    decreases n
  {
    if n > 0 {
      CodeLengthAt(src, p, n - 1, j);
      OrderIs(n - 1, j);
    }
  }

  lemma OrderIs(i: nat, j: nat)
    requires i < 19 && j < 19
    ensures CODE_LENGTH_ORDER[i] == j <==> i == FieldOf(j)
  {
  }

  /** Extra bits of the repeats 16, 17 and 18, and their least counts. */
  function RepeatWidth(sym: nat): nat {
    if sym == 16 then 2 else if sym == 17 then 3 else 7
  }

  function RepeatLeast(sym: nat): nat {
    if sym == 18 then 11 else 3
  }

  /** A code-length symbol below 16 is a length. */
  lemma LengthItemIs(cl: seq<nat>, src: seq<byte>, p: nat, prev: Option<nat>, sym: nat, q: nat)
    requires DecodeSymbol(cl, src, p) == Some((sym, q)) && sym < 16
    ensures LengthItem(cl, src, p, prev) == Some((sym, 1, q))
  {
    assert RepeatBits(sym) == 0 && LsbValue(src, q, RepeatBits(sym)) == 0;
  }

  /** 16 repeats the last length 3 to 6 times, 17 a zero 3 to 10 times, 18 a zero 11 to 138 times. */
  lemma RepeatItemIs(cl: seq<nat>, src: seq<byte>, p: nat, prev: Option<nat>, sym: nat, q: nat)
    requires DecodeSymbol(cl, src, p) == Some((sym, q)) && 16 <= sym <= 18
    ensures LengthItem(cl, src, p, prev) ==
      if (sym == 16 && prev.None?) || q + RepeatWidth(sym) > 8 * |src| then None
      else Some((if sym == 16 then prev.value else 0, RepeatLeast(sym) + LsbValue(src, q, RepeatWidth(sym)), q + RepeatWidth(sym)))
  {
    assert RepeatBits(sym) == RepeatWidth(sym) && RepeatBase(sym) == RepeatLeast(sym);
  }

  // ----- section 3.2.5: lengths and distances -----

  /** Extra bits of length code 257 + c, and its smallest length. */
  function ExtraOfLength(c: nat): nat {
    if c < 8 || c == 28 then 0 else c / 4 - 1
  }

  function LeastLength(c: nat): nat {
    if c == 28 then 258 else if c < 8 then 3 + c else 3 + (4 + c % 4) * Pow2(c / 4 - 1)
  }

  lemma {:induction false} LengthBitsIs(c: nat)
    requires c <= 28
    ensures LengthBits(c) == ExtraOfLength(c)
    decreases c
  {
    if 8 <= c < 28 {
      LengthBitsIs(c - 4);
    }
  }

  lemma {:induction false} LengthBaseIs(c: nat)
    requires c <= 28
    ensures LengthBase(c) == LeastLength(c)
    decreases c
  {
    if 0 < c < 28 {
      LengthBaseIs(c - 1);
      LengthBitsIs(c - 1);
      if c >= 9 {
        NextLeast(c, c / 4, c % 4);
      } else {
        SmallPowers(0);
      }
    }
  }

  lemma SmallPowers(n: nat)
    requires n == 0
    ensures Pow2(n) == 1 && Pow2(n + 1) == 2
  {
  }

  lemma NextLeast(c: nat, q: nat, r: nat)
    requires 9 <= c < 28 && q == c / 4 && r == c % 4
    ensures LeastLength(c) == LeastLength(c - 1) + Pow2(ExtraOfLength(c - 1))
  {
    if r == 0 {
      assert (c - 1) / 4 == q - 1 && (c - 1) % 4 == 3;
      assert Pow2(q - 1) == 2 * Pow2(q - 2);
    } else {
      assert (c - 1) / 4 == q && (c - 1) % 4 == r - 1;
      Distribute(4 + r - 1, Pow2(q - 1));
    }
  }

  lemma Distribute(a: nat, m: nat)
    ensures (a + 1) * m == a * m + m
  {
  }

  /** Extra bits of distance code c, and its smallest distance. */
  function ExtraOfDistance(c: nat): nat {
    if c < 4 then 0 else c / 2 - 1
  }

  function LeastDistance(c: nat): nat {
    if c < 4 then 1 + c else 1 + (2 + c % 2) * Pow2(c / 2 - 1)
  }

  lemma {:induction false} DistanceBitsIs(c: nat)
    ensures DistanceBits(c) == ExtraOfDistance(c)
    decreases c
  {
    if c >= 4 {
      DistanceBitsIs(c - 2);
    }
  }

  lemma {:induction false} DistanceBaseIs(c: nat)
    ensures DistanceBase(c) == LeastDistance(c)
    decreases c
  {
    if c > 0 {
      DistanceBaseIs(c - 1);
      DistanceBitsIs(c - 1);
      if c >= 5 {
        NextDistance(c, c / 2, c % 2);
      } else {
        SmallPowers(0);
      }
    }
  }

  lemma NextDistance(c: nat, q: nat, r: nat)
    requires c >= 5 && q == c / 2 && r == c % 2
    ensures LeastDistance(c) == LeastDistance(c - 1) + Pow2(ExtraOfDistance(c - 1))
  {
    if r == 0 {
      assert (c - 1) / 2 == q - 1 && (c - 1) % 2 == 1;
      assert Pow2(q - 1) == 2 * Pow2(q - 2);
    } else {
      assert (c - 1) / 2 == q && (c - 1) % 2 == 0;
      Distribute(2, Pow2(q - 1));
    }
  }

  // ----- section 3.2.4 -----

  /** The length of a stored block is the next 16 bits of the stream. */
  lemma StoredLengthIs(src: seq<byte>, q: nat, n: nat)
    requires q + 2 <= |src| && n == 16
    ensures LittleEndian16(src, q) == LsbValue(src, 8 * q, n)
  {
    LsbSplit(src, 8 * q, n - 8, n - 8);
    LsbByte(src, q, n - 8);
    LsbByte(src, q + 1, n - 8);
    Shl8(src[q + 1]);
  }

  /** A stored block starts at the next whole byte; its third and fourth byte are the first two with all
      bits turned, and after them come as many bytes as the first two say. */
  lemma StoredIs(src: seq<byte>, p: nat, out: seq<byte>, q: nat, n: nat)
    requires 8 * q - 7 <= p <= 8 * q && q + 4 <= |src| && n == 16
    ensures var len := LsbValue(src, 8 * q, n);
      Stored(src, p, out) ==
        if src[q] as int + src[q + 2] as int == 255 && src[q + 1] as int + src[q + 3] as int == 255 && q + 4 + len <= |src|
        then Some((8 * (q + 4 + len), out + src[q + 4..q + 4 + len])) else None
  {
    StoredLengthIs(src, q, n);
    assert (p + 7) / 8 == q;
  }

  // ----- section 3.2.2: the example -----

  /** Lengths (3, 3, 3, 3, 3, 2, 4, 4) give the codes 010 to 110, 00, 1110 and 1111. */
  lemma ExampleCodes(lens: seq<nat>)
    requires lens == [3, 3, 3, 3, 3, 2, 4, 4]
    ensures forall s :: 0 <= s < 5 ==> CodeOf(lens, s) == 2 + s
    ensures CodeOf(lens, 5) == 0 && CodeOf(lens, 6) == 14 && CodeOf(lens, 7) == 15
  {
    ExampleCounts(lens, 8);
    ExampleFirst(lens, 4);
    forall s | 0 <= s < 8
      ensures CountOf(lens[..s], 3) == (if s < 5 then s else 5) && CountOf(lens[..s], 2) == (if s < 6 then 0 else 1)
      ensures CountOf(lens[..s], 4) == if s < 7 then 0 else 1
    {
      ExampleCounts(lens, s);
    }
  }

  lemma {:induction false} ExampleCounts(lens: seq<nat>, n: nat)
    requires lens == [3, 3, 3, 3, 3, 2, 4, 4] && n <= 8
    ensures CountOf(lens[..n], 1) == 0 && CountOf(lens[..n], 2) == (if n < 6 then 0 else 1)
    ensures CountOf(lens[..n], 3) == (if n < 5 then n else 5) && CountOf(lens[..n], 4) == if n < 7 then 0 else n - 6
  {
    if n > 0 {
      ExampleCounts(lens, n - 1);
      assert lens[..n][..n - 1] == lens[..n - 1];
    }
  }

  lemma {:induction false} ExampleFirst(lens: seq<nat>, l: nat)
    requires lens == [3, 3, 3, 3, 3, 2, 4, 4] && l <= 4
    ensures FirstCode(lens, l) == if l < 3 then 0 else if l == 3 then 2 else 14
  {
    ExampleCounts(lens, 8);
    assert lens[..8] == lens;
    if l > 0 {
      ExampleFirst(lens, l - 1);
    }
  }

  // ----- section 3.2.6: the fixed codes -----

  /** Symbols below `n` with length `l`. */
  function FixedCount(n: nat, l: nat): nat {
    if l == 7 then (if n < 256 then 0 else if n < 280 then n - 256 else 24)
    else if l == 8 then (if n < 144 then n else if n < 280 then 144 else n - 136)
    else if l == 9 then (if n < 144 then 0 else if n < 256 then n - 144 else 112)
    else 0
  }

  lemma {:induction false} FixedCounts(lens: seq<nat>, n: nat, l: nat)
    requires lens == FixedLiteralLengths() && n <= 288
    ensures CountOf(lens[..n], l) == FixedCount(n, l)
    decreases n
  {
    if n > 0 {
      FixedCounts(lens, n - 1, l);
      assert lens[..n][..n - 1] == lens[..n - 1];
    }
  }

  lemma {:induction false} FixedFirst(lens: seq<nat>, l: nat)
    requires lens == FixedLiteralLengths() && l <= 9
    ensures FirstCode(lens, l) == if l < 8 then 0 else if l == 8 then 48 else 400
  {
    if l > 0 {
      FixedFirst(lens, l - 1);
      FixedCounts(lens, 288, l - 1);
      assert lens[..288] == lens;
    }
  }

  /** Bits and value of the fixed code of a symbol: 00110000 to 10111111, 110010000 to 111111111,
      0000000 to 0010111, 11000000 to 11000111. */
  function FixedWidth(sym: nat): nat {
    if sym < 144 then 8 else if sym < 256 then 9 else if sym < 280 then 7 else 8
  }

  function FixedValue(sym: nat): nat {
    if sym < 144 then 48 + sym else if sym < 256 then 256 + sym else if sym < 280 then sym - 256 else sym - 88
  }

  lemma FixedCode(lens: seq<nat>, s: nat)
    requires lens == FixedLiteralLengths() && s < 288
    ensures CodeOf(lens, s) == FixedValue(s) && lens[s] == FixedWidth(s)
  {
    FixedFirst(lens, lens[s]);
    FixedCounts(lens, s, lens[s]);
  }

  lemma {:induction false} DistanceCounts(lens: seq<nat>, n: nat, l: nat)
    requires lens == FixedDistanceLengths() && n <= 32
    ensures CountOf(lens[..n], l) == if l == 5 then n else 0
    decreases n
  {
    if n > 0 {
      DistanceCounts(lens, n - 1, l);
      assert lens[..n][..n - 1] == lens[..n - 1];
    }
  }

  lemma {:induction false} DistanceFirst(lens: seq<nat>, l: nat)
    requires lens == FixedDistanceLengths() && l <= 5
    ensures FirstCode(lens, l) == 0
  {
    if l > 0 {
      DistanceFirst(lens, l - 1);
      DistanceCounts(lens, 32, l - 1);
      assert lens[..32] == lens;
    }
  }

  /** Distance codes are five-bit numbers. */
  lemma FixedDistanceCode(lens: seq<nat>, s: nat)
    requires lens == FixedDistanceLengths() && s < 32
    ensures CodeOf(lens, s) == s && lens[s] == 5
  {
    DistanceFirst(lens, lens[s]);
    DistanceCounts(lens, s, lens[s]);
  }

  // ----- what a fixed block stands for -----

  datatype Token = Literal(b: byte) | Copy(length: nat, dist: nat)

  /** The code of a symbol stands at `p`, up to `q`. */
  ghost predicate SymbolAt(src: seq<byte>, p: nat, sym: nat, q: nat) {
    sym < 288 && q == p + FixedWidth(sym) <= 8 * |src| && MsbValue(src, p, FixedWidth(sym)) == FixedValue(sym)
  }

  /** A length code with its extra bits, then a distance code with its. */
  ghost predicate CopyAt(src: seq<byte>, p: nat, t: Token, q: nat, c: nat, d: nat, p1: nat, p2: nat)
    requires t.Copy?
  {
    && c <= 28 && d <= 29 && SymbolAt(src, p, 257 + c, p1)
    && t.length == LeastLength(c) + LsbValue(src, p1, ExtraOfLength(c)) && p2 == p1 + ExtraOfLength(c)
    && MsbValue(src, p2, 5) == d && p2 + 5 <= 8 * |src|
    && t.dist == LeastDistance(d) + LsbValue(src, p2 + 5, ExtraOfDistance(d))
    && q == p2 + 5 + ExtraOfDistance(d) <= 8 * |src|
  }

  ghost predicate TokenAt(src: seq<byte>, p: nat, t: Token, q: nat) {
    match t
    case Literal(b) => SymbolAt(src, p, b, q)
    case Copy(_, _) => exists c: nat, d: nat, p1: nat, p2: nat :: CopyAt(src, p, t, q, c, d, p1, p2)
  }

  /** The tokens one after the other, each up to its place in `ends`, then the end of the block. */
  ghost predicate TokensAt(src: seq<byte>, p: nat, tokens: seq<Token>, ends: seq<nat>)
    requires |ends| == |tokens|
    decreases |tokens|
  {
    if tokens == [] then SymbolAt(src, p, 256, p + 7)
    else TokenAt(src, p, tokens[0], ends[0]) && TokensAt(src, ends[0], tokens[1..], ends[1..])
  }

  /** No copy reaches before the output. */
  ghost predicate InReach(tokens: seq<Token>, n: nat)
    decreases |tokens|
  {
    tokens == [] ||
      match tokens[0]
      case Literal(_) => InReach(tokens[1..], n + 1)
      case Copy(length, dist) => 0 < dist <= n && InReach(tokens[1..], n + length)
  }

  /** The bytes of the tokens behind `out`. */
  function Expand(tokens: seq<Token>, out: seq<byte>): seq<byte>
    requires InReach(tokens, |out|)
    decreases |tokens|
  {
    if tokens == [] then out
    else
      match tokens[0]
      case Literal(b) => Expand(tokens[1..], out + [b])
      case Copy(length, dist) => Expand(tokens[1..], CopyMatch(out, dist, length))
  }

  lemma SymbolDecodes(ll: seq<nat>, src: seq<byte>, p: nat, sym: nat, q: nat)
    requires ll == FixedLiteralLengths() && SymbolAt(src, p, sym, q)
    ensures DecodeSymbol(ll, src, p) == Some((sym, q))
  {
    FixedCode(ll, sym);
    DecodeSymbolIs(ll, src, p, sym);
  }

  /** What a length symbol and what follows it stand for, folded as well. */
  ghost predicate MatchIs(dl: seq<nat>, src: seq<byte>, p: nat, sym: nat, t: Token, q: nat)
    requires t.Copy?
  {
    forall s {:trigger Match(dl, src, p, s)} :: s == sym && s > 256 ==> Match(dl, src, p, s) == Some((t.length, t.dist, q))
  }

  lemma CopyDecodes(dl: seq<nat>, src: seq<byte>, p: nat, t: Token, q: nat, c: nat, d: nat, p1: nat, p2: nat)
    requires dl == FixedDistanceLengths() && t.Copy? && CopyAt(src, p, t, q, c, d, p1, p2)
    ensures MatchIs(dl, src, p1, 257 + c, t, q)
  {
    LengthBitsIs(c);
    LengthBaseIs(c);
    DistanceBitsIs(d);
    DistanceBaseIs(d);
    FixedDistanceCode(dl, d);
    DecodeSymbolIs(dl, src, p2, d);
    MatchParts(dl, src, p1, c, t, d, p2, q);
  }

  lemma MatchParts(dl: seq<nat>, src: seq<byte>, p1: nat, c: nat, t: Token, d: nat, p2: nat, q: nat)
    requires c <= 28 && p2 == p1 + LengthBits(c) && t.Copy? && t.length == LengthBase(c) + LsbValue(src, p1, LengthBits(c))
    requires DecodeSymbol(dl, src, p2) == Some((d, p2 + 5)) && d <= 29 && q == p2 + 5 + DistanceBits(d) <= 8 * |src|
    requires t.dist == DistanceBase(d) + LsbValue(src, p2 + 5, DistanceBits(d))
    ensures MatchIs(dl, src, p1, 257 + c, t, q)
  {
    DistanceIs(dl, src, p2, d, t.dist, q);
    assert MatchWith(dl, src, p1, LengthBits(c), LengthBase(c)) == Some((t.length, t.dist, q));
  }

  lemma DistanceIs(dl: seq<nat>, src: seq<byte>, p: nat, d: nat, dist: nat, q: nat)
    requires DecodeSymbol(dl, src, p) == Some((d, p + 5)) && d <= 29 && q == p + 5 + DistanceBits(d) <= 8 * |src|
    requires dist == DistanceBase(d) + LsbValue(src, p + 5, DistanceBits(d))
    ensures MatchDistance(dl, src, p) == Some((dist, q))
  {
  }

  /** `r` is what the codes from `p` on stand for, said so that the definition stays folded. */
  ghost predicate CodesAre(ll: seq<nat>, dl: seq<nat>, src: seq<byte>, p: nat, out: seq<byte>, r: (nat, seq<byte>)) {
    forall o {:trigger Codes(ll, dl, src, p, o)} :: o == out ==> Codes(ll, dl, src, p, o) == Some(r)
  }

  lemma EndDecodes(ll: seq<nat>, dl: seq<nat>, src: seq<byte>, p: nat, out: seq<byte>)
    requires ll == FixedLiteralLengths() && SymbolAt(src, p, 256, p + 7)
    ensures CodesAre(ll, dl, src, p, out, (p + 7, out))
  {
    SymbolDecodes(ll, src, p, 256, p + 7);
    assert Codes(ll, dl, src, p, out) == Some((p + 7, out));
  }

  /** The output after one token. */
  ghost predicate Extends(t: Token, out: seq<byte>, next: seq<byte>) {
    match t
    case Literal(b) => next == out + [b]
    case Copy(length, dist) =>
      0 < dist <= |out| && forall l {:trigger CopyMatch(out, dist, l)} :: l == length ==> next == CopyMatch(out, dist, l)
  }

  /** One token more in front. */
  lemma TokenDecodes(ll: seq<nat>, dl: seq<nat>, src: seq<byte>, p: nat, t: Token, q: nat, out: seq<byte>, next: seq<byte>,
                     r: (nat, seq<byte>))
    requires ll == FixedLiteralLengths() && dl == FixedDistanceLengths() && TokenAt(src, p, t, q)
    requires Extends(t, out, next) && CodesAre(ll, dl, src, q, next, r)
    ensures CodesAre(ll, dl, src, p, out, r)
  {
    match t
    case Literal(b) =>
      SymbolDecodes(ll, src, p, b, q);
      CodesLiteral(ll, dl, src, p, out, b, q, r);
    case Copy(_, _) =>
      var c: nat, d: nat, p1: nat, p2: nat :| CopyAt(src, p, t, q, c, d, p1, p2);
      SymbolDecodes(ll, src, p, 257 + c, p1);
      CopyDecodes(dl, src, p, t, q, c, d, p1, p2);
      CodesCopy(ll, dl, src, p, out, 257 + c, p1, t, q, next, r);
  }

  lemma CodesLiteral(ll: seq<nat>, dl: seq<nat>, src: seq<byte>, p: nat, out: seq<byte>, b: byte, q: nat, r: (nat, seq<byte>))
    requires DecodeSymbol(ll, src, p) == Some((b, q)) && CodesAre(ll, dl, src, q, out + [b], r)
    ensures CodesAre(ll, dl, src, p, out, r)
  {
    assert Codes(ll, dl, src, p, out) == Codes(ll, dl, src, q, out + [b]);
  }

  lemma CodesCopy(ll: seq<nat>, dl: seq<nat>, src: seq<byte>, p: nat, out: seq<byte>, sym: nat, p1: nat, t: Token, q: nat,
                  next: seq<byte>, r: (nat, seq<byte>))
    requires DecodeSymbol(ll, src, p) == Some((sym, p1)) && sym > 256
    requires t.Copy? && MatchIs(dl, src, p1, sym, t, q) && Extends(t, out, next) && CodesAre(ll, dl, src, q, next, r)
    ensures CodesAre(ll, dl, src, p, out, r)
  {
    assert Match(dl, src, p1, sym) == Some((t.length, t.dist, q));
    assert Codes(ll, dl, src, q, next) == Some(r);
    CopyStep(ll, dl, src, p, out, sym, p1, t, q);
  }

  lemma CopyStep(ll: seq<nat>, dl: seq<nat>, src: seq<byte>, p: nat, out: seq<byte>, sym: nat, p1: nat, t: Token, q: nat)
    requires DecodeSymbol(ll, src, p) == Some((sym, p1)) && sym > 256
    requires t.Copy? && Match(dl, src, p1, sym) == Some((t.length, t.dist, q)) && 0 < t.dist <= |out|
    ensures Codes(ll, dl, src, p, out) == Codes(ll, dl, src, q, CopyMatch(out, t.dist, t.length))
  {
  }

  /** A block with the fixed codes that spells tokens in reach stands for their bytes. */
  lemma {:induction false} FixedStandsFor(ll: seq<nat>, dl: seq<nat>, src: seq<byte>, p: nat, tokens: seq<Token>,
                                          ends: seq<nat>, out: seq<byte>)
    requires ll == FixedLiteralLengths() && dl == FixedDistanceLengths()
    requires |ends| == |tokens| && TokensAt(src, p, tokens, ends) && InReach(tokens, |out|)
    ensures CodesAre(ll, dl, src, p, out, Outcome(p, tokens, ends, out))
    decreases |tokens|
  {
    if tokens == [] {
      EndDecodes(ll, dl, src, p, out);
    } else {
      var next := FirstToken(tokens, out);
      FixedStandsFor(ll, dl, src, ends[0], tokens[1..], ends[1..], next);
      var r := Outcome(ends[0], tokens[1..], ends[1..], next);
      TokenDecodes(ll, dl, src, p, tokens[0], ends[0], out, next, r);
      assert r == Outcome(p, tokens, ends, out);
    }
  }

  /** The place behind the block, and the output. */
  function Outcome(p: nat, tokens: seq<Token>, ends: seq<nat>, out: seq<byte>): (nat, seq<byte>)
    requires InReach(tokens, |out|)
  {
    (EndOf(p, ends), Expand(tokens, out))
  }

  lemma FirstToken(tokens: seq<Token>, out: seq<byte>) returns (next: seq<byte>)
    requires tokens != [] && InReach(tokens, |out|)
    ensures Extends(tokens[0], out, next) && InReach(tokens[1..], |next|)
    ensures Expand(tokens, out) == Expand(tokens[1..], next)
  {
    match tokens[0]
    case Literal(b) => next := out + [b];
    case Copy(length, dist) => next := CopyMatch(out, dist, length);
  }

  /** Behind the end-of-block code. */
  function EndOf(p: nat, ends: seq<nat>): nat {
    (if ends == [] then p else ends[|ends| - 1]) + 7
  }

  /** A stream of one such block. */
  lemma FixedStream(src: seq<byte>, tokens: seq<Token>, ends: seq<nat>)
    requires LsbValue(src, 0, 1) == 1 && LsbValue(src, 1, 2) == 1 && |src| > 0
    requires |ends| == |tokens| && TokensAt(src, 3, tokens, ends) && InReach(tokens, 0)
    ensures Inflate(src) == Some(Expand(tokens, []))
  {
    var ll, dl := FixedLiteralLengths(), FixedDistanceLengths();
    FixedStandsFor(ll, dl, src, 3, tokens, ends, []);
    assert Codes(ll, dl, src, 3, []) == Some(Outcome(3, tokens, ends, []));
  }

  /** The decoder on such a stream. */
  method FixedAndUncompress(dest: array<byte>, src: seq<byte>, tokens: seq<Token>, ends: seq<nat>) returns (newLen: nat)
    requires LsbValue(src, 0, 1) == 1 && LsbValue(src, 1, 2) == 1 && |src| > 0
    requires |ends| == |tokens| && TokensAt(src, 3, tokens, ends) && InReach(tokens, 0)
    requires |Expand(tokens, [])| <= dest.Length
    modifies dest
    ensures newLen <= dest.Length && dest[..newLen] == Expand(tokens, [])
  {
    FixedStream(src, tokens, ends);
    var res;
    res, newLen := Uncompress(dest, dest.Length, src);
  }
}
