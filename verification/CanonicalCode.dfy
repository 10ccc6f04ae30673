/** Canonical Huffman codes as section 3.2.2 of RFC 1951 assigns them to a sequence of code
    lengths, and what it means for a stretch of the bit stream to spell the code of a symbol. */
module CanonicalCode {
  import opened Words
  import opened BitStream

  ghost predicate ValidLengths(lens: seq<nat>) {
    |lens| <= 288 && forall i :: 0 <= i < |lens| ==> lens[i] <= 15
  }

  /** Number of symbols with code length `l`. */
  function CountOf(lens: seq<nat>, l: nat): (c: nat)
    ensures c <= |lens|
  {
    if |lens| == 0 then 0
    else CountOf(lens[..|lens| - 1], l) + if lens[|lens| - 1] == l then 1 else 0
  }

  /** `bl_count`: length zero means that the symbol has no code. */
  function Used(lens: seq<nat>, l: nat): nat {
    if l == 0 then 0 else CountOf(lens, l)
  }

  /** `next_code`: the smallest code of length `l`. */
  function FirstCode(lens: seq<nat>, l: nat): nat {
    if l == 0 then 0 else 2 * (FirstCode(lens, l - 1) + Used(lens, l - 1))
  }

  /** The first word of length `l` that is past the codes of that length. */
  function EndCode(lens: seq<nat>, l: nat): nat {
    FirstCode(lens, l) + Used(lens, l)
  }

  /** Number of codes shorter than `l`. */
  function Offset(lens: seq<nat>, l: nat): nat {
    if l == 0 then 0 else Offset(lens, l - 1) + Used(lens, l - 1)
  }

  /** Number of symbols that have a code. */
  function NumCodes(lens: seq<nat>): nat {
    if |lens| == 0 then 0
    else NumCodes(lens[..|lens| - 1]) + if lens[|lens| - 1] > 0 then 1 else 0
  }

  /** Position of a symbol among the smaller symbols with the same code length. */
  function Rank(lens: seq<nat>, s: nat): nat
    requires s < |lens|
  {
    CountOf(lens[..s], lens[s])
  }

  /** The code of symbol `s`. */
  function CodeOf(lens: seq<nat>, s: nat): nat
    requires s < |lens|
  {
    FirstCode(lens, lens[s]) + Rank(lens, s)
  }

  /** Position of symbol `s` when all symbols are sorted by (length, value). */
  function Slot(lens: seq<nat>, s: nat): nat
    requires s < |lens|
  {
    Offset(lens, lens[s]) + Rank(lens, s)
  }

  /** The bits at `p` spell the code of symbol `s`, inside the stream. */
  ghost predicate Spells(lens: seq<nat>, src: seq<byte>, p: nat, s: nat) {
    && s < |lens| && lens[s] > 0
    && p + lens[s] <= 8 * |src|
    && MsbValue(src, p, lens[s]) == CodeOf(lens, s)
  }

  /** The largest symbol below `n` that the bits at `p` spell, if there is one. */
  ghost function SpeltBelow(lens: seq<nat>, src: seq<byte>, p: nat, n: nat): (r: Option<nat>)
    ensures r.Some? ==> r.value < n && Spells(lens, src, p, r.value)
  {
    if n == 0 then None
    else if Spells(lens, src, p, n - 1) then Some(n - 1)
    else SpeltBelow(lens, src, p, n - 1)
  }

  /** Reading one symbol at bit `p`: the symbol and the position after its code. */
  ghost function DecodeSymbol(lens: seq<nat>, src: seq<byte>, p: nat): (r: Option<(nat, nat)>)
    ensures r.Some? ==> p < r.value.1 <= 8 * |src|
  {
    match SpeltBelow(lens, src, p, |lens|)
    case None => None
    case Some(s) => Some((s, p + lens[s]))
  }

  /** Share of the code space used, in units of the longest code: 2^15 when complete. */
  function Kraft(lens: seq<nat>): nat {
    if |lens| == 0 then 0
    else
      var l := lens[|lens| - 1];
      Kraft(lens[..|lens| - 1]) + if 0 < l <= 15 then Pow2(15 - l) else 0
  }

  predicate Complete(lens: seq<nat>) {
    Kraft(lens) == 0x8000
  }

  /** Exactly one code, of length one. */
  predicate Lone(lens: seq<nat>) {
    NumCodes(lens) == 1 && CountOf(lens, 1) == 1
  }

  predicate Empty(lens: seq<nat>) {
    NumCodes(lens) == 0
  }

  // ----- counting -----

  lemma {:induction false} CountSplit(lens: seq<nat>, i: nat, l: nat)
    requires i <= |lens|
    ensures CountOf(lens, l) == CountOf(lens[..i], l) + CountOf(lens[i..], l)
  {
    if i == |lens| {
      assert lens[..i] == lens && lens[i..] == [];
    } else {
      var init := lens[..|lens| - 1];
      CountSplit(init, i, l);
      assert init[..i] == lens[..i] && lens[i..][..|lens| - i - 1] == init[i..];
    }
  }

  lemma CountStep(lens: seq<nat>, i: nat, l: nat)
    requires i < |lens|
    ensures CountOf(lens[..i + 1], l) == CountOf(lens[..i], l) + if lens[i] == l then 1 else 0
  {
    assert lens[..i + 1][..i] == lens[..i];
  }

  lemma RankBound(lens: seq<nat>, s: nat)
    requires s < |lens|
    ensures Rank(lens, s) < CountOf(lens, lens[s])
  {
    CountStep(lens, s, lens[s]);
    CountSplit(lens, s + 1, lens[s]);
  }

  lemma RankIncreases(lens: seq<nat>, s: nat, t: nat)
    requires s < t < |lens| && lens[s] == lens[t]
    ensures Rank(lens, s) < Rank(lens, t)
  {
    RankBound(lens[..t], s);
    assert lens[..t][..s] == lens[..s];
  }

  /** Every rank below the count belongs to some symbol. */
  lemma {:induction false} SymbolOfRank(lens: seq<nat>, l: nat, r: nat) returns (s: nat)
    requires r < CountOf(lens, l)
    ensures s < |lens| && lens[s] == l && Rank(lens, s) == r
  {
    var n := |lens| - 1;
    if lens[n] == l && CountOf(lens[..n], l) == r {
      s := n;
    } else {
      s := SymbolOfRank(lens[..n], l, r);
      assert lens[..n][..s] == lens[..s];
    }
  }

  lemma {:induction false} OffsetAppend(lens: seq<nat>, x: nat, m: nat)
    ensures Offset(lens + [x], m) == Offset(lens, m) + if 0 < x < m then 1 else 0
  {
    assert (lens + [x])[..|lens|] == lens;
    if m != 0 {
      OffsetAppend(lens, x, m - 1);
    }
  }

  /** All codes are shorter than 16 bits. */
  lemma {:induction false} OffsetIsNumCodes(lens: seq<nat>, m: nat)
    requires forall i :: 0 <= i < |lens| ==> lens[i] < m
    ensures Offset(lens, m) == NumCodes(lens) <= |lens|
  {
    if |lens| == 0 {
      OffsetOfNone(m);
    } else {
      var init := lens[..|lens| - 1];
      assert lens == init + [lens[|lens| - 1]];
      OffsetIsNumCodes(init, m);
      OffsetAppend(init, lens[|lens| - 1], m);
    }
  }

  lemma {:induction false} OffsetOfNone(m: nat)
    ensures Offset([], m) == 0
  {
    if m != 0 {
      OffsetOfNone(m - 1);
    }
  }

  lemma {:induction false} OffsetMonotone(lens: seq<nat>, l: nat, m: nat)
    requires l < m
    ensures Offset(lens, l) + Used(lens, l) <= Offset(lens, m)
    decreases m
  {
    if l < m - 1 {
      OffsetMonotone(lens, l, m - 1);
    }
  }

  /** Slots lie below the number of codes and are distinct. */
  lemma SlotBound(lens: seq<nat>, s: nat)
    requires s < |lens| && lens[s] > 0
    requires forall i :: 0 <= i < |lens| ==> lens[i] <= 15
    ensures Slot(lens, s) < NumCodes(lens) <= |lens|
  {
    RankBound(lens, s);
    var m := lens[s] + 16;
    OffsetMonotone(lens, lens[s], m);
    OffsetIsNumCodes(lens, m);
  }

  lemma SlotDistinct(lens: seq<nat>, s: nat, t: nat)
    requires s < |lens| && t < |lens| && s != t && lens[s] > 0 && lens[t] > 0
    ensures Slot(lens, s) != Slot(lens, t)
  {
    if lens[s] == lens[t] {
      if s < t { RankIncreases(lens, s, t); } else { RankIncreases(lens, t, s); }
    } else {
      RankBound(lens, s);
      RankBound(lens, t);
      if lens[s] < lens[t] { OffsetMonotone(lens, lens[s], lens[t]); }
      else { OffsetMonotone(lens, lens[t], lens[s]); }
    }
  }

  // ----- the code space -----

  lemma {:induction false} FirstCodeAppend(lens: seq<nat>, x: nat, m: nat)
    ensures FirstCode(lens + [x], m) == FirstCode(lens, m) + if 0 < x < m then Pow2(m - x) else 0
  {
    assert (lens + [x])[..|lens|] == lens;
    if m != 0 {
      FirstCodeAppend(lens, x, m - 1);
    }
  }

  lemma {:induction false} FirstCodeOfNone(m: nat)
    ensures FirstCode([], m) == 0
  {
    if m != 0 {
      FirstCodeOfNone(m - 1);
    }
  }

  /** Doubling the end of the codes of length 15 measures the whole code space used. */
  lemma {:induction false} KraftIsFirstCode(lens: seq<nat>, m: nat)
    requires forall i :: 0 <= i < |lens| ==> lens[i] <= 15
    requires m == 16
    ensures FirstCode(lens, m) == 2 * Kraft(lens)
  {
    if |lens| == 0 {
      FirstCodeOfNone(m);
    } else {
      var init, x := lens[..|lens| - 1], lens[|lens| - 1];
      assert lens == init + [x];
      KraftIsFirstCode(init, m);
      FirstCodeAppend(init, x, m);
      assert x > 0 ==> Pow2(m - x) == 2 * Pow2(15 - x);
    }
  }

  /** Codes of length `l`, extended to `m` bits, end before the codes of length `m` start. */
  lemma {:induction false} CodesAscend(lens: seq<nat>, l: nat, m: nat)
    requires l < m
    ensures Shl(FirstCode(lens, l) + Used(lens, l), m - l) <= FirstCode(lens, m)
    decreases m
  {
    if l < m - 1 {
      CodesAscend(lens, l, m - 1);
    }
  }

  lemma {:induction false} MsbPrefix(src: seq<byte>, p: nat, l: nat, m: nat)
    requires l <= m
    ensures MsbValue(src, p, m) < Shl(MsbValue(src, p, l) + 1, m - l)
    decreases m
  {
    if l < m {
      MsbPrefix(src, p, l, m - 1);
    }
  }

  /** Bits that fall inside the codes of length `l` cannot spell a longer code. */
  lemma NoLongerCode(lens: seq<nat>, src: seq<byte>, p: nat, l: nat, t: nat)
    requires t < |lens| && l < lens[t]
    requires MsbValue(src, p, l) < FirstCode(lens, l) + Used(lens, l)
    ensures !Spells(lens, src, p, t)
  {
    BeforeLongerCodes(lens, src, p, l, lens[t]);
  }

  lemma BeforeLongerCodes(lens: seq<nat>, src: seq<byte>, p: nat, l: nat, m: nat)
    requires l < m
    requires MsbValue(src, p, l) < FirstCode(lens, l) + Used(lens, l)
    ensures MsbValue(src, p, m) < FirstCode(lens, m)
  {
    MsbPrefix(src, p, l, m);
    CodesAscend(lens, l, m);
    ShlMonotone(MsbValue(src, p, l) + 1, FirstCode(lens, l) + Used(lens, l), m - l);
  }

  lemma SpellsUnique(lens: seq<nat>, src: seq<byte>, p: nat, s: nat, t: nat)
    requires Spells(lens, src, p, s) && Spells(lens, src, p, t)
    ensures s == t
  {
    RankBound(lens, s);
    RankBound(lens, t);
    if lens[s] < lens[t] {
      NoLongerCode(lens, src, p, lens[s], t);
    } else if lens[t] < lens[s] {
      NoLongerCode(lens, src, p, lens[t], s);
    } else if s < t {
      RankIncreases(lens, s, t);
    } else if t < s {
      RankIncreases(lens, t, s);
    }
  }

  /** The decoder returns the one symbol whose code the bits spell. */
  lemma DecodeSymbolIs(lens: seq<nat>, src: seq<byte>, p: nat, s: nat)
    requires Spells(lens, src, p, s)
    ensures DecodeSymbol(lens, src, p) == Some((s, p + lens[s]))
  {
    SpeltIs(lens, src, p, s, |lens|);
  }

  lemma {:induction false} SpeltIs(lens: seq<nat>, src: seq<byte>, p: nat, s: nat, n: nat)
    requires Spells(lens, src, p, s) && s < n
    ensures SpeltBelow(lens, src, p, n) == Some(s)
  {
    if Spells(lens, src, p, n - 1) {
      SpellsUnique(lens, src, p, s, n - 1);
    } else {
      SpeltIs(lens, src, p, s, n - 1);
    }
  }

  lemma {:induction false} NothingSpelt(lens: seq<nat>, src: seq<byte>, p: nat, n: nat)
    requires forall s: nat :: s < n ==> !Spells(lens, src, p, s)
    ensures SpeltBelow(lens, src, p, n).None?
  {
    if n != 0 {
      NothingSpelt(lens, src, p, n - 1);
    }
  }

  /** Decoding fails exactly when the bits spell no code inside the stream. */
  lemma DecodeSymbolNone(lens: seq<nat>, src: seq<byte>, p: nat)
    ensures DecodeSymbol(lens, src, p).None? <==> forall s: nat :: !Spells(lens, src, p, s)
  {
    if forall s: nat :: !Spells(lens, src, p, s) {
      NothingSpelt(lens, src, p, |lens|);
    } else {
      var s: nat :| Spells(lens, src, p, s);
      DecodeSymbolIs(lens, src, p, s);
    }
  }

  /** A complete code leaves no word of the greatest length undecoded. */
  lemma CompleteCovers(lens: seq<nat>, len: nat, v: nat)
    requires forall i :: 0 <= i < |lens| ==> lens[i] <= 15
    requires len == 15 && Complete(lens) && v < Pow2(len)
    ensures v < FirstCode(lens, len) + Used(lens, len)
  {
    KraftIsFirstCode(lens, len + 1);
    Pow2At(len);
  }

  /** Bits that lie below the end of the codes of some length start with a code. */
  lemma {:induction false} StartsWithCode(lens: seq<nat>, src: seq<byte>, p: nat, len: nat) returns (s: nat)
    requires MsbValue(src, p, len) < EndCode(lens, len) && p + len <= 8 * |src|
    ensures Spells(lens, src, p, s) && lens[s] <= len
    decreases len
  {
    var u := MsbValue(src, p, len - 1);
    if u < EndCode(lens, len - 1) {
      s := StartsWithCode(lens, src, p, len - 1);
    } else {
      s := SymbolOfRank(lens, len, MsbValue(src, p, len) - FirstCode(lens, len));
    }
  }

  /** With a complete code, every position that has 15 bits left starts with the code of some symbol. */
  lemma CompleteDecodes(lens: seq<nat>, src: seq<byte>, p: nat, len: nat)
    requires forall i :: 0 <= i < |lens| ==> lens[i] <= 15
    requires Complete(lens) && len == 15 && p + len <= 8 * |src|
    ensures DecodeSymbol(lens, src, p).Some? && exists s: nat :: Spells(lens, src, p, s)
  {
    MsbBound(src, p, len);
    CompleteCovers(lens, len, MsbValue(src, p, len));
    var s := StartsWithCode(lens, src, p, len);
    DecodeSymbolNone(lens, src, p);
  }

  /** Each code takes at most half of the code space, so one code alone is never complete. */
  lemma {:induction false} KraftBound(lens: seq<nat>)
    ensures Kraft(lens) <= 0x4000 * NumCodes(lens)
  {
    if |lens| != 0 {
      var init, x := lens[..|lens| - 1], lens[|lens| - 1];
      KraftBound(init);
      if 0 < x <= 15 {
        HalfSpace(15 - x, 14);
      }
    }
  }

  lemma HalfSpace(k: nat, m: nat)
    requires k <= m == 14
    ensures Pow2(k) <= 0x4000
  {
    Pow2Monotone(k, m);
    Pow2At(m);
  }

  lemma CompleteHasTwo(lens: seq<nat>)
    requires Kraft(lens) >= 0x8000
    ensures NumCodes(lens) > 1
  {
    KraftBound(lens);
  }

  /** More codes of some length than the space left means an over-subscribed code. */
  lemma OverSubscribed(lens: seq<nat>, i: nat)
    requires forall i :: 0 <= i < |lens| ==> lens[i] <= 15
    requires i <= 15 && FirstCode(lens, i) + Used(lens, i) > Pow2(i)
    ensures Kraft(lens) > 0x8000
  {
    OverSubscribedAt(lens, i, 16);
  }

  lemma OverSubscribedAt(lens: seq<nat>, i: nat, m: nat)
    requires forall i :: 0 <= i < |lens| ==> lens[i] <= 15
    requires m == 16 && i < m && EndCode(lens, i) > Pow2(i)
    ensures Kraft(lens) > 0x8000
  {
    ExcessGrows(lens, i, m);
    KraftIsFirstCode(lens, m);
    Pow2At(m);
  }

  lemma ExcessGrows(lens: seq<nat>, i: nat, m: nat)
    requires i < m && EndCode(lens, i) > Pow2(i)
    ensures FirstCode(lens, m) > Pow2(m)
  {
    CodesAscend(lens, i, m);
    ShlMonotone(Pow2(i) + 1, EndCode(lens, i), m - i);
    ShlPow2(i, m - i);
  }

  lemma {:induction false} ShlPow2(i: nat, k: nat)
    ensures Shl(Pow2(i) + 1, k) > Pow2(i + k)
  {
    if k != 0 {
      ShlPow2(i, k - 1);
    }
  }

  /** No symbol with a code shorter than `len` is spelt at `p`. */
  ghost predicate NoneShorter(lens: seq<nat>, src: seq<byte>, p: nat, len: nat) {
    forall s: nat {:trigger Spells(lens, src, p, s)} :: s < |lens| && lens[s] < len ==> !Spells(lens, src, p, s)
  }

  lemma NoneShorterStep(lens: seq<nat>, src: seq<byte>, p: nat, len: nat)
    requires NoneShorter(lens, src, p, len)
    requires MsbValue(src, p, len) >= FirstCode(lens, len) + Used(lens, len)
    ensures NoneShorter(lens, src, p, len + 1)
  {
    forall s: nat | s < |lens| && lens[s] < len + 1
      ensures !Spells(lens, src, p, s)
    {
      RankBound(lens, s);
    }
  }

  lemma TruncatedCode(lens: seq<nat>, src: seq<byte>, p: nat, len: nat)
    requires NoneShorter(lens, src, p, len) && p + len > 8 * |src|
    ensures DecodeSymbol(lens, src, p).None?
  {
    DecodeSymbolNone(lens, src, p);
  }

  /** The word `v` of `len` bits is the code of the symbol at slot Offset + (v - FirstCode). */
  lemma SymbolAt(lens: seq<nat>, len: nat, offs: nat) returns (s: nat)
    requires 0 < len && offs < CountOf(lens, len)
    ensures s < |lens| && lens[s] == len
    ensures Slot(lens, s) == Offset(lens, len) + offs && CodeOf(lens, s) == FirstCode(lens, len) + offs
  {
    s := SymbolOfRank(lens, len, offs);
  }

  /** In a lone code the bit 1 spells nothing. */
  lemma LoneOne(lens: seq<nat>, src: seq<byte>, p: nat)
    requires Lone(lens) && MsbValue(src, p, 1) == 1
    requires forall i :: 0 <= i < |lens| ==> lens[i] <= 15
    ensures DecodeSymbol(lens, src, p).None?
  {
    forall s: nat | s < |lens| && lens[s] > 0
      ensures !Spells(lens, src, p, s)
    {
      LoneLength(lens, s);
      RankBound(lens, s);
      assert FirstCode(lens, 1) == 0;
    }
    DecodeSymbolNone(lens, src, p);
  }

  lemma LoneLength(lens: seq<nat>, s: nat)
    requires Lone(lens) && s < |lens| && lens[s] > 0
    requires forall i :: 0 <= i < |lens| ==> lens[i] <= 15
    ensures lens[s] == 1
  {
    RankBound(lens, s);
    if lens[s] > 1 {
      var m := lens[s] + 16;
      OffsetMonotone(lens, 1, lens[s]);
      OffsetMonotone(lens, lens[s], m);
      OffsetIsNumCodes(lens, m);
    }
  }

  lemma LoneSame(lens: seq<nat>, s: nat, t: nat)
    requires Lone(lens) && s < |lens| && t < |lens| && lens[s] > 0 && lens[t] > 0
    requires forall i :: 0 <= i < |lens| ==> lens[i] <= 15
    ensures s == t
  {
    LoneLength(lens, s);
    LoneLength(lens, t);
    RankBound(lens, s);
    RankBound(lens, t);
    if s < t { RankIncreases(lens, s, t); } else if t < s { RankIncreases(lens, t, s); }
  }
}
