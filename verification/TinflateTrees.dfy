/** Construction of the code tables: from code lengths, and the two fixed codes. */
module TinflateTrees {
  import opened Words
  import opened CanonicalCode
  import opened DeflateFormat
  import opened Tinflate

  /** tinf_build_tree: succeeds exactly on acceptable lengths, and then the table describes them. */
  method BuildTree(t: Tree, lens: seq<nat>) returns (res: Status)
    requires t.Shaped() && ValidLengths(lens)
    modifies t, t.counts, t.symbols
    ensures res == TinfOk || res == DataError
    ensures res == TinfOk <==> Acceptable(lens)
    ensures res == TinfOk ==> t.TopsAt(lens)
    ensures res == TinfOk ==> (t.maxSym == -1 <==> Empty(lens))
    ensures res == TinfOk && !Empty(lens) ==> t.Describes(lens)
  {
    CountLengths(t, lens);
    var ok, offs, numCodes, available := ComputeOffsets(t, lens);
    if !ok {
      return DataError;
    }
    AcceptanceTest(lens, numCodes, available, t.counts[1]);
    if (numCodes > 1 && available > 0) || (numCodes == 1 && t.counts[1] != 1) {
      return DataError;
    }
    FillSymbols(t, lens, offs);
    EmptyIffNoMax(t, lens);
    if numCodes == 1 {
      ghost var before := t.symbols[..];
      t.counts[1] := 2;
      t.symbols[1] := t.maxSym + 1;
      PadKeepsOrder(lens, before, t.symbols[..]);
    }
    res := TinfOk;
  }

  /** First loops of tinf_build_tree: codes per length, and the largest symbol in use. */
  method CountLengths(t: Tree, lens: seq<nat>)
    requires t.Shaped() && ValidLengths(lens)
    modifies t`maxSym, t.counts
    ensures forall l :: 0 <= l <= 15 ==> t.counts[l] == Used(lens, l)
    ensures t.TopsAt(lens)
  {
    ClearCounts(t);
    t.maxSym := -1;
    for i := 0 to |lens|
      invariant forall l :: 0 <= l <= 15 ==> t.counts[l] == Used(lens[..i], l)
      invariant t.TopsAt(lens[..i])
    {
      forall l | 0 <= l <= 15
        ensures CountOf(lens[..i + 1], l) == CountOf(lens[..i], l) + if lens[i] == l then 1 else 0
      {
        CountStep(lens, i, l);
      }
      if lens[i] != 0 {
        t.maxSym := i;
        t.counts[lens[i]] := t.counts[lens[i]] + 1;
      }
    }
    assert lens[..|lens|] == lens;
  }

  /** The offset loop: starts of the runs in the sorted table, and the code space left over. */
  method ComputeOffsets(t: Tree, lens: seq<nat>)
    returns (ok: bool, offs: array<nat>, numCodes: nat, available: nat)
    requires t.Shaped() && ValidLengths(lens)
    requires forall l :: 0 <= l <= 15 ==> t.counts[l] == Used(lens, l)
    ensures fresh(offs) && offs.Length == 16
    ensures !ok ==> !Acceptable(lens)
    ensures ok ==> numCodes == NumCodes(lens) && available + 2 * Kraft(lens) == 0x10000
    ensures ok ==> forall l :: 0 <= l <= 15 ==> offs[l] == Offset(lens, l)
  {
    offs := new nat[16](_ => 0);
    available, numCodes := 1, 0;
    var i := 0;
    while i < 16
      invariant i <= 16
      invariant available + FirstCode(lens, i) == Pow2(i)
      invariant numCodes == Offset(lens, i)
      invariant forall l :: 0 <= l < i ==> offs[l] == Offset(lens, l)
    {
      var used := t.counts[i];
      if used > available {
        OverSubscribed(lens, i);
        RejectOverSubscribed(lens);
        return false, offs, numCodes, available;
      }
      assert FirstCode(lens, i + 1) == 2 * (FirstCode(lens, i) + used);
      available := 2 * (available - used);
      offs[i] := numCodes;
      numCodes := numCodes + used;
      i := i + 1;
    }
    OffsetIsNumCodes(lens, i);
    KraftIsFirstCode(lens, i);
    Pow2At(i);
    ok := true;
  }

  lemma RejectOverSubscribed(lens: seq<nat>)
    requires Kraft(lens) > 0x8000
    ensures !Acceptable(lens)
  {
    CompleteHasTwo(lens);
  }

  /** The test on the counters is the acceptance condition on the lengths. */
  lemma AcceptanceTest(lens: seq<nat>, numCodes: nat, available: nat, ones: nat)
    requires numCodes == NumCodes(lens) && available + 2 * Kraft(lens) == 0x10000
    requires ones == CountOf(lens, 1)
    ensures ((numCodes > 1 && available > 0) || (numCodes == 1 && ones != 1)) <==> !Acceptable(lens)
  {
    if Complete(lens) {
      CompleteHasTwo(lens);
    }
  }

  lemma {:induction false} EmptyIffNoMax(t: Tree, lens: seq<nat>)
    requires t.TopsAt(lens)
    ensures t.maxSym == -1 <==> Empty(lens)
  {
    if |lens| > 0 {
      var n := |lens| - 1;
      if lens[n] == 0 {
        EmptyIffNoMax(t, lens[..n]);
      }
    }
  }

  /** Distribution sort of the symbols by code length. */
  method FillSymbols(t: Tree, lens: seq<nat>, offs: array<nat>)
    requires t.Shaped() && ValidLengths(lens)
    requires offs.Length == 16 && offs != t.symbols && offs != t.counts
    requires forall l :: 0 <= l <= 15 ==> offs[l] == Offset(lens, l)
    modifies t.symbols, offs
    ensures SymbolsSorted(lens, t.symbols[..])
  {
    OffsetsStart(lens, offs[..]);
    for i := 0 to |lens|
      invariant OffsetsAfter(lens, offs[..], i)
      invariant SortedUpTo(lens, t.symbols[..], i)
    {
      OffsetsAdvance(lens, offs[..], i);
      if lens[i] != 0 {
        var slot := offs[lens[i]];
        ghost var symbols, starts := t.symbols[..], offs[..];
        PlaceSymbol(lens, symbols, i, slot);
        t.symbols[slot] := i;
        offs[lens[i]] := slot + 1;
        assert t.symbols[..] == symbols[slot := i] && offs[..] == starts[lens[i] := slot + 1];
      }
    }
  }

  /** Next free slot for each length after the first `n` symbols are placed. */
  ghost predicate OffsetsAfter(lens: seq<nat>, offs: seq<nat>, n: nat) {
    |offs| == 16 && n <= |lens| &&
    forall l :: 1 <= l <= 15 ==> offs[l] == Offset(lens, l) + CountOf(lens[..n], l)
  }

  lemma OffsetsStart(lens: seq<nat>, offs: seq<nat>)
    requires |offs| == 16 && forall l :: 0 <= l <= 15 ==> offs[l] == Offset(lens, l)
    ensures OffsetsAfter(lens, offs, 0)
  {
    assert lens[..0] == [];
  }

  lemma OffsetsAdvance(lens: seq<nat>, offs: seq<nat>, i: nat)
    requires ValidLengths(lens) && OffsetsAfter(lens, offs, i) && i < |lens|
    ensures lens[i] == 0 ==> OffsetsAfter(lens, offs, i + 1)
    ensures lens[i] != 0 ==> offs[lens[i]] == Slot(lens, i)
    ensures lens[i] != 0 ==> OffsetsAfter(lens, offs[lens[i] := offs[lens[i]] + 1], i + 1)
  {
    forall l | 1 <= l <= 15
      ensures CountOf(lens[..i + 1], l) == CountOf(lens[..i], l) + if lens[i] == l then 1 else 0
    {
      CountStep(lens, i, l);
    }
  }

  ghost predicate SortedUpTo(lens: seq<nat>, symbols: seq<nat>, n: nat) {
    forall s {:trigger Slot(lens, s)} :: 0 <= s < n && s < |lens| && lens[s] > 0 ==>
      Slot(lens, s) < |symbols| && symbols[Slot(lens, s)] == s
  }

  lemma PlaceSymbol(lens: seq<nat>, symbols: seq<nat>, i: nat, slot: nat)
    requires ValidLengths(lens) && |symbols| == 288 && i < |lens| && lens[i] > 0
    requires SortedUpTo(lens, symbols, i) && slot == Slot(lens, i)
    ensures slot < |symbols| && SortedUpTo(lens, symbols[slot := i], i + 1)
  {
    SlotBound(lens, i);
    forall s | 0 <= s < i && lens[s] > 0
      ensures Slot(lens, s) != slot
    {
      SlotDistinct(lens, s, i);
    }
  }

  lemma PadKeepsOrder(lens: seq<nat>, before: seq<nat>, after: seq<nat>)
    requires ValidLengths(lens) && SymbolsSorted(lens, before) && NumCodes(lens) == 1
    requires |before| == |after| == 288 && after == before[1 := after[1]]
    ensures SymbolsSorted(lens, after)
  {
    forall s | 0 <= s < |lens| && lens[s] > 0
      ensures Slot(lens, s) == 0
    {
      SlotBound(lens, s);
    }
  }

  // ----- the fixed codes -----

  /** Size of the part of a..b that lies below s. */
  function Clip(s: nat, a: nat, b: nat): nat
    requires a <= b
  {
    if s < a then 0 else if s < b then s - a else b - a
  }

  lemma {:induction false} FixedLiteralCount(s: nat, l: nat)
    requires s <= 288
    ensures CountOf(FixedLiteralLengths()[..s], l) ==
      if l == 7 then Clip(s, 256, 280) else if l == 8 then Clip(s, 0, 144) + Clip(s, 280, 288)
      else if l == 9 then Clip(s, 144, 256) else 0
  {
    if s != 0 {
      FixedLiteralCount(s - 1, l);
      CountStep(FixedLiteralLengths(), s - 1, l);
    }
  }

  lemma FixedLiteralUsed(l: nat)
    ensures CountOf(FixedLiteralLengths(), l) == if l == 7 then 24 else if l == 8 then 152 else if l == 9 then 112 else 0
  {
    FixedLiteralCount(288, l);
    assert FixedLiteralLengths()[..288] == FixedLiteralLengths();
  }

  lemma {:induction false} FixedLiteralSpace(m: nat)
    ensures FirstCode(FixedLiteralLengths(), m) ==
      if m <= 7 then 0 else if m == 8 then 48 else if m == 9 then 400 else Pow2(m)
    ensures Offset(FixedLiteralLengths(), m) ==
      if m <= 7 then 0 else if m == 8 then 24 else if m == 9 then 176 else 288
  {
    if m != 0 {
      FixedLiteralSpace(m - 1);
      FixedLiteralUsed(m - 1);
    }
  }

  lemma FixedLiteralSlot(s: nat)
    requires s < 288
    ensures Slot(FixedLiteralLengths(), s) ==
      if s < 144 then 24 + s else if s < 256 then 176 + (s - 144) else if s < 280 then s - 256 else 168 + (s - 280)
  {
    var l := FixedLiteralLengths()[s];
    FixedLiteralSpace(l);
    FixedLiteralCount(s, l);
  }

  lemma {:induction false} FixedDistanceCount(s: nat, l: nat)
    requires s <= 32
    ensures CountOf(FixedDistanceLengths()[..s], l) == if l == 5 then s else 0
  {
    if s != 0 {
      FixedDistanceCount(s - 1, l);
      CountStep(FixedDistanceLengths(), s - 1, l);
    }
  }

  lemma FixedDistanceUsed(l: nat)
    ensures CountOf(FixedDistanceLengths(), l) == if l == 5 then 32 else 0
  {
    FixedDistanceCount(32, l);
    assert FixedDistanceLengths()[..32] == FixedDistanceLengths();
  }

  lemma {:induction false} FixedDistanceSpace(m: nat)
    ensures FirstCode(FixedDistanceLengths(), m) == if m <= 5 then 0 else Pow2(m)
    ensures Offset(FixedDistanceLengths(), m) == if m <= 5 then 0 else 32
  {
    if m != 0 {
      FixedDistanceSpace(m - 1);
      FixedDistanceUsed(m - 1);
    }
  }

  lemma FixedDistanceSlot(s: nat)
    requires s < 32
    ensures Slot(FixedDistanceLengths(), s) == s
  {
    var l := FixedDistanceLengths()[s];
    FixedDistanceSpace(l);
    FixedDistanceCount(s, l);
  }

  /** Both fixed codes use up the whole code space. */
  lemma FixedLiteralComplete(m: nat)
    requires m == 16
    ensures Complete(FixedLiteralLengths()) && !Lone(FixedLiteralLengths())
  {
    var lens := FixedLiteralLengths();
    assert forall i :: 0 <= i < |lens| ==> lens[i] <= 15;
    assert FirstCode(lens, m) == 0x10000 by {
      FixedLiteralSpace(m);
      Pow2At(m);
    }
    KraftIsFirstCode(lens, m);
    FixedLiteralUsed(1);
  }

  lemma FixedDistanceComplete(m: nat)
    requires m == 16
    ensures Complete(FixedDistanceLengths()) && !Lone(FixedDistanceLengths())
  {
    FixedDistanceSpace(m);
    KraftIsFirstCode(FixedDistanceLengths(), m);
    Pow2At(m);
    FixedDistanceUsed(1);
  }

  /** tinf_build_fixed_trees. */
  method BuildFixedTrees(lt: Tree, dt: Tree)
    requires lt.Shaped() && dt.Shaped()
    requires lt != dt && {lt.counts, lt.symbols} !! {dt.counts, dt.symbols}
    modifies lt, lt.counts, lt.symbols, dt, dt.counts, dt.symbols
    ensures lt.Describes(FixedLiteralLengths()) && lt.maxSym == 285
    ensures dt.Describes(FixedDistanceLengths()) && dt.maxSym == 29
  {
    BuildFixedLiteralTree(lt);
    BuildFixedDistanceTree(dt);
  }

  method BuildFixedLiteralTree(lt: Tree)
    requires lt.Shaped()
    modifies lt, lt.counts, lt.symbols
    ensures lt.Describes(FixedLiteralLengths()) && lt.maxSym == 285
  {
    ClearCounts(lt);
    lt.counts[7], lt.counts[8], lt.counts[9] := 24, 152, 112;
    FillFixedLiteralSymbols(lt);
    lt.maxSym := 285;
    forall s | 0 <= s < 288
      ensures Slot(FixedLiteralLengths(), s) < 288 && lt.symbols[Slot(FixedLiteralLengths(), s)] == s
    {
      FixedLiteralSlot(s);
    }
    forall l | 1 <= l <= 15
      ensures lt.counts[l] == CountOf(FixedLiteralLengths(), l)
    {
      FixedLiteralUsed(l);
    }
    FixedLiteralComplete(16);
  }

  method ClearCounts(t: Tree)
    requires t.Shaped()
    modifies t.counts
    ensures forall l :: 0 <= l < 16 ==> t.counts[l] == 0
  {
    for i := 0 to 16
      invariant forall l :: 0 <= l < i ==> t.counts[l] == 0
    {
      t.counts[i] := 0;
    }
  }

  method FillFixedLiteralSymbols(lt: Tree)
    requires lt.Shaped()
    modifies lt.symbols
    ensures forall k :: 0 <= k < 24 ==> lt.symbols[k] == 256 + k
    ensures forall k :: 24 <= k < 168 ==> lt.symbols[k] == k - 24
    ensures forall k :: 168 <= k < 176 ==> lt.symbols[k] == 280 + k - 168
    ensures forall k :: 176 <= k < 288 ==> lt.symbols[k] == 144 + k - 176
  {
    for i := 0 to 24
      invariant forall k :: 0 <= k < i ==> lt.symbols[k] == 256 + k
    {
      lt.symbols[i] := 256 + i;
    }
    for i := 0 to 144
      invariant forall k :: 0 <= k < 24 ==> lt.symbols[k] == 256 + k
      invariant forall k :: 24 <= k < 24 + i ==> lt.symbols[k] == k - 24
    {
      lt.symbols[24 + i] := i;
    }
    for i := 0 to 8
      invariant forall k :: 0 <= k < 24 ==> lt.symbols[k] == 256 + k
      invariant forall k :: 24 <= k < 168 ==> lt.symbols[k] == k - 24
      invariant forall k :: 168 <= k < 168 + i ==> lt.symbols[k] == 280 + k - 168
    {
      lt.symbols[24 + 144 + i] := 280 + i;
    }
    for i := 0 to 112
      invariant forall k :: 0 <= k < 24 ==> lt.symbols[k] == 256 + k
      invariant forall k :: 24 <= k < 168 ==> lt.symbols[k] == k - 24
      invariant forall k :: 168 <= k < 176 ==> lt.symbols[k] == 280 + k - 168
      invariant forall k :: 176 <= k < 176 + i ==> lt.symbols[k] == 144 + k - 176
    {
      lt.symbols[24 + 144 + 8 + i] := 144 + i;
    }
  }

  method BuildFixedDistanceTree(dt: Tree)
    requires dt.Shaped()
    modifies dt, dt.counts, dt.symbols
    ensures dt.Describes(FixedDistanceLengths()) && dt.maxSym == 29
  {
    for i := 0 to 32
      invariant forall k :: 0 <= k < i ==> dt.symbols[k] == k
    {
      dt.symbols[i] := i;
    }
    ClearCounts(dt);
    dt.counts[5] := 32;
    dt.maxSym := 29;
    forall s | 0 <= s < 32
      ensures Slot(FixedDistanceLengths(), s) < 288 && dt.symbols[Slot(FixedDistanceLengths(), s)] == s
    {
      FixedDistanceSlot(s);
    }
    forall l | 1 <= l <= 15
      ensures dt.counts[l] == CountOf(FixedDistanceLengths(), l)
    {
      FixedDistanceUsed(l);
    }
    FixedDistanceComplete(16);
  }
}
