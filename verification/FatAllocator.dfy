/** create_chain, remove_chain and f_getfree on a mounted volume. */
module FatAllocator {
  import opened Words
  import opened FatImage
  import opened FatVolume
  import opened FatChains

  /** The cached number of free clusters is exact, or marked unknown by a value out of range. */
  ghost predicate CountExact(v: Volume)
    reads v
  {
    v.freeClst <= v.nFatent - 2 ==> v.freeClst == FreeCount(v.fat)
  }

  /** No entry holds the reserved value 1. */
  ghost predicate NoReserved(fat: seq<nat>) {
    forall c {:trigger fat[c]} :: InRange(fat, c) ==> fat[c] != 1
  }

  ghost predicate NoneFree(fat: seq<nat>) {
    forall c {:trigger fat[c]} :: InRange(fat, c) ==> fat[c] != 0
  }

  /** What an entry holds after the end mark 0xFFFFFFFF is written to it. */
  function EndMark(t: FatType): nat {
    Masked(t, 0xFFFF_FFFF)
  }

  lemma MasksHold(v: Volume, c: nat)
    requires v.Geometry() && c < v.nFatent
    ensures EndMark(v.fsType) >= v.nFatent && Masked(v.fsType, c) == c && Masked(v.fsType, 0) == 0
  {
  }

  /** `c` is passed on the way from `scl` to `ncl`, which wraps around at the end of the table. */
  predicate OnTheWay(scl: nat, c: int, ncl: nat) {
    if scl < ncl then scl < c < ncl else scl < c || c < ncl
  }

  /** The first free cluster after `scl`, round the table. */
  ghost predicate FirstFree(fat: seq<nat>, scl: nat, ncl: nat) {
    && InRange(fat, ncl) && fat[ncl] == 0
    && forall c {:trigger fat[c]} :: 2 <= c < |fat| && OnTheWay(scl, c, ncl) ==> fat[c] != 0
  }

  /** The cluster that is taken: for a new chain the first free one after the last allocated; for a chain
      that is stretched the next one, or else again the first free one after the last allocated. */
  ghost predicate Chosen(fat: seq<nat>, clst: nat, last: nat, ncl: nat) {
    if clst == 0 then FirstFree(fat, if 0 < last < |fat| then last else 1, ncl)
    else
      var next := if clst + 1 < |fat| then clst + 1 else 2;
      if next < |fat| && fat[next] == 0 then ncl == next
      else FirstFree(fat, if 2 <= last < |fat| then last else clst, ncl)
  }

  /** The wrap-around search of create_chain: every cluster after `scl`, then from 2 up to `scl`. */
  method FindFree(v: Volume, scl: nat) returns (ncl: nat)
    requires v.Valid() && 1 <= scl < v.nFatent
    modifies v`wflag, v`winsect, v.win, v.disk
    ensures v.Valid() && v.FatKept() && (old(v.Mirrored()) ==> v.Mirrored())
    ensures ncl == 0 ==> NoneFree(v.fat)
    ensures ncl == 1 ==> !NoReserved(v.fat)
    ensures ncl >= 2 ==> FirstFree(v.fat, scl, ncl)
  {
    ncl := scl;
    ghost var wrapped := false;
    while true
      invariant v.Valid() && v.FatKept() && (old(v.Mirrored()) ==> v.Mirrored())
      invariant if wrapped then 2 <= ncl < scl else scl <= ncl < v.nFatent
      invariant !wrapped ==> forall c {:trigger v.fat[c]} :: scl < c <= ncl ==> v.fat[c] != 0
      invariant wrapped ==> forall c {:trigger v.fat[c]} :: scl < c < v.nFatent || 2 <= c <= ncl ==> v.fat[c] != 0
      decreases if wrapped then scl - ncl else v.nFatent - ncl + scl
    {
      ncl := ncl + 1;
      if ncl >= v.nFatent {
        ncl := 2;
        wrapped := true;
        if ncl > scl {
          return 0;
        }
      }
      var cs := v.GetFat(ncl);
      if cs == 0 {
        return;
      }
      if cs == 1 {
        return 1;
      }
      if ncl == scl {
        return 0;
      }
    }
  }

  /** create_chain: follow an existing link, or allocate a cluster as a new chain or after a tail.
      A result of 0 means that no cluster is free, and 1 that a reserved entry was met, so without
      reserved entries it fails to allocate exactly when no cluster is free. */
  method CreateChain(v: Volume, clst: nat) returns (ncl: nat)
    requires v.Valid() && CountExact(v)
    modifies v`wflag, v`winsect, v`img, v`fat, v`lastClst, v`freeClst, v.win, v.disk
    ensures v.Valid() && CountExact(v) && v.DataKept() && (old(v.Mirrored()) ==> v.Mirrored())
    ensures ncl < 2 || Follows(old(v.fat), clst) ==> v.fat == old(v.fat)
    ensures Follows(old(v.fat), clst) ==> ncl == v.fat[clst]
    ensures clst != 0 && (!InRange(old(v.fat), clst) || old(v.fat[clst]) < 2) ==> ncl == 1
    ensures Allocates(old(v.fat), clst) && ncl >= 2 ==>
      && InRange(old(v.fat), ncl) && old(v.fat)[ncl] == 0
      && v.fat == WithCluster(old(v.fat), clst, ncl, EndMark(v.fsType))
      && Chosen(old(v.fat), clst, old(v.lastClst), ncl) && v.lastClst == ncl
    ensures Allocates(old(v.fat), clst) && ncl == 0 ==> NoneFree(old(v.fat))
    ensures Allocates(old(v.fat), clst) && ncl == 1 ==> !NoReserved(old(v.fat))
    ensures NoneFree(old(v.fat)) ==> ncl < 2 || Follows(old(v.fat), clst)
  {
    var scl, cs;
    if clst == 0 {
      scl := v.lastClst;
      if scl == 0 || scl >= v.nFatent { scl := 1; }
    } else {
      cs := v.GetFat(clst);
      if cs < 2 {
        return 1;
      }
      if cs < v.nFatent {
        return cs;
      }
      scl := clst;
    }
    if v.freeClst == 0 {
      NoneCounted(v.fat);
      return 0;
    }
    ncl := ChooseCluster(v, clst, scl);
    if ncl < 2 {
      return;
    }
    LinkCluster(v, clst, ncl);
  }

  /** The cluster is already followed by another. */
  ghost predicate Follows(fat: seq<nat>, clst: nat) {
    InRange(fat, clst) && 2 <= fat[clst] < |fat|
  }

  /** A new chain, or one to be stretched at its end. */
  ghost predicate Allocates(fat: seq<nat>, clst: nat) {
    clst == 0 || (InRange(fat, clst) && fat[clst] >= |fat|)
  }

  /** The table after `ncl` becomes a chain end, linked from `clst` unless that is 0. */
  function WithCluster(fat: seq<nat>, clst: nat, ncl: nat, eoc: nat): seq<nat>
    requires InRange(fat, ncl) && (clst == 0 || InRange(fat, clst))
  {
    if clst == 0 then fat[ncl := eoc] else fat[ncl := eoc][clst := ncl]
  }

  lemma NoneCounted(fat: seq<nat>)
    requires FreeCount(fat) == 0
    ensures NoneFree(fat)
  {
    forall c | InRange(fat, c)
      ensures fat[c] != 0
    {
      if fat[c] == 0 {
        FreeBelowPositive(fat, c, |fat|);
      }
    }
  }

  /** The next cluster if a chain is stretched and it is free, else the search from the hint. */
  method ChooseCluster(v: Volume, clst: nat, start: nat) returns (ncl: nat)
    requires v.Valid() && 1 <= start < v.nFatent && (clst == 0 || clst == start) && clst != 1
    modifies v`wflag, v`winsect, v.win, v.disk
    ensures v.Valid() && v.FatKept() && (old(v.Mirrored()) ==> v.Mirrored())
    ensures ncl == 0 ==> NoneFree(v.fat)
    ensures ncl == 1 ==> !NoReserved(v.fat)
    ensures ncl >= 2 ==> InRange(v.fat, ncl) && v.fat[ncl] == 0
    ensures ncl >= 2 ==>
      if clst == 0 then FirstFree(v.fat, start, ncl) else Chosen(v.fat, clst, old(v.lastClst), ncl)
  {
    var scl := start;
    ncl := 0;
    if scl == clst {
      ncl := scl + 1;
      if ncl >= v.nFatent { ncl := 2; }
      var cs := v.GetFat(ncl);
      if cs == 1 {
        return 1;
      }
      if cs != 0 {
        cs := v.lastClst;
        if cs >= 2 && cs < v.nFatent { scl := cs; }
        ncl := 0;
      }
    }
    if ncl == 0 {
      ncl := FindFree(v, scl);
    }
  }

  /** Mark the new cluster as an end, link it if there is a tail, and count it. */
  method LinkCluster(v: Volume, clst: nat, ncl: nat)
    requires v.Valid() && CountExact(v) && v.freeClst != 0
    requires InRange(v.fat, ncl) && v.fat[ncl] == 0 && Allocates(v.fat, clst)
    modifies v`wflag, v`winsect, v`img, v`fat, v`lastClst, v`freeClst, v.win, v.disk
    ensures v.Valid() && CountExact(v) && v.DataKept() && (old(v.Mirrored()) ==> v.Mirrored())
    ensures v.fat == WithCluster(old(v.fat), clst, ncl, EndMark(v.fsType)) && v.lastClst == ncl
  {
    MasksHold(v, ncl);
    FreeBelowUpdate(v.fat, ncl, EndMark(v.fsType), |v.fat|);
    var ok := v.PutFat(ncl, 0xFFFF_FFFF);
    if clst != 0 {
      FreeBelowUpdate(v.fat, clst, ncl, |v.fat|);
      ok := v.PutFat(clst, ncl);
    }
    v.lastClst := ncl;
    if v.freeClst <= v.nFatent - 2 {
      v.freeClst := v.freeClst - 1;
    }
  }

  // ----- releasing -----

  /** The table with an end mark at `pclst`, where remove_chain starts. */
  function Detached(fat: seq<nat>, pclst: nat, eoc: nat): seq<nat>
    requires pclst == 0 || InRange(fat, pclst)
  {
    if pclst == 0 then fat else fat[pclst := eoc]
  }

  /** The cached count, if known, is ahead of the true one by `e`, up to the number of clusters. */
  ghost predicate Ahead(v: Volume, e: nat)
    reads v
  {
    v.freeClst <= v.nFatent - 2 ==>
      v.freeClst == if FreeCount(v.fat) + e <= v.nFatent - 2 then FreeCount(v.fat) + e else v.nFatent - 2
  }

  /** The cached count is known and the previous cluster, about to be marked as an end, is free. */
  ghost predicate MarksFree(v: Volume, pclst: nat)
    reads v
  {
    v.freeClst <= v.nFatent - 2 && InRange(v.fat, pclst) && v.fat[pclst] == 0
  }

  /** remove_chain, on any table, well-formed or not: it halts because each round zeroes a non-zero
      entry. With its arguments in range the free count stays exact if and only if it was unknown,
      the given previous cluster was not itself free, or every cluster is free afterwards. */
  method RemoveChain(v: Volume, clst: nat, pclst: nat) returns (ok: bool)
    requires v.Valid() && CountExact(v)
    modifies v`wflag, v`winsect, v`img, v`fat, v`freeClst, v.win, v.disk
    ensures v.Valid() && v.DataKept() && (old(v.Mirrored()) ==> v.Mirrored())
    ensures !InRange(old(v.fat), clst) || (pclst != 0 && !InRange(old(v.fat), pclst)) ==>
      !ok && v.fat == old(v.fat) && v.freeClst == old(v.freeClst)
    ensures InRange(old(v.fat), clst) && (pclst == 0 || InRange(old(v.fat), pclst)) ==>
      var start := Detached(old(v.fat), pclst, EndMark(v.fsType));
      v.fat == Release(start, clst) && ok == ReleaseOk(start, clst)
    ensures InRange(old(v.fat), clst) ==>
      (CountExact(v) <==> !old(MarksFree(v, pclst)) || FreeCount(v.fat) == v.nFatent - 2)
    ensures !InRange(old(v.fat), clst) ==> CountExact(v)
  {
    if clst < 2 || clst >= v.nFatent {
      return false;
    }
    ghost var e := if InRange(v.fat, pclst) && v.fat[pclst] == 0 then 1 else 0;
    if pclst != 0 {
      ok := MarkEnd(v, pclst);
      if !ok {
        return;
      }
    }
    ok := ReleaseFrom(v, clst, e);
  }

  /** The loop of remove_chain. */
  method ReleaseFrom(v: Volume, clst: nat, ghost e: nat) returns (ok: bool)
    requires v.Valid() && InRange(v.fat, clst) && Ahead(v, e)
    modifies v`wflag, v`winsect, v`img, v`fat, v`freeClst, v.win, v.disk
    ensures v.Valid() && v.DataKept() && (old(v.Mirrored()) ==> v.Mirrored())
    ensures v.fat == Release(old(v.fat), clst) && ok == ReleaseOk(old(v.fat), clst)
    ensures Ahead(v, e) && (v.freeClst <= v.nFatent - 2 <==> old(v.freeClst) <= v.nFatent - 2)
  {
    var c := clst;
    while true
      invariant v.Valid() && v.DataKept() && (old(v.Mirrored()) ==> v.Mirrored())
      invariant |v.fat| == |old(v.fat)| && InRange(v.fat, c)
      invariant Ahead(v, e) && (v.freeClst <= v.nFatent - 2 <==> old(v.freeClst) <= v.nFatent - 2)
      invariant Release(v.fat, c) == Release(old(v.fat), clst) && ReleaseOk(v.fat, c) == ReleaseOk(old(v.fat), clst)
      decreases |v.fat| - FreeCount(v.fat)
    {
      var nxt := v.GetFat(c);
      if nxt == 0 {
        return true;
      }
      if nxt == 1 {
        return false;
      }
      FreeEntry(v, c, e);
      c := nxt;
      if c >= v.nFatent {
        return true;
      }
    }
  }

  method MarkEnd(v: Volume, pclst: nat) returns (ok: bool)
    requires v.Valid() && CountExact(v)
    modifies v`wflag, v`winsect, v`img, v`fat, v.win, v.disk
    ensures v.Valid() && v.DataKept() && (old(v.Mirrored()) ==> v.Mirrored())
    ensures ok == InRange(old(v.fat), pclst)
    ensures v.fat == if ok then old(v.fat)[pclst := EndMark(v.fsType)] else old(v.fat)
    ensures Ahead(v, if ok && old(v.fat)[pclst] == 0 then 1 else 0)
  {
    if 2 <= pclst < v.nFatent {
      MasksHold(v, pclst);
      FreeBelowUpdate(v.fat, pclst, EndMark(v.fsType), |v.fat|);
    }
    ok := v.PutFat(pclst, 0xFFFF_FFFF);
  }

  /** One round of the release: the entry becomes zero and the count goes up. */
  method FreeEntry(v: Volume, c: nat, ghost e: nat)
    requires v.Valid() && InRange(v.fat, c) && v.fat[c] != 0 && Ahead(v, e)
    modifies v`wflag, v`winsect, v`img, v`fat, v`freeClst, v.win, v.disk
    ensures v.Valid() && v.DataKept() && (old(v.Mirrored()) ==> v.Mirrored())
    ensures v.fat == old(v.fat)[c := 0] && FreeCount(v.fat) == old(FreeCount(v.fat)) + 1
    ensures Ahead(v, e) && (v.freeClst <= v.nFatent - 2 <==> old(v.freeClst) <= v.nFatent - 2)
  {
    MasksHold(v, c);
    FreeBelowUpdate(v.fat, c, 0, |v.fat|);
    var ok := v.PutFat(c, 0);
    if v.freeClst < v.nFatent - 2 {
      v.freeClst := v.freeClst + 1;
    }
  }

  /** The use that f_truncate makes of remove_chain, on any table: what follows a cluster is released
      and the cluster marked as an end. A free cluster is never marked, because nothing in range
      follows it, so the count stays exact. */
  method ReleaseAfter(v: Volume, clust: nat) returns (ok: bool)
    requires v.Valid() && CountExact(v)
    modifies v`wflag, v`winsect, v`img, v`fat, v`freeClst, v.win, v.disk
    ensures v.Valid() && CountExact(v) && v.DataKept() && (old(v.Mirrored()) ==> v.Mirrored())
    ensures var next := if InRange(old(v.fat), clust) then old(v.fat)[clust] else 1;
      v.fat == if InRange(old(v.fat), next) then Release(old(v.fat)[clust := EndMark(v.fsType)], next) else old(v.fat)
  {
    ok := true;
    var ncl := v.GetFat(clust);
    if ncl == 1 {
      return false;
    }
    if ncl < v.nFatent {
      ok := RemoveChain(v, ncl, clust);
    }
  }

  /** Called otherwise it can go wrong: with cluster 2 free and clusters 3 and 4 in use, releasing 3
      behind the free cluster 2 leaves one free cluster, and a count of two. */
  lemma MiscountedRelease()
    ensures var fat := [0xFF8, 0xFFF, 0, 0xFFF, 0xFFF];
      FreeCount(fat) == 1 && FreeCount(Release(Detached(fat, 2, 0xFFF), 3)) == 1
  {
    var fat := [0xFF8, 0xFFF, 0, 0xFFF, 0xFFF];
    var marked := fat[2 := 0xFFF];
    FreeBelowUpdate(fat, 2, 0xFFF, 5);
    FreeBelowUpdate(marked, 3, 0, 5);
    assert FreeBelow(fat, 3) == 1 && FreeBelow(fat, 4) == 1 && FreeBelow(fat, 5) == 1;
    assert Release(marked[3 := 0], 0xFFF) == marked[3 := 0];
  }

  // ----- counting -----

  /** Free entries among the first `n`, the two reserved ones included. */
  function ZerosBelow(fat: seq<nat>, n: nat): nat
    requires n <= |fat|
  {
    if n == 0 then 0 else ZerosBelow(fat, n - 1) + if fat[n - 1] == 0 then 1 else 0
  }

  /** Scanning from entry 0 overcounts by the reserved entries that are zero. */
  lemma {:induction false} ZerosAreFree(fat: seq<nat>, n: nat)
    requires 2 <= n <= |fat|
    ensures ZerosBelow(fat, n) == FreeBelow(fat, n) + (if fat[0] == 0 then 1 else 0) + (if fat[1] == 0 then 1 else 0)
  {
    if n > 2 {
      ZerosAreFree(fat, n - 1);
    } else {
      assert ZerosBelow(fat, 1) == ZerosBelow(fat, 0) + if fat[0] == 0 then 1 else 0;
    }
  }

  /** A table of 16-bit size, empty but for entry 0: the scan counts one cluster too many. */
  lemma MiscountedScan()
    ensures var fat := seq(0x1000, i => if i == 0 then 0xFFF8 else 0);
      |fat| - 2 > 0xFF5 && ZerosBelow(fat, |fat|) == FreeCount(fat) + 1
  {
    var fat := seq(0x1000, i => if i == 0 then 0xFFF8 else 0);
    ZerosAreFree(fat, |fat|);
  }

  /** f_getfree: the cached count, or a scan. The scan of a 12-bit table fails exactly if an entry
      holds the reserved value 1, and stores nothing then. That of 16 and 32-bit tables starts at
      entry 0, so it is right exactly when neither reserved entry is zero. */
  method GetFree(v: Volume) returns (ok: bool, nclst: nat)
    requires v.Valid() && CountExact(v)
    modifies v`wflag, v`winsect, v`freeClst, v.win, v.disk
    ensures v.Valid() && v.fat == old(v.fat) && v.DataKept() && (old(v.Mirrored()) ==> v.Mirrored())
    ensures !ok <==> old(v.freeClst) > v.nFatent - 2 && v.fsType.Fat12? && !NoReserved(v.fat)
    ensures v.freeClst == if ok then nclst else old(v.freeClst)
    ensures ok ==>
      (nclst == FreeCount(v.fat) <==>
       old(v.freeClst) <= v.nFatent - 2 || v.fsType.Fat12? || (v.fat[0] != 0 && v.fat[1] != 0))
    ensures ok ==> FreeCount(v.fat) <= nclst <= FreeCount(v.fat) + 2
  {
    if v.freeClst <= v.nFatent - 2 {
      return true, v.freeClst;
    }
    if v.fsType.Fat12? {
      ok, nclst := Scan12(v);
      if !ok {
        return;
      }
    } else {
      ok := true;
      nclst := ScanWords(v);
      ZerosAreFree(v.fat, |v.fat|);
    }
    v.freeClst := nclst;
  }

  method Scan12(v: Volume) returns (ok: bool, nfree: nat)
    requires v.Valid()
    modifies v`wflag, v`winsect, v.win, v.disk
    ensures v.Valid() && v.FatKept() && (old(v.Mirrored()) ==> v.Mirrored())
    ensures ok == NoReserved(v.fat) && (ok ==> nfree == FreeCount(v.fat))
  {
    nfree := 0;
    var clst := 2;
    while clst < v.nFatent
      invariant 2 <= clst <= v.nFatent
      invariant v.Valid() && v.FatKept() && (old(v.Mirrored()) ==> v.Mirrored())
      invariant nfree == FreeBelow(v.fat, clst)
      invariant forall c {:trigger v.fat[c]} :: 2 <= c < clst ==> v.fat[c] != 1
    {
      var stat := v.GetFat(clst);
      if stat == 1 {
        return false, nfree;
      }
      if stat == 0 { nfree := nfree + 1; }
      clst := clst + 1;
    }
    ok := true;
  }

  /** The word-by-word scan: the window moves on whenever the offset returns to zero. */
  method ScanWords(v: Volume) returns (nfree: nat)
    requires v.Valid() && !v.fsType.Fat12?
    modifies v`wflag, v`winsect, v.win, v.disk
    ensures v.Valid() && v.FatKept() && (old(v.Mirrored()) ==> v.Mirrored())
    ensures nfree == ZerosBelow(v.fat, v.nFatent)
  {
    var width := if v.fsType.Fat16? then 2 else 4;
    var clst, sect, i := v.nFatent, v.fatbase, 0;
    nfree := 0;
    ghost var e, q, h := 0, 0, 0;
    while clst > 0
      invariant clst + e == v.nFatent
      invariant AtEntry(v, e, q, h, i, sect)
      invariant v.Valid() && v.FatKept() && (old(v.Mirrored()) ==> v.Mirrored())
      invariant nfree == ZerosBelow(v.fat, e)
    {
      var free;
      free, i, sect := ScanStep(v, e, q, h, width, i, sect);
      if free { nfree := nfree + 1; }
      clst := clst - 1;
      e, q, h := e + 1, if i == 0 then q + 1 else q, if i == 0 then 0 else h + 1;
    }
  }

  /** The scan is at entry `e`, number `h` of FAT sector `q`, which is entered next if `h` is 0. */
  ghost predicate AtEntry(v: Volume, e: nat, q: nat, h: nat, i: nat, sect: nat)
    reads v`winsect
  {
    && i == (if v.fsType.Fat16? then 2 * h else 4 * h) < 512
    && e == (if v.fsType.Fat16? then 256 * q + h else 128 * q + h)
    && sect == v.fatbase + (if i == 0 then q else q + 1)
    && (i != 0 ==> v.winsect == v.fatbase + q)
  }

  method ScanStep(v: Volume, ghost e: nat, ghost q: nat, ghost h: nat, width: nat, i: nat, sect: nat)
    returns (free: bool, i': nat, sect': nat)
    requires v.Valid() && e < v.nFatent && !v.fsType.Fat12? && width == (if v.fsType.Fat16? then 2 else 4)
    requires AtEntry(v, e, q, h, i, sect)
    modifies v`wflag, v`winsect, v.win, v.disk
    ensures v.Valid() && v.FatKept() && (old(v.Mirrored()) ==> v.Mirrored())
    ensures free == (v.fat[e] == 0)
    ensures AtEntry(v, e + 1, if i' == 0 then q + 1 else q, if i' == 0 then 0 else h + 1, i', sect')
  {
    ScanBounds(v, e, q, h, i);
    sect' := sect;
    if i == 0 {
      v.MoveWindow(sect);
      sect' := sect + 1;
    }
    var val := WordAt(v, e, q, i);
    free := val == 0;
    SectorSplit(i + width, if i + width == 512 then 1 else 0, if i + width == 512 then 0 else i + width);
    i' := (i + width) % 512;
  }

  lemma ScanBounds(v: Volume, e: nat, q: nat, h: nat, i: nat)
    requires v.ValidImage() && e < v.nFatent && !v.fsType.Fat12?
    requires i == (if v.fsType.Fat16? then 2 * h else 4 * h) < 512
    requires e == (if v.fsType.Fat16? then 256 * q + h else 128 * q + h)
    ensures EntryByte(v.fsType, e) == 512 * q + i && q < v.fsize && v.fatbase + q < v.database
    ensures i + (if v.fsType.Fat16? then 2 else 4) <= 512
  {
    v.EntryInside(e);
  }

  /** The entry at offset `i` of the window. */
  method WordAt(v: Volume, ghost e: nat, ghost q: nat, i: nat) returns (val: nat)
    requires v.Valid() && e < v.nFatent && !v.fsType.Fat12? && EntryByte(v.fsType, e) == 512 * q + i
    requires q < v.fsize && i + (if v.fsType.Fat16? then 2 else 4) <= 512 && v.winsect == v.fatbase + q
    ensures val == v.fat[e]
  {
    v.EntryInside(e);
    v.WindowByte(q, i);
    v.WindowByte(q, i + 1);
    if v.fsType.Fat16? {
      val := Value16(v.win[i], v.win[i + 1]);
    } else {
      v.WindowByte(q, i + 2);
      v.WindowByte(q, i + 3);
      val := Value28(v.win[i], v.win[i + 1], v.win[i + 2], v.win[i + 3]);
    }
  }
}
