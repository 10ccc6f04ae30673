/** f_truncate. */
module FatFileTruncate {
  import opened Words
  import opened FatVolume
  import opened FatChains
  import opened FatAllocator
  import opened ClusterMath
  import opened FatFile

  /** The chain was cut: what is left is a chain, what was cut off is free, the rest is as before. */
  twostate predicate Cut(f: File)
    reads f, f.v, f.v.win, f.v.disk
  {
    && f.VolumeOk() && f.ChainOk() && f.v.DataKept() && f.chain <= old(f.chain)
    && |f.v.fat| == old(|f.v.fat|)
    && (forall c {:trigger f.v.fat[c]} :: InRange(f.v.fat, c) && c !in old(f.chain) ==> f.v.fat[c] == old(f.v.fat[c]))
    && (forall c {:trigger f.v.fat[c]} :: InRange(f.v.fat, c) && c in old(f.chain) && c !in f.chain ==> f.v.fat[c] == 0)
  }

  lemma ZeroedNotReserved(fat: seq<nat>, chain: seq<nat>)
    requires NoReserved(fat)
    ensures NoReserved(Zeroed(fat, chain))
  {
  }

  /** Release every cluster of the file. */
  method ReleaseWhole(f: File)
    requires f.Core() && f.chain != []
    modifies f`chain, f`sclust, f.v`wflag, f.v`winsect, f.v`img, f.v`fat, f.v`freeClst, f.v.win, f.v.disk
    ensures Cut(f) && f.chain == []
  {
    ReleaseChain(f.v.fat, f.chain);
    ZeroedNotReserved(f.v.fat, f.chain);
    var ok := RemoveChain(f.v, f.sclust, 0);
    f.sclust := 0;
    f.chain := [];
  }

  /** Release the clusters after number `k`, if there are any. */
  method ReleaseRest(f: File, ghost k: nat)
    requires f.Core() && k < |f.chain| && f.clust == f.chain[k]
    modifies f`chain, f.v`wflag, f.v`winsect, f.v`img, f.v`fat, f.v`freeClst, f.v.win, f.v.disk
    ensures Cut(f) && f.chain == old(f.chain)[..k + 1]
  {
    ghost var fat, chain := f.v.fat, f.chain;
    if k + 1 < |chain| {
      assert Linked(fat, chain, k);
    }
    var ncl := f.FatEntry(f.clust);
    if ncl < f.v.nFatent {
      RemoveFrom(f, ncl, k);
    }
  }

  method RemoveFrom(f: File, ncl: nat, ghost k: nat)
    requires f.Core() && k + 1 < |f.chain| && f.clust == f.chain[k] && ncl == f.chain[k + 1]
    modifies f`chain, f.v`wflag, f.v`winsect, f.v`img, f.v`fat, f.v`freeClst, f.v.win, f.v.disk
    ensures Cut(f) && f.chain == old(f.chain)[..k + 1]
  {
    CutHere(f, k);
    var ok := RemoveChain(f.v, ncl, f.clust);
    f.chain := f.chain[..k + 1];
  }

  /** remove_chain from the cluster after number `k` leaves a chain of `k + 1` clusters. */
  lemma CutHere(f: File, k: nat)
    requires f.VolumeOk() && f.ChainOk() && k + 1 < |f.chain|
    ensures f.v.fat[f.chain[k]] != 0
    ensures var start := Detached(f.v.fat, f.chain[k], EndMark(f.v.fsType));
      var fat' := Release(start, f.chain[k + 1]);
      && NoReserved(fat') && IsChain(fat', f.chain[..k + 1])
      && (forall c {:trigger fat'[c]} :: InRange(fat', c) && c !in f.chain ==> fat'[c] == f.v.fat[c])
      && (forall c {:trigger fat'[c]} :: InRange(fat', c) && c in f.chain && c !in f.chain[..k + 1] ==> fat'[c] == 0)
  {
    var chain, eoc := f.chain, EndMark(f.v.fsType);
    MasksHold(f.v, chain[k]);
    assert Linked(f.v.fat, chain, k);
    CutChain(f.v.fat, chain, k + 1, eoc);
    ZeroedNotReserved(f.v.fat[chain[k] := eoc], chain[k + 1..]);
    assert chain == chain[..k + 1] + chain[k + 1..];
  }

  /** Cut the chain at the file pointer. */
  method CutAtPointer(f: File)
    requires f.Valid() && f.fptr < f.objsize
    modifies f`chain, f`sclust, f.v`wflag, f.v`winsect, f.v`img, f.v`fat, f.v`freeClst, f.v.win, f.v.disk
    ensures Cut(f) && f.Placed()
  {
    if f.fptr == 0 {
      ReleaseWhole(f);
    } else {
      ReleaseRest(f, Cluster(f.v.csize, (f.fptr - 1) / 512));
      StillPlaced(f);
    }
  }

  /** The file after its chain was cut at the file pointer. */
  method Shorten(f: File)
    requires f.Valid() && f.fptr < f.objsize
    modifies f`chain, f`sclust, f`objsize, f`data
    modifies f.v`wflag, f.v`winsect, f.v`img, f.v`fat, f.v`freeClst, f.v.win, f.v.disk
    ensures f.Loose() && f.Placed() && Cut(f) && f.objsize == f.fptr && f.data == old(f.data)[..f.fptr]
  {
    CutAtPointer(f);
    f.objsize := f.fptr;
    f.data := f.data[..f.fptr];
    f.AfterCut();
  }

  twostate lemma StillPlaced(f: File)
    requires old(f.Placed()) && f.fptr == old(f.fptr) > 0 && f.clust == old(f.clust) && f.sect == old(f.sect)
    requires f.chain == old(f.chain)[..Cluster(f.v.csize, (f.fptr - 1) / 512) + 1]
    ensures f.Placed()
  {
    if f.fptr % 512 != 0 {
      SectorSplit(f.fptr - 1, f.fptr / 512, f.fptr % 512 - 1);
    }
  }

  /** The dirty buffer's sector is in none of the clusters of other files. */
  lemma DirtyOwned(f: File)
    requires f.Core()
    ensures forall c: nat {:trigger f.v.InCluster(c, f.sect)} ::
      f.dirty && InRange(f.v.fat, c) && c !in f.chain ==> !f.v.InCluster(c, f.sect)
  {
    forall c: nat | f.dirty && InRange(f.v.fat, c) && c !in f.chain
      ensures !f.v.InCluster(c, f.sect)
    {
      if f.v.InCluster(c, f.sect) { f.DirtySectorIn(c); }
    }
  }

  /** f_truncate: the file ends at the file pointer; clusters after it are free again. */
  method Truncate(f: File) returns (ok: bool)
    requires f.Valid()
    modifies f`chain, f`sclust, f`objsize, f`data, f`dirty
    modifies f.v`wflag, f.v`winsect, f.v`img, f.v`fat, f.v`freeClst, f.v.win, f.v.disk
    ensures f.Valid() && f.OthersKept() && ok == f.canWrite
    ensures f.data == (if ok then old(f.data)[..f.fptr] else old(f.data)) && f.chain <= old(f.chain)
    ensures forall c {:trigger f.v.fat[c]} :: InRange(f.v.fat, c) && c in old(f.chain) && c !in f.chain ==> f.v.fat[c] == 0
  {
    if !f.canWrite {
      return false;
    }
    if f.fptr < f.objsize {
      ghost var chain := f.chain;
      DirtyOwned(f);
      Shorten(f);
      f.DataKeptOthers();
      FlushCut(f, chain);
    }
    return true;
  }

  /** Write the buffer back, whose sector was in the chain before it was cut. */
  method FlushCut(f: File, ghost chain: seq<nat>)
    requires f.Loose() && f.Placed() && f.fptr <= f.objsize
    requires forall c: nat {:trigger f.v.InCluster(c, f.sect)} ::
      f.dirty && InRange(f.v.fat, c) && c !in chain ==> !f.v.InCluster(c, f.sect)
    modifies f`dirty, f.v.disk
    ensures f.Valid()
    ensures forall c: nat, s: nat {:trigger f.v.InCluster(c, s)} ::
      (InRange(f.v.fat, c) && c !in chain && f.v.InCluster(c, s) && s < f.v.disk.Length) ==> f.v.Shows(s) == old(f.v.Shows(s))
    ensures forall s {:trigger f.v.Shows(s)} :: 0 <= s < f.v.database ==> f.v.Shows(s) == old(f.v.Shows(s))
  {
    assert f.dirty ==> f.v.database <= f.sect;
    f.WriteBack();
  }
}
