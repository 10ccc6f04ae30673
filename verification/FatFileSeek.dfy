/** f_lseek, the branch that follows the chain. */
module FatFileSeek {
  import opened Words
  import opened FatVolume
  import opened FatChains
  import opened FatAllocator
  import opened ClusterMath
  import opened FatFile

  /** The next cluster: allocated if need be when writing, followed when only reading. */
  method StepCluster(f: File, clst: nat, ghost k: nat, ghost target: nat) returns (next: nat)
    requires f.Core() && k < |f.chain| && clst == f.chain[k]
    requires target > 512 * (Start(f.v.csize, k) + f.v.csize) && (f.canWrite || target <= f.objsize)
    modifies f`chain, f.v`wflag, f.v`winsect, f.v`img, f.v`fat, f.v`lastClst, f.v`freeClst, f.v.win, f.v.disk
    ensures f.Core() && f.OthersKept() && old(f.chain) <= f.chain
    ensures next == 0 ==> NoneFree(f.v.fat) && target > f.objsize
    ensures next != 0 ==> k + 1 < |f.chain| && next == f.chain[k + 1]
  {
    if target <= f.objsize {
      InsideBacked(f, target);
      f.NextBacked(k, target);
    }
    if f.canWrite {
      next := f.Stretch(clst, k);
    } else {
      assert Linked(f.v.fat, f.chain, k);
      next := f.FatEntry(clst);
    }
  }

  lemma InsideBacked(f: File, p: nat)
    requires f.VolumeOk() && f.DataOk() && 0 < p <= f.objsize
    ensures f.Backed((p - 1) / 512)
  {
    f.BackedInside((p - 1) / 512);
  }

  /** One round of the cluster following loop: the pointer moves on by a cluster. */
  method FollowRound(f: File, clst: nat, bcs: nat, ghost k: nat, ghost target: nat) returns (next: nat)
    requires f.Core() && f.AtCluster(k) && clst == f.clust && bcs == f.v.csize * 512
    requires target > f.fptr + bcs && (f.canWrite || target <= f.objsize)
    modifies f`chain, f`fptr, f`clust
    modifies f.v`wflag, f.v`winsect, f.v`img, f.v`fat, f.v`lastClst, f.v`freeClst, f.v.win, f.v.disk
    ensures f.Core() && f.OthersKept() && old(f.chain) <= f.chain && f.fptr == old(f.fptr) + bcs
    ensures next == 0 ==> NoneFree(f.v.fat) && target > f.objsize && f.clust == f.chain[k]
    ensures next != 0 ==> f.AtCluster(k + 1) && f.clust == next
  {
    f.fptr := f.fptr + bcs;
    next := StepCluster(f, clst, k, target);
    if next != 0 {
      f.clust := next;
    }
  }

  /** Where the cluster following loop stops: in cluster number `k`, which holds the byte before
      `target`, or at its end when no cluster is free for going on. */
  ghost predicate Reached(f: File, k: nat, ofs: nat, target: nat)
    reads f`chain, f`fptr, f`clust, f`objsize, f.v
  {
    && f.v.csize > 0 && k < |f.chain| && f.clust == f.chain[k]
    && 512 * Start(f.v.csize, k) < f.fptr + ofs <= 512 * (Start(f.v.csize, k) + f.v.csize)
    && (ofs > 0 ==> f.fptr == 512 * Start(f.v.csize, k) && f.fptr + ofs == target)
    && (ofs == 0 ==> f.fptr == 512 * (Start(f.v.csize, k) + f.v.csize) < target)
    && (ofs == 0 ==> NoneFree(f.v.fat) && target > f.objsize)
  }

  /** The cluster following loop of f_lseek. */
  method FollowChain(f: File, start: nat, ofs0: nat, ghost k0: nat, ghost target: nat)
    returns (clst: nat, ofs: nat, ghost k: nat)
    requires f.Core() && f.AtCluster(k0) && start == f.clust && ofs0 > 0 && f.fptr + ofs0 == target
    requires f.canWrite || target <= f.objsize
    modifies f`chain, f`fptr, f`clust
    modifies f.v`wflag, f.v`winsect, f.v`img, f.v`fat, f.v`lastClst, f.v`freeClst, f.v.win, f.v.disk
    ensures f.Core() && f.OthersKept() && old(f.chain) <= f.chain
    ensures Reached(f, k, ofs, target) && (ofs > 0 ==> clst == f.clust)
  {
    clst, ofs, k := start, ofs0, k0;
    var bcs := f.v.csize * 512;
    while ofs > bcs
      invariant f.Core() && f.OthersKept() && old(f.chain) <= f.chain
      invariant if ofs == 0 then Reached(f, k, ofs, target)
                else f.AtCluster(k) && clst == f.clust && f.fptr + ofs == target
      decreases ofs
    {
      ofs := ofs - bcs;
      clst := FollowRound(f, clst, bcs, k, target);
      if clst == 0 {
        ofs := 0;
      } else {
        k := k + 1;
      }
    }
  }

  /** Where f_lseek starts to follow the chain: the current cluster if the target is there or
      later, else the first cluster, which is allocated if there is none. */
  method SeekStart(f: File, target: nat) returns (clst: nat, ofs: nat, ghost k: nat)
    requires f.Valid() && 0 < target <= 0xFFFF_FFFF
    modifies f`chain, f`sclust, f`fptr, f`clust
    modifies f.v`wflag, f.v`winsect, f.v`img, f.v`fat, f.v`lastClst, f.v`freeClst, f.v.win, f.v.disk
    ensures f.Core() && f.OthersKept() && old(f.chain) <= f.chain && clst == f.clust
    ensures clst != 0 ==> f.AtCluster(k) && ofs > 0 && f.fptr + ofs == target
    ensures clst == 0 ==> f.fptr == 0 && NoneFree(f.v.fat) && target > f.objsize
  {
    var ifptr := f.fptr;
    var bcs := f.v.csize * 512;
    ofs, k := target, 0;
    if ifptr > 0 && (ofs - 1) / bcs >= (ifptr - 1) / bcs {
      k := Cluster(f.v.csize, (ifptr - 1) / 512);
      StartsBefore(f.v.csize, ifptr - 1, target - 1, bcs);
      f.fptr := BitAnd(ifptr - 1, 0xFFFF_FFFF - (bcs - 1));
      ofs := ofs - f.fptr;
      clst := f.clust;
    } else {
      f.fptr := 0;
      clst := FirstCluster(f);
    }
  }

  /** The start of the cluster of byte `x` lies before `y` if the cluster of `y` is not an earlier one. */
  lemma StartsBefore(csize: nat, x: nat, y: nat, bcs: nat)
    requires PowerOfTwo(csize) && csize <= 128 && bcs == csize * 512
    requires x < 0x1_0000_0000 && y < 0x1_0000_0000 && y / bcs >= x / bcs
    ensures BitAnd(x, 0xFFFF_FFFF - (bcs - 1)) == 512 * Start(csize, Cluster(csize, x / 512)) <= y
  {
    var e :| csize == Pow2(e);
    ClusterStart(csize, e, x);
    ClusterStart(csize, e, y);
    StartMonotone(csize, Cluster(csize, x / 512), Cluster(csize, y / 512));
  }

  method FirstCluster(f: File) returns (clst: nat)
    requires f.Core()
    modifies f`chain, f`sclust, f`clust
    modifies f.v`wflag, f.v`winsect, f.v`img, f.v`fat, f.v`lastClst, f.v`freeClst, f.v.win, f.v.disk
    ensures f.Core() && f.OthersKept() && old(f.chain) <= f.chain && clst == f.clust
    ensures clst != 0 ==> f.chain != [] && clst == f.chain[0]
    ensures clst == 0 ==> NoneFree(f.v.fat) && f.objsize == 0
  {
    clst := f.sclust;
    if clst == 0 {
      clst := f.StartChain();
    }
    f.clust := clst;
  }

  /** The file pointer is in place except for the buffer, which is to show sector `nsect`. */
  ghost predicate Landed(f: File, nsect: nat)
    reads f`chain, f`fptr, f`clust
  {
    && f.v.csize > 0
    && (f.fptr > 0 ==> f.Here((f.fptr - 1) / 512))
    && (f.fptr % 512 != 0 ==> f.Backed(f.fptr / 512) && nsect == f.Phys(f.fptr / 512))
  }

  /** Land at offset `ofs` of the cluster reached. */
  method Land(f: File, clst: nat, ofs: nat, ghost k: nat, ghost target: nat) returns (nsect: nat)
    requires f.Core() && Reached(f, k, ofs, target) && (ofs > 0 ==> clst == f.clust)
    modifies f`fptr
    ensures f.fptr == old(f.fptr) + ofs && Landed(f, nsect)
  {
    f.WithinCluster(k, f.fptr + ofs);
    f.fptr := f.fptr + ofs;
    nsect := 0;
    if ofs % 512 != 0 {
      nsect := f.v.Clst2Sect(clst);
      nsect := nsect + ofs / 512;
    }
  }

  /** Move the file pointer to `target`, or less far if the disk is full. */
  method Walk(f: File, target: nat) returns (nsect: nat)
    requires f.Valid() && target <= 0xFFFF_FFFF && (f.canWrite || target <= f.objsize)
    modifies f`chain, f`sclust, f`fptr, f`clust
    modifies f.v`wflag, f.v`winsect, f.v`img, f.v`fat, f.v`lastClst, f.v`freeClst, f.v.win, f.v.disk
    ensures f.Core() && f.OthersKept() && old(f.chain) <= f.chain && Landed(f, nsect)
    ensures f.fptr <= target && (f.fptr < target ==> NoneFree(f.v.fat) && target > f.objsize)
  {
    if target == 0 {
      f.fptr := 0;
      return 0;
    }
    var clst, ofs, k := SeekStart(f, target);
    if clst == 0 {
      return 0;
    }
    clst, ofs, k := FollowChain(f, clst, ofs, k, target);
    nsect := Land(f, clst, ofs, k, target);
  }

  /** Fill the sector buffer if the file pointer is inside a sector. */
  method Settle(f: File, nsect: nat)
    requires f.Core() && Landed(f, nsect) && f.fptr <= f.objsize
    modifies f`dirty, f`sect, f.buf, f.v.disk
    ensures f.Valid() && f.OthersKept()
  {
    if f.fptr % 512 != 0 && nsect != f.sect {
      f.BufferSector(f.fptr / 512, nsect);
    }
  }

  /** f_lseek. Beyond the end a file open for writing is lengthened, by bytes nothing is said about;
      one open for reading only is not left. */
  method Lseek(f: File, ofs: nat)
    requires f.Valid() && ofs <= 0xFFFF_FFFF
    modifies f, f.buf, f.v`wflag, f.v`winsect, f.v`img, f.v`fat, f.v`lastClst, f.v`freeClst, f.v.win, f.v.disk
    ensures f.Valid() && f.OthersKept() && old(f.chain) <= f.chain
    ensures old(f.data) <= f.data && f.objsize == (if f.fptr > old(f.objsize) then f.fptr else old(f.objsize))
    ensures ofs <= old(f.objsize) ==> f.fptr == ofs
    ensures ofs > old(f.objsize) && !f.canWrite ==> f.fptr == old(f.objsize)
    ensures ofs > old(f.objsize) && f.canWrite ==> f.fptr <= ofs && (f.fptr < ofs ==> NoneFree(f.v.fat))
  {
    var target := ofs;
    if ofs > f.objsize && !f.canWrite {
      target := f.objsize;
    }
    var nsect := Walk(f, target);
    if f.fptr > f.objsize {
      f.Grow();
    }
    Settle(f, nsect);
  }
}
