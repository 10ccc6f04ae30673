/** File I/O over a cluster chain: a file handle with a one-sector buffer, proved to behave as a
    plain sequence of bytes with a position. */
module FatFile {
  import opened Words
  import opened FatVolume
  import opened FatChains
  import opened FatAllocator
  import opened ClusterMath

  /** A sequence with `piece` laid over it from `pos` on, lengthened if it reaches past the end. */
  function Overwrite(s: seq<byte>, pos: nat, piece: seq<byte>): (r: seq<byte>)
    requires pos <= |s|
    ensures |r| == if pos + |piece| < |s| then |s| else pos + |piece|
    ensures forall k {:trigger r[k]} :: 0 <= k < |r| ==>
      r[k] == if pos <= k < pos + |piece| then piece[k - pos] else s[k]
  {
    s[..pos] + piece + if pos + |piece| < |s| then s[pos + |piece|..] else []
  }

  lemma OverwriteTwice(s: seq<byte>, pos: nat, a: seq<byte>, b: seq<byte>)
    requires pos <= |s|
    ensures Overwrite(Overwrite(s, pos, a), pos + |a|, b) == Overwrite(s, pos, a + b)
  {
  }

  /** `now` is `was` with `piece` laid over it, said so that the definition stays folded. */
  ghost predicate LaidOver(now: seq<byte>, was: seq<byte>, pos: nat, piece: seq<byte>)
    requires pos <= |was|
  {
    forall q {:trigger Overwrite(was, q, piece)} :: q == pos ==> now == Overwrite(was, q, piece)
  }

  lemma LaidOverIs(now: seq<byte>, was: seq<byte>, pos: nat, piece: seq<byte>)
    requires pos <= |was|
    ensures LaidOver(now, was, pos, piece) <==> now == Overwrite(was, pos, piece)
  {
  }

  /** Sectors transferred at once: `cc` of them from logical sector `n` on, holding `piece`. */
  datatype Run = Run(n: nat, cc: nat, piece: seq<byte>)

  /** Bytes changed inside one sector: `piece` at offset `o` of logical sector `n`. */
  datatype Part = Part(n: nat, o: nat, piece: seq<byte>)

  /** Bytes of other sectors are kept. */
  lemma OtherSectors(s: seq<byte>, p: Part)
    requires p.o + |p.piece| <= 512 && 512 * p.n + p.o <= |s|
    ensures var r := Overwrite(s, 512 * p.n + p.o, p.piece);
      |r| >= |s| && forall i {:trigger r[i]} :: 0 <= i < |s| && i / 512 != p.n ==> r[i] == s[i]
  {
  }

  /** FIL, for a handle that is open on a volume. */
  class File {
    const v: Volume
    const buf: array<byte>
    const canRead: bool
    const canWrite: bool
    var dirty: bool
    var fptr: nat
    var clust: nat
    var sect: nat
    var sclust: nat
    var objsize: nat
    ghost var chain: seq<nat>  // clusters of the file
    ghost var data: seq<byte>  // its bytes
    ghost var at: nat          // logical sector in the buffer, while it is dirty

    /** The handle as opening an existing file leaves it: position 0, nothing buffered. */
    constructor (v: Volume, canRead: bool, canWrite: bool, sclust: nat, objsize: nat,
                 ghost chain: seq<nat>, ghost data: seq<byte>)
      ensures this.v == v && this.canRead == canRead && this.canWrite == canWrite
      ensures this.sclust == sclust && this.objsize == objsize && this.chain == chain && this.data == data
      ensures fptr == 0 && sect == 0 && !dirty && buf.Length == 512 && fresh(buf)
      ensures VolumeOk() && ChainOk() && WindowApart() && DataOk() ==> Valid()
    {
      this.v, this.canRead, this.canWrite := v, canRead, canWrite;
      this.sclust, this.objsize, this.chain, this.data := sclust, objsize, chain, data;
      buf := new byte[512](_ => 0);
      dirty, fptr, clust, sect, at := false, 0, 0, 0, 0;
    }

    /** The disk sector that holds logical sector `n`. */
    ghost function Phys(n: nat): nat
      reads this`chain
      requires v.csize > 0 && Cluster(v.csize, n) < |chain|
    {
      v.FirstSector(chain[Cluster(v.csize, n)]) + ClusterMath.Offset(v.csize, n)
    }

    /** Logical sector `n` is backed by a cluster. */
    ghost predicate Backed(n: nat)
      reads this`chain
    {
      v.csize > 0 && Cluster(v.csize, n) < |chain|
    }

    /** A sector with the dirty buffer laid over the disk. */
    ghost function Cached(s: nat): Sector
      reads this`dirty, this`sect, v.disk, buf
      requires s < v.disk.Length && buf.Length == 512
    {
      if dirty && s == sect then buf[..] else v.disk[s]
    }

    /** Byte `i` of the file is the byte at its place on disk or in the buffer. */
    ghost predicate Holds(i: nat)
      reads this`chain, this`data, this`dirty, this`sect, v.disk, buf
      requires buf.Length == 512 && i < |data|
    {
      Backed(i / 512) && Phys(i / 512) < v.disk.Length && data[i] == Cached(Phys(i / 512))[i % 512]
    }

    /** The volume is in order and its clusters, a power of two of sectors each, lie on the disk. */
    ghost predicate VolumeOk()
      reads v, v.win, v.disk
    {
      && v.Valid() && v.Laid() && CountExact(v) && NoReserved(v.fat)
      && PowerOfTwo(v.csize)
      && buf.Length == 512 && buf != v.win
    }

    ghost predicate ChainOk()
      reads this`chain, this`sclust, v
    {
      if chain == [] then sclust == 0 else IsChain(v.fat, chain) && sclust == chain[0]
    }

    /** A cluster the file has or may be given. */
    ghost predicate Usable(c: nat)
      reads this`chain, v
    {
      InRange(v.fat, c) && (c in chain || v.fat[c] == 0)
    }

    /** A dirty window lies neither on the file's clusters nor on free ones, nor on the buffer. */
    ghost predicate WindowApart()
      reads this`chain, this`sect, v
    {
      && (v.wflag && sect != 0 ==> v.winsect != sect)
      && forall c {:trigger Usable(c)} :: Usable(c) ==> !(v.wflag && v.InCluster(c, v.winsect))
    }

    /** A clean buffer shows its sector. */
    ghost predicate BufferOk()
      reads this`dirty, this`sect, v.disk, buf
      requires buf.Length == 512
    {
      && (sect != 0 ==> v.database <= sect < v.disk.Length)
      && (sect != 0 && !dirty ==> buf[..] == v.disk[sect])
      && (dirty ==> sect != 0)
    }

    /** A dirty buffer belongs to the file. */
    ghost predicate BufferOwned()
      reads this`chain, this`dirty, this`sect, this`at
    {
      dirty ==> Backed(at) && sect == Phys(at)
    }

    ghost predicate DataOk()
      reads this`chain, this`data, this`objsize, this`dirty, this`sect, v.disk, buf
      requires buf.Length == 512
    {
      && |data| == objsize <= 0xFFFF_FFFF
      && (objsize > 0 ==> Backed((objsize - 1) / 512))
      && forall i {:trigger Holds(i)} :: 0 <= i < |data| ==> Holds(i)
    }

    /** Everything but the owner of a dirty buffer and the file pointer. */
    ghost predicate Loose()
      reads this`chain, this`sclust, this`data, this`objsize, this`dirty, this`sect, v, v.win, v.disk, buf
    {
      VolumeOk() && ChainOk() && WindowApart() && BufferOk() && DataOk()
    }

    /** Everything but the place of the file pointer. */
    ghost predicate Core()
      reads this`at, this`chain, this`sclust, this`data, this`objsize, this`dirty, this`sect, v, v.win, v.disk, buf
    {
      Loose() && BufferOwned()
    }

    /** `clust` is the cluster of the byte before the file pointer, and inside a sector the buffer
        is that sector. */
    ghost predicate Placed()
      reads this
    {
      && v.csize > 0
      && (fptr > 0 ==> Backed((fptr - 1) / 512) && clust == chain[Cluster(v.csize, (fptr - 1) / 512)])
      && (fptr % 512 != 0 ==> Backed(fptr / 512) && sect == Phys(fptr / 512))
    }

    /** Logical sector `n` is in the current cluster. */
    ghost predicate Here(n: nat)
      reads this`chain, this`clust
    {
      Backed(n) && clust == chain[Cluster(v.csize, n)]
    }

    ghost predicate Valid()
      reads this, v, v.win, v.disk, buf
    {
      Core() && Placed() && fptr <= objsize
    }

    // ----- places of sectors -----

    lemma PhysInData(n: nat)
      requires VolumeOk() && ChainOk() && Backed(n)
      ensures v.database <= Phys(n) < v.disk.Length
      ensures chain[Cluster(v.csize, n)] in chain && InRange(v.fat, chain[Cluster(v.csize, n)])
      ensures v.InCluster(chain[Cluster(v.csize, n)], Phys(n))
    {
      v.ClusterInData(chain[Cluster(v.csize, n)], Phys(n));
    }

    /** Different logical sectors are different sectors. */
    lemma PhysInjective(m: nat, n: nat)
      requires VolumeOk() && ChainOk() && Backed(m) && Backed(n) && Phys(m) == Phys(n)
      ensures m == n
    {
      var a, b := chain[Cluster(v.csize, m)], chain[Cluster(v.csize, n)];
      if a < b { v.ClustersApart(a, b); } else if b < a { v.ClustersApart(b, a); }
      SplitInjective(v.csize, m, n);
    }

    /** Sectors up to the end of a cluster are contiguous. */
    lemma PhysRun(n: nat, t: nat)
      requires Backed(n) && ClusterMath.Offset(v.csize, n) + t < v.csize
      ensures Backed(n + t) && Phys(n + t) == Phys(n) + t
    {
      SameCluster(v.csize, n, t);
    }

    lemma RunOnDisk(n: nat, cc: nat)
      requires VolumeOk() && ChainOk() && Here(n) && cc > 0 && ClusterMath.Offset(v.csize, n) + cc <= v.csize
      ensures Here(n + cc - 1) && v.database <= Phys(n) && Phys(n) + cc <= v.disk.Length
    {
      PhysInData(n);
      PhysRun(n, cc - 1);
      PhysInData(n + cc - 1);
      SameCluster(v.csize, n, cc - 1);
    }

    lemma BackedBelow(m: nat, n: nat)
      requires v.csize > 0 && Backed(n) && m <= n
      ensures Backed(m)
    {
      ClusterMonotone(v.csize, m, n);
    }

    /** Every sector of the file has its place. */
    lemma BackedInside(n: nat)
      requires v.csize > 0 && buf.Length == 512 && DataOk() && 512 * n < objsize
      ensures Backed(n)
    {
      BackedBelow(n, (objsize - 1) / 512);
    }

    /** Sector `o` of cluster `c`: clusters are numbered from 2 where the data area starts. */
    function SectorOf(c: int, o: int): int {
      v.database + v.csize * (c - 2) + o
    }

    /** Byte `i` of a file, in sector `o` of cluster number `k`, is on the disk, or in the dirty buffer, in
        that sector of the cluster that the chain has there. */
    lemma ByteOnDisk(i: nat, k: nat, o: nat)
      requires VolumeOk() && ChainOk() && DataOk() && i < |data|
      requires i / 512 == v.csize * k + o && o < v.csize
      ensures k < |chain| && 2 <= chain[k] < v.nFatent && 0 <= SectorOf(chain[k], o) < v.disk.Length
      ensures data[i] == (if dirty && SectorOf(chain[k], o) == sect then buf[..] else v.disk[SectorOf(chain[k], o)])[i % 512]
    {
      assert Holds(i);
      PhysInData(i / 512);
      PlaceIs(v.csize, i / 512, k, o);
      v.FirstSectorIs(chain[k]);
    }

    /** A dirty window is not on a sector of the file. */
    lemma WindowElsewhere(n: nat)
      requires VolumeOk() && ChainOk() && WindowApart() && Backed(n)
      ensures !(v.wflag && v.winsect == Phys(n))
    {
      PhysInData(n);
      assert Usable(chain[Cluster(v.csize, n)]);
    }

    /** Offset `p` is the end of sector `m`, or inside it with the sector buffered. */
    ghost predicate EndsIn(m: nat, p: nat)
      reads this`chain, this`sect
      requires Backed(m)
    {
      512 * m < p <= 512 * m + 512 && (p == 512 * m + 512 || sect == Phys(m))
    }

    lemma PlacedIn(m: nat)
      requires Here(m) && EndsIn(m, fptr)
      ensures Placed()
    {
      SectorSplit(fptr - 1, m, fptr - 1 - 512 * m);
      if fptr == 512 * m + 512 { SectorSplit(fptr, m + 1, 0); } else { SectorSplit(fptr, m, fptr - 512 * m); }
    }

    /** Inside a sector, the current cluster and the buffer are its own. */
    lemma InSector(m: nat)
      requires Placed() && m == fptr / 512 && fptr % 512 != 0
      ensures Here(m) && sect == Phys(m)
    {
      SectorSplit(fptr - 1, m, fptr % 512 - 1);
    }

    // ----- what a step keeps -----

    /** The contents are the same if the chain only grows and every sector shows the same bytes. */
    twostate lemma SameView()
      requires v.csize > 0 && buf.Length == 512 && old(DataOk())
      requires old(chain) <= chain && data == old(data) && objsize == old(objsize)
      requires forall n {:trigger old(Phys(n))} :: old(Backed(n)) && old(Phys(n)) < v.disk.Length ==>
        Cached(old(Phys(n))) == old(Cached(Phys(n)))
      ensures DataOk()
    {
      forall i | 0 <= i < |data|
        ensures Holds(i)
      {
        assert old(Holds(i));
        assert Phys(i / 512) == old(Phys(i / 512));
      }
    }

    /** Work on the FAT alone, which may lengthen the chain, keeps the file in order. */
    twostate lemma AfterFat()
      requires old(Core()) && VolumeOk() && ChainOk() && v.DataKept() && old(chain) <= chain
      requires dirty == old(dirty) && sect == old(sect) && at == old(at) && buf[..] == old(buf[..])
      requires data == old(data) && objsize == old(objsize)
      requires forall c {:trigger Usable(c)} :: Usable(c) ==> old(Usable(c))
      ensures Core()
    {
      forall n: nat | old(Backed(n)) && old(Phys(n)) < v.disk.Length
        ensures Cached(old(Phys(n))) == old(Cached(Phys(n)))
      {
        FileSectorKept(n);
      }
      SameView();
      forall c: nat | Usable(c)
        ensures !(v.wflag && v.InCluster(c, v.winsect))
      {
        assert old(Usable(c));
        if v.InCluster(c, v.winsect) {
          v.ClusterInData(c, v.winsect);
        }
      }
    }

    twostate lemma FileSectorKept(n: nat)
      requires old(Core()) && v.Geometry() && v.DataKept() && old(Backed(n))
      requires dirty == old(dirty) && sect == old(sect) && buf[..] == old(buf[..])
      requires old(Phys(n)) < v.disk.Length
      ensures Cached(old(Phys(n))) == old(Cached(Phys(n)))
    {
      WindowElsewhereBefore(n);
    }

    twostate lemma WindowElsewhereBefore(n: nat)
      requires old(Core()) && old(Backed(n))
      ensures !old(v.wflag && v.winsect == Phys(n)) && v.database <= old(Phys(n))
    {
      var c := old(chain[Cluster(v.csize, n)]);
      assert c in old(chain) && old(Usable(c)) && v.InCluster(c, old(Phys(n)));
      v.ClusterInData(c, old(Phys(n)));
    }

    /** Releasing clusters at the end of the chain, with the bytes on them, keeps the rest in order. */
    twostate lemma AfterCut()
      requires old(Core()) && VolumeOk() && ChainOk() && v.DataKept() && chain <= old(chain)
      requires dirty == old(dirty) && sect == old(sect) && buf[..] == old(buf[..])
      requires objsize <= old(objsize) && data == old(data)[..objsize] && (objsize > 0 ==> Backed((objsize - 1) / 512))
      requires forall c {:trigger Usable(c)} :: Usable(c) ==> old(Usable(c))
      ensures Loose()
    {
      forall i | 0 <= i < |data|
        ensures Holds(i)
      {
        assert old(Holds(i));
        BackedBelow(i / 512, (objsize - 1) / 512);
        FileSectorKept(i / 512);
      }
      forall c: nat | Usable(c)
        ensures !(v.wflag && v.InCluster(c, v.winsect))
      {
        assert old(Usable(c));
        if v.InCluster(c, v.winsect) {
          v.ClusterInData(c, v.winsect);
        }
      }
    }

    /** Other files and directories: clusters outside the chain keep their entries and show the same
        bytes, a dirty window on them included, and so do the sectors before the data area. */
    twostate predicate OthersKept()
      reads this, v, v.win, v.disk
    {
      && |v.fat| == old(|v.fat|)
      && (forall c {:trigger v.fat[c]} :: InRange(v.fat, c) && c !in chain && c !in old(chain) ==>
            v.fat[c] == old(v.fat[c]))
      && (forall c: nat, s: nat {:trigger v.InCluster(c, s)} ::
            (InRange(v.fat, c) && c !in chain && c !in old(chain) && v.InCluster(c, s) &&
             v.database <= s < v.disk.Length) ==> v.Shows(s) == old(v.Shows(s)))
      && (forall s {:trigger v.Shows(s)} :: 0 <= s < v.database && v.OffFats(s) ==> v.Shows(s) == old(v.Shows(s)))
      && (v.wflag && v.winsect >= v.database ==> old(v.wflag) && v.winsect == old(v.winsect))
    }

    /** get_fat, as file I/O uses it. */
    method FatEntry(c: nat) returns (val: nat)
      requires Core() && InRange(v.fat, c)
      modifies v`wflag, v`winsect, v.win, v.disk
      ensures Core() && v.FatKept() && OthersKept() && val == v.fat[c]
    {
      val := v.GetFat(c);
      AfterFat();
      DataKeptOthers();
    }

    twostate lemma DataKeptOthers()
      requires v.Geometry() && v.DataKept() && |v.fat| == old(|v.fat|) == v.nFatent
      requires forall c {:trigger v.fat[c]} :: InRange(v.fat, c) && c !in chain && c !in old(chain) ==>
        v.fat[c] == old(v.fat[c])
      ensures OthersKept()
    {
    }

    /** create_chain for a file without clusters; its start is set to the new cluster. */
    method StartChain() returns (clst: nat)
      requires Core() && chain == []
      modifies this`chain, this`sclust, v`wflag, v`winsect, v`img, v`fat, v`lastClst, v`freeClst, v.win, v.disk
      ensures Core() && OthersKept() && sclust == clst
      ensures clst == 0 ==> NoneFree(v.fat) && chain == []
      ensures clst != 0 ==> chain == [clst]
    {
      MasksHold(v, 2);
      clst := CreateChain(v, 0);
      sclust := clst;
      if clst != 0 {
        chain := [clst];
        NewChain(old(v.fat), clst, EndMark(v.fsType));
      }
      AfterFat();
      DataKeptOthers();
    }

    /** create_chain from cluster number `k` of the file: follow, or stretch the chain. */
    method Stretch(c: nat, ghost k: nat) returns (clst: nat)
      requires Core() && k < |chain| && c == chain[k]
      modifies this`chain, v`wflag, v`winsect, v`img, v`fat, v`lastClst, v`freeClst, v.win, v.disk
      ensures Core() && OthersKept() && old(chain) <= chain
      ensures clst == 0 ==> NoneFree(v.fat) && chain == old(chain)
      ensures clst != 0 ==> k + 1 < |chain| && clst == chain[k + 1]
      ensures k + 1 < |old(chain)| ==> clst != 0
    {
      MasksHold(v, c);
      ghost var last := k == |chain| - 1;
      if !last {
        assert Linked(v.fat, chain, k);
      }
      clst := CreateChain(v, c);
      if last && clst != 0 {
        StretchChain(old(v.fat), chain, clst, EndMark(v.fsType));
        chain := chain + [clst];
      }
      AfterFat();
      DataKeptOthers();
    }

    // ----- the place of an offset in the chain -----

    /** The file pointer is at the start of cluster number `k`, the current one. */
    ghost predicate AtCluster(k: nat)
      reads this`chain, this`clust, this`fptr
    {
      v.csize > 0 && k < |chain| && clust == chain[k] && fptr == 512 * Start(v.csize, k)
    }

    /** An offset after the start of a cluster and not after its end. */
    lemma WithinCluster(k: nat, p: nat)
      requires v.csize > 0 && k < |chain| && 512 * Start(v.csize, k) < p <= 512 * (Start(v.csize, k) + v.csize)
      ensures Backed((p - 1) / 512) && Cluster(v.csize, (p - 1) / 512) == k
      ensures p % 512 != 0 ==> Backed(p / 512) && p / 512 >= Start(v.csize, k)
      ensures p % 512 != 0 ==> Phys(p / 512) == v.FirstSector(chain[k]) + (p / 512 - Start(v.csize, k))
    {
      var s := Start(v.csize, k);
      SplitIs(v.csize, k, (p - 1) / 512 - s);
      if p % 512 != 0 {
        SectorSplit(p - 1, p / 512, p % 512 - 1);
        SplitIs(v.csize, k, p / 512 - s);
      }
    }

    /** Below an offset that is backed, there is a next cluster for every cluster that ends before it. */
    lemma NextBacked(k: nat, p: nat)
      requires v.csize > 0 && p > 512 * (Start(v.csize, k) + v.csize) && Backed((p - 1) / 512)
      ensures k + 1 < |chain|
    {
      SplitIs(v.csize, k + 1, 0);
      ClusterMonotone(v.csize, Start(v.csize, k + 1), (p - 1) / 512);
    }

    // ----- the contents after a transfer -----

    /** A run inside one cluster that lies on the disk. */
    ghost predicate RunFits(r: Run)
      reads this`chain
    {
      && Backed(r.n) && r.cc > 0 && |r.piece| == 512 * r.cc
      && ClusterMath.Offset(v.csize, r.n) + r.cc <= v.csize
      && Phys(r.n) + r.cc <= v.disk.Length
    }

    /** The sectors of a run hold its bytes. */
    ghost predicate RunStored(r: Run)
      reads this`chain, v.disk
      requires RunFits(r)
    {
      forall x {:trigger v.disk[x]} :: Phys(r.n) <= x < Phys(r.n) + r.cc ==>
        v.disk[x] == r.piece[512 * (x - Phys(r.n))..512 * (x - Phys(r.n)) + 512]
    }

    /** Bytes that were written are in their place. */
    lemma BytesInRun(r: Run)
      requires buf.Length == 512 && !dirty && RunFits(r) && RunStored(r)
      requires 512 * (r.n + r.cc) <= |data| && data[512 * r.n..512 * (r.n + r.cc)] == r.piece
      ensures forall i {:trigger Holds(i)} :: 0 <= i < |data| && r.n <= i / 512 < r.n + r.cc ==> Holds(i)
    {
      forall i | 0 <= i < |data| && r.n <= i / 512 < r.n + r.cc
        ensures Holds(i)
      {
        var q, o := i / 512 - r.n, i % 512;
        PhysRun(r.n, q);
        assert v.disk[Phys(r.n) + q] == r.piece[512 * q..512 * q + 512];
        assert data[i] == data[512 * r.n..512 * (r.n + r.cc)][512 * q + o];
      }
    }

    /** Sectors of the file outside a run are not among its sectors on disk. */
    lemma OutsideRun(r: Run, m: nat)
      requires VolumeOk() && ChainOk() && RunFits(r) && Backed(m) && !(r.n <= m < r.n + r.cc)
      ensures !(Phys(r.n) <= Phys(m) < Phys(r.n) + r.cc) && Phys(m) < v.disk.Length
    {
      PhysInData(m);
      if Phys(r.n) <= Phys(m) < Phys(r.n) + r.cc {
        var t := Phys(m) - Phys(r.n);
        PhysRun(r.n, t);
        PhysInjective(r.n + t, m);
      }
    }

    /** Sectors outside a run are as before. */
    twostate predicate RestKept(r: Run)
      reads this`chain, v.disk
      requires RunFits(r)
    {
      forall x {:trigger v.disk[x]} :: 0 <= x < Phys(r.n) || Phys(r.n) + r.cc <= x < v.disk.Length ==>
        v.disk[x] == old(v.disk[x])
    }

    /** Bytes of other sectors are where they were. */
    twostate lemma BytesOffRun(r: Run)
      requires VolumeOk() && old(DataOk()) && ChainOk() && chain == old(chain) && !old(dirty) && !dirty
      requires RunFits(r) && RestKept(r) && |old(data)| <= |data|
      requires forall i {:trigger data[i]} :: 0 <= i < |old(data)| && !(r.n <= i / 512 < r.n + r.cc) ==>
        data[i] == old(data)[i]
      ensures forall i {:trigger Holds(i)} :: 0 <= i < |old(data)| && !(r.n <= i / 512 < r.n + r.cc) ==> Holds(i)
    {
      forall i | 0 <= i < |old(data)| && !(r.n <= i / 512 < r.n + r.cc)
        ensures Holds(i)
      {
        assert old(Holds(i));
        OutsideRun(r, i / 512);
      }
    }

    /** The contents after a run of sectors was written. */
    twostate lemma RunWritten(r: Run)
      requires VolumeOk() && old(DataOk()) && ChainOk() && chain == old(chain) && !old(dirty) && !dirty
      requires RunFits(r) && RunStored(r) && RestKept(r)
      requires 512 * r.n <= |old(data)| && data == Overwrite(old(data), 512 * r.n, r.piece)
      requires objsize == |data| <= 0xFFFF_FFFF
      ensures DataOk()
    {
      assert data[512 * r.n..512 * (r.n + r.cc)] == r.piece;
      BytesInRun(r);
      BytesOffRun(r);
      EndOfRun(r);
    }

    /** A run lies in one cluster of the file, so no other cluster is touched. */
    twostate lemma RunOthers(r: Run)
      requires VolumeOk() && ChainOk() && chain == old(chain) && RunFits(r) && RestKept(r)
      requires v.fat == old(v.fat) && v.wflag == old(v.wflag) && v.winsect == old(v.winsect)
      requires v.win[..] == old(v.win[..])
      ensures OthersKept()
    {
      PhysInData(r.n);
      forall c: nat, s: nat | InRange(v.fat, c) && c !in chain && v.InCluster(c, s)
        ensures !(Phys(r.n) <= s < Phys(r.n) + r.cc)
      {
        var d := chain[Cluster(v.csize, r.n)];
        if c < d { v.ClustersApart(c, d); } else { v.ClustersApart(d, c); }
      }
    }

    lemma EndOfRun(r: Run)
      requires RunFits(r) && (objsize == 512 * (r.n + r.cc) || (objsize > 0 && Backed((objsize - 1) / 512)))
      ensures Backed((objsize - 1) / 512)
    {
      if objsize == 512 * (r.n + r.cc) {
        PhysRun(r.n, r.cc - 1);
        SectorSplit(objsize - 1, r.n + r.cc - 1, 511);
      }
    }

    /** Bytes of other sectors are not affected by the buffer. */
    twostate lemma BytesElsewhere(n: nat)
      requires VolumeOk() && old(DataOk()) && ChainOk() && chain == old(chain) && v.disk[..] == old(v.disk[..])
      requires Backed(n) && sect == Phys(n) && (old(dirty) ==> old(sect) == sect) && |old(data)| <= |data|
      requires forall i {:trigger data[i]} :: 0 <= i < |old(data)| && i / 512 != n ==> data[i] == old(data)[i]
      ensures forall i {:trigger Holds(i)} :: 0 <= i < |old(data)| && i / 512 != n ==> Holds(i)
    {
      forall i | 0 <= i < |old(data)| && i / 512 != n
        ensures Holds(i)
      {
        assert old(Holds(i));
        if Phys(i / 512) == Phys(n) { PhysInjective(i / 512, n); }
      }
    }

    /** Bytes of the buffered sector. */
    lemma BytesBuffered(n: nat)
      requires VolumeOk() && dirty && Backed(n) && sect == Phys(n) < v.disk.Length
      requires forall i {:trigger data[i]} :: 512 * n <= i < 512 * n + 512 && i < |data| ==> data[i] == buf[i - 512 * n]
      ensures forall i {:trigger Holds(i)} :: 0 <= i < |data| && i / 512 == n ==> Holds(i)
    {
    }

    /** The buffer with the new bytes matches the file with the new bytes. */
    twostate lemma BufferMatches(p: Part)
      requires buf.Length == 512 && old(DataOk()) && Backed(p.n) && chain == old(chain)
      requires Phys(p.n) < v.disk.Length
      requires p.o + |p.piece| <= 512 && buf[..] == Overwrite(old(buf[..]), p.o, p.piece)
      requires 512 * p.n + p.o <= |old(data)| && data == Overwrite(old(data), 512 * p.n + p.o, p.piece)
      requires old(Cached(Phys(p.n))) == old(buf[..]) || |old(data)| == 512 * p.n
      ensures forall i {:trigger data[i]} :: 512 * p.n <= i < 512 * p.n + 512 && i < |data| ==> data[i] == buf[i - 512 * p.n]
    {
      forall i | 512 * p.n <= i < 512 * p.n + 512 && i < |data|
        ensures data[i] == buf[i - 512 * p.n]
      {
        if i < |old(data)| {
          assert old(Holds(i));
          SectorSplit(i, p.n, i - 512 * p.n);
        }
        assert buf[i - 512 * p.n] == buf[..][i - 512 * p.n];
      }
    }

    /** The contents after part of a sector was changed in the buffer. */
    twostate lemma PartWritten(p: Part)
      requires VolumeOk() && old(DataOk()) && ChainOk() && chain == old(chain) && v.disk[..] == old(v.disk[..])
      requires dirty && Backed(p.n) && sect == Phys(p.n) < v.disk.Length && (old(dirty) ==> old(sect) == sect)
      requires 0 < |p.piece| && p.o + |p.piece| <= 512 && buf[..] == Overwrite(old(buf[..]), p.o, p.piece)
      requires 512 * p.n + p.o <= |old(data)| && data == Overwrite(old(data), 512 * p.n + p.o, p.piece)
      requires old(Cached(Phys(p.n))) == old(buf[..]) || |old(data)| == 512 * p.n
      requires objsize == |data| <= 0xFFFF_FFFF
      ensures DataOk()
    {
      PartElsewhere(p);
      PartBuffered(p);
      EndOfPart(p);
    }

    /** Bytes of the other sectors. */
    twostate lemma PartElsewhere(p: Part)
      requires VolumeOk() && old(DataOk()) && ChainOk() && chain == old(chain) && v.disk[..] == old(v.disk[..])
      requires Backed(p.n) && sect == Phys(p.n) && (old(dirty) ==> old(sect) == sect) && p.o + |p.piece| <= 512
      requires 512 * p.n + p.o <= |old(data)| && data == Overwrite(old(data), 512 * p.n + p.o, p.piece)
      ensures forall i {:trigger Holds(i)} :: 0 <= i < |old(data)| && i / 512 != p.n ==> Holds(i)
    {
      OtherSectors(old(data), p);
      BytesElsewhere(p.n);
    }

    /** Bytes of the sector in the buffer. */
    twostate lemma PartBuffered(p: Part)
      requires VolumeOk() && old(DataOk()) && chain == old(chain)
      requires dirty && Backed(p.n) && sect == Phys(p.n) < v.disk.Length
      requires p.o + |p.piece| <= 512 && buf[..] == Overwrite(old(buf[..]), p.o, p.piece)
      requires 512 * p.n + p.o <= |old(data)| && data == Overwrite(old(data), 512 * p.n + p.o, p.piece)
      requires old(Cached(Phys(p.n))) == old(buf[..]) || |old(data)| == 512 * p.n
      ensures forall i {:trigger Holds(i)} :: 0 <= i < |data| && i / 512 == p.n ==> Holds(i)
    {
      BufferMatches(p);
      BytesBuffered(p.n);
    }

    lemma EndOfPart(p: Part)
      requires Backed(p.n) && 512 * p.n < objsize
      requires objsize <= 512 * p.n + 512 || Backed((objsize - 1) / 512)
      ensures Backed((objsize - 1) / 512)
    {
      if objsize <= 512 * p.n + 512 {
        SectorSplit(objsize - 1, p.n, objsize - 1 - 512 * p.n);
      }
    }

    /** The byte at an offset of the chain, part of the file or not. */
    ghost function Shown(i: nat): byte
      reads this`chain, this`dirty, this`sect, v.disk, buf
      requires buf.Length == 512
    {
      if Backed(i / 512) && Phys(i / 512) < v.disk.Length then Cached(Phys(i / 512))[i % 512] else 0
    }

    ghost function ShownUpTo(n: nat): (r: seq<byte>)
      reads this`chain, this`dirty, this`sect, v.disk, buf
      requires buf.Length == 512
      ensures |r| == n
    {
      if n == 0 then [] else ShownUpTo(n - 1) + [Shown(n - 1)]
    }

    lemma {:induction false} ShownAt(n: nat, i: nat)
      requires buf.Length == 512 && i < n
      ensures ShownUpTo(n)[i] == Shown(i)
      decreases n
    {
      if i < n - 1 {
        ShownAt(n - 1, i);
      }
    }

    /** The file is what its sectors show. */
    lemma DataShown()
      requires buf.Length == 512 && DataOk()
      ensures data == ShownUpTo(objsize)
    {
      forall i | 0 <= i < objsize
        ensures data[i] == ShownUpTo(objsize)[i]
      {
        assert Holds(i);
        ShownAt(objsize, i);
      }
    }

    lemma ShownData(n: nat)
      requires VolumeOk() && ChainOk() && 0 < objsize <= 0xFFFF_FFFF && n == (objsize - 1) / 512 && Backed(n)
      requires data == ShownUpTo(objsize)
      ensures DataOk()
    {
      forall i | 0 <= i < |data|
        ensures Holds(i)
      {
        BackedBelow(i / 512, n);
        PhysInData(i / 512);
        ShownAt(objsize, i);
      }
    }

    lemma ShownPrefix(a: nat, b: nat)
      requires buf.Length == 512 && a <= b
      ensures ShownUpTo(a) <= ShownUpTo(b)
    {
      forall i | 0 <= i < a
        ensures ShownUpTo(a)[i] == ShownUpTo(b)[i]
      {
        ShownAt(a, i);
        ShownAt(b, i);
      }
    }

    /** Lengthen the file up to the file pointer, over whatever its sectors show. */
    method Grow()
      requires Core() && objsize < fptr <= 0xFFFF_FFFF && Backed((fptr - 1) / 512)
      modifies this`objsize, this`data
      ensures Core() && objsize == fptr && old(data) <= data
    {
      DataShown();
      ShownPrefix(objsize, fptr);
      data := ShownUpTo(fptr);
      objsize := fptr;
      ShownData((fptr - 1) / 512);
    }

    // ----- the sector buffer -----

    /** Write a dirty buffer back. */
    method WriteBack()
      requires Loose()
      modifies this`dirty, v.disk
      ensures Core() && !dirty
      ensures forall s {:trigger v.disk[s]} :: 0 <= s < v.disk.Length && !(old(dirty) && s == sect) ==>
        v.disk[s] == old(v.disk[s])
    {
      if dirty {
        v.disk[sect] := buf[..];
        dirty := false;
        v.DataWritten();
        SameView();
      }
    }

    /** The dirty buffer's sector is in a cluster of the file, not in any other. */
    lemma DirtySectorIn(c: nat)
      requires Core() && dirty && InRange(v.fat, c) && v.InCluster(c, sect)
      ensures c in chain
    {
      PhysInData(at);
      var d := chain[Cluster(v.csize, at)];
      if c < d { v.ClustersApart(c, d); } else if d < c { v.ClustersApart(d, c); }
    }

    /** Write back a dirty buffer, as between transfers. */
    method Flush()
      requires Core()
      modifies this`dirty, v.disk
      ensures Core() && !dirty && OthersKept()
    {
      forall c: nat | InRange(v.fat, c) && c !in chain
        ensures !(dirty && v.InCluster(c, sect))
      {
        if dirty && v.InCluster(c, sect) { DirtySectorIn(c); }
      }
      WriteBack();
    }

    /** Have sector `n` of the file in the buffer. */
    method BufferSector(ghost n: nat, s: nat)
      requires Core() && Backed(n) && s == Phys(n)
      modifies this`dirty, this`sect, buf, v.disk
      ensures Core() && sect == s && OthersKept()
    {
      PhysInData(n);
      WindowElsewhere(n);
      if sect != s {
        Flush();
        Load(s);
      }
    }

    /** Read a sector of the data area into a buffer that is not dirty. */
    method Load(s: nat)
      requires Core() && !dirty && v.database <= s < v.disk.Length && !(v.wflag && v.winsect == s)
      modifies this`sect, buf
      ensures Core() && sect == s
    {
      for o := 0 to 512
        invariant forall k :: 0 <= k < o ==> buf[k] == v.disk[s][k]
      {
        buf[o] := v.disk[s][o];
      }
      sect := s;
      assert buf[..] == v.disk[sect];
      SameView();
    }
  }

  ghost predicate PowerOfTwo(n: nat) {
    exists e {:trigger Pow2(e)} :: n == Pow2(e)
  }

  /** The number of whole sectors to transfer at once: as many as are asked for, up to the end of
      the cluster. */
  method ClipAtCluster(bytes: nat, csect: nat, csize: nat) returns (cc: nat)
    requires bytes >= 512 && csect < csize
    ensures 0 < cc && 512 * cc <= bytes && csect + cc <= csize
    ensures csect + cc == csize || bytes < 512 * cc + 512
  {
    cc := bytes / 512;
    if csect + cc > csize {
      cc := csize - csect;
    }
  }

  method SectorInCluster(f: File, ghost n: nat) returns (csect: nat)
    requires PowerOfTwo(f.v.csize) && f.fptr == 512 * n
    ensures csect == ClusterMath.Offset(f.v.csize, n)
  {
    ghost var e :| f.v.csize == Pow2(e);
    MaskIsOffset(f.v.csize, e, n);
    csect := BitAnd(f.fptr / 512, f.v.csize - 1);
  }

  method SectorAt(f: File, ghost n: nat, csect: nat) returns (s: nat)
    requires f.Core() && f.Here(n)
    requires csect == ClusterMath.Offset(f.v.csize, n)
    ensures s == f.Phys(n)
  {
    f.PhysInData(n);
    s := f.v.Clst2Sect(f.clust);
    s := s + csect;
  }

  /** Away from a cluster boundary the current cluster is that of the next byte too. */
  lemma InsideCluster(f: File, n: nat)
    requires f.Valid() && f.fptr == 512 * n && ClusterMath.Offset(f.v.csize, n) > 0
    ensures f.Here(n)
  {
    Inner(f.v.csize, n);
    SectorSplit(f.fptr - 1, n - 1, 511);
  }
}
