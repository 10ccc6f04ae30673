/** f_write: the given bytes replace those at the file pointer, or a prefix of them when the disk
    is full. */
module FatFileWrite {
  import opened Words
  import opened FatVolume
  import opened FatChains
  import opened FatAllocator
  import opened ClusterMath
  import opened FatFile

  /** disk_write: whole sectors from `s` on. */
  method DiskWrite(disk: array<Sector>, s: nat, wbuff: seq<byte>, cc: nat)
    requires s + cc <= disk.Length && 512 * cc <= |wbuff|
    modifies disk
    ensures forall x {:trigger disk[x]} :: s <= x < s + cc ==> disk[x] == wbuff[512 * (x - s)..512 * (x - s) + 512]
    ensures forall x {:trigger disk[x]} :: 0 <= x < s || s + cc <= x < disk.Length ==> disk[x] == old(disk[x])
  {
    for j := 0 to cc
      invariant forall x {:trigger disk[x]} :: s <= x < s + j ==> disk[x] == wbuff[512 * (x - s)..512 * (x - s) + 512]
      invariant forall x {:trigger disk[x]} :: 0 <= x < s || s + j <= x < disk.Length ==> disk[x] == old(disk[x])
    {
      disk[s + j] := wbuff[512 * j..512 * j + 512];
    }
  }

  /** Copy bytes into the sector buffer. */
  method CopyIn(buf: array<byte>, to: nat, piece: seq<byte>)
    requires to + |piece| <= buf.Length
    modifies buf
    ensures buf[..] == Overwrite(old(buf[..]), to, piece)
  {
    for x := 0 to |piece|
      invariant forall k {:trigger buf[k]} :: 0 <= k < buf.Length ==>
        buf[k] == if to <= k < to + x then piece[k - to] else old(buf[k])
    {
      buf[to + x] := piece[x];
    }
  }

  /** Write a run of sectors of the file straight to the disk. */
  method StoreRun(f: File, ghost r: Run, s: nat, wbuff: seq<byte>, cc: nat)
    requires f.Core() && !f.dirty && f.RunFits(r) && s == f.Phys(r.n)
    requires cc == r.cc && |wbuff| >= 512 * cc && r.piece == wbuff[..512 * cc]
    modifies f.v.disk
    ensures f.VolumeOk() && f.RunStored(r) && f.RestKept(r)
  {
    f.PhysInData(r.n);
    DiskWrite(f.v.disk, s, wbuff, cc);
    f.v.DataWritten();
  }

  /** If the buffered sector is among those written, refill the buffer. */
  method Refill(f: File, ghost r: Run, s: nat, wbuff: seq<byte>, cc: nat)
    requires f.buf.Length == 512 && !f.dirty && f.RunFits(r) && f.RunStored(r) && s == f.Phys(r.n)
    requires f.sect < f.v.disk.Length < 0x1_0000_0000
    requires cc == r.cc && |wbuff| >= 512 * cc && r.piece == wbuff[..512 * cc]
    modifies f`dirty, f.buf
    ensures !f.dirty && f.buf[..] == if s <= f.sect < s + cc then f.v.disk[f.sect] else old(f.buf[..])
  {
    var d := (f.sect - s) % 0x1_0000_0000;  // unsigned 32-bit difference
    assert d == if f.sect >= s then f.sect - s else f.sect - s + 0x1_0000_0000;
    if d < cc {
      assert f.v.disk[f.sect] == wbuff[512 * d..512 * d + 512];
      CopyIn(f.buf, 0, wbuff[512 * d..512 * d + 512]);
      f.dirty := false;
    }
  }

  /** Write a run at the file pointer, refilling the buffer if it showed one of the sectors. */
  method TransferRun(f: File, ghost r: Run, s: nat, wbuff: seq<byte>, cc: nat)
    requires f.Core() && !f.dirty && f.RunFits(r) && s == f.Phys(r.n)
    requires cc == r.cc && |wbuff| >= 512 * cc && r.piece == wbuff[..512 * cc]
    modifies f`dirty, f.buf, f.v.disk
    ensures f.VolumeOk() && f.WindowApart() && f.BufferOk() && !f.dirty
    ensures f.RunStored(r) && f.RestKept(r)
  {
    StoreRun(f, r, s, wbuff, cc);
    Refill(f, r, s, wbuff, cc);
  }

  method WriteRun(f: File, ghost r: Run, s: nat, wbuff: seq<byte>, cc: nat)
    requires f.Core() && !f.dirty && f.RunFits(r) && s == f.Phys(r.n)
    requires cc == r.cc && |wbuff| >= 512 * cc && r.piece == wbuff[..512 * cc]
    requires f.fptr == 512 * r.n <= f.objsize && f.fptr + 512 * cc <= 0xFFFF_FFFF
    modifies f`fptr, f`objsize, f`data, f`dirty, f.buf, f.v.disk
    ensures f.Core() && f.OthersKept() && f.fptr == old(f.fptr) + 512 * cc <= f.objsize
    ensures f.data == Overwrite(old(f.data), 512 * r.n, r.piece)
  {
    TransferRun(f, r, s, wbuff, cc);
    f.fptr := f.fptr + 512 * cc;
    f.objsize := if f.fptr > f.objsize then f.fptr else f.objsize;
    f.data := Overwrite(f.data, 512 * r.n, r.piece);
    f.RunWritten(r);
    f.RunOthers(r);
  }

  /** Whole sectors, at most up to the end of the cluster. */
  method WriteSectors(f: File, ghost n: nat, wbuff: seq<byte>, s: nat, csect: nat) returns (cc: nat)
    requires f.Core() && !f.dirty && f.fptr == 512 * n <= f.objsize && f.fptr + |wbuff| <= 0xFFFF_FFFF
    requires f.Here(n) && s == f.Phys(n) && csect == ClusterMath.Offset(f.v.csize, n) && |wbuff| >= 512
    modifies f`fptr, f`objsize, f`data, f`dirty, f.buf, f.v.disk
    ensures f.Core() && f.OthersKept()
    ensures 0 < cc && 512 * cc <= |wbuff| && f.Here(n + cc - 1) && f.fptr == 512 * (n + cc) <= f.objsize
    ensures f.data == Overwrite(old(f.data), 512 * n, wbuff[..512 * cc])
  {
    cc := ClipAtCluster(|wbuff|, csect, f.v.csize);
    f.RunOnDisk(n, cc);
    WriteRun(f, Run(n, cc, wbuff[..512 * cc]), s, wbuff, cc);
  }

  // ----- part of a sector -----

  /** Change part of sector `n` in the buffer. If the buffer shows another sector, the file ends
      where `n` begins, and nothing of it needs to be kept. */
  method StorePart(f: File, ghost p: Part, wbuff: seq<byte>, wcnt: nat, s: nat)
    requires f.Core() && f.Backed(p.n) && s == f.Phys(p.n) && f.objsize == |f.data|
    requires 0 < wcnt <= |wbuff| && p.piece == wbuff[..wcnt] && p.o == f.fptr % 512 && p.o + wcnt <= 512
    requires f.fptr == 512 * p.n + p.o <= f.objsize && f.fptr + wcnt <= 0xFFFF_FFFF
    requires f.sect == s || (!f.dirty && f.objsize == 512 * p.n)
    modifies f`sect, f`dirty, f`at, f`fptr, f`objsize, f`data, f.buf
    ensures f.Core() && f.sect == s && f.fptr == old(f.fptr) + wcnt <= f.objsize
    ensures f.data == Overwrite(old(f.data), old(f.fptr), p.piece)
  {
    f.WindowElsewhere(p.n);
    f.PhysInData(p.n);
    f.sect := s;
    CopyIn(f.buf, f.fptr % 512, wbuff[..wcnt]);
    f.dirty, f.at := true, p.n;
    f.data := Overwrite(f.data, f.fptr, p.piece);
    f.fptr := f.fptr + wcnt;
    f.objsize := if f.fptr > f.objsize then f.fptr else f.objsize;
    f.PartWritten(p);
  }

  /** The rest of the current sector, into the buffer. */
  method WritePart(f: File, ghost n: nat, wbuff: seq<byte>, s: nat) returns (wcnt: nat)
    requires f.Core() && f.Here(n) && s == f.Phys(n) && |wbuff| > 0
    requires 512 * n <= f.fptr < 512 * n + 512 && f.fptr <= f.objsize && f.fptr + |wbuff| <= 0xFFFF_FFFF
    requires f.sect == s || (!f.dirty && f.objsize == 512 * n)
    modifies f`sect, f`dirty, f`at, f`fptr, f`objsize, f`data, f.buf
    ensures f.Core() && f.sect == s && 0 < wcnt <= |wbuff| && f.fptr == old(f.fptr) + wcnt <= 512 * n + 512
    ensures f.data == Overwrite(old(f.data), old(f.fptr), wbuff[..wcnt]) && f.fptr <= f.objsize
  {
    SectorSplit(f.fptr, n, f.fptr - 512 * n);
    wcnt := 512 - f.fptr % 512;
    if wcnt > |wbuff| {
      wcnt := |wbuff|;
    }
    StorePart(f, Part(n, f.fptr - 512 * n, wbuff[..wcnt]), wbuff, wcnt, s);
  }

  /** At a sector boundary: fill the buffer unless the file grows here, and write into it. */
  method WriteBuffered(f: File, ghost n: nat, wbuff: seq<byte>, s: nat) returns (wcnt: nat)
    requires f.Core() && !f.dirty && f.Here(n) && s == f.Phys(n) && |wbuff| > 0
    requires f.fptr == 512 * n <= f.objsize && f.fptr + |wbuff| <= 0xFFFF_FFFF
    modifies f`sect, f`dirty, f`at, f`fptr, f`objsize, f`data, f.buf
    ensures f.Core() && f.sect == s && 0 < wcnt <= |wbuff| && f.fptr == old(f.fptr) + wcnt <= 512 * n + 512
    ensures f.data == Overwrite(old(f.data), old(f.fptr), wbuff[..wcnt]) && f.fptr <= f.objsize
  {
    if f.sect != s && f.fptr < f.objsize {
      f.PhysInData(n);
      f.WindowElsewhere(n);
      f.Load(s);
    }
    wcnt := WritePart(f, n, wbuff, s);
  }

  /** At a cluster boundary: the first cluster or the next one, allocated where there is none. */
  method EnterForWrite(f: File, ghost n: nat) returns (full: bool)
    requires f.Valid() && f.fptr == 512 * n && ClusterMath.Offset(f.v.csize, n) == 0
    modifies f`clust, f`chain, f`sclust, f.v`wflag, f.v`winsect, f.v`img, f.v`fat, f.v`lastClst, f.v`freeClst
    modifies f.v.win, f.v.disk
    ensures f.Core() && f.OthersKept() && old(f.chain) <= f.chain
    ensures !full ==> f.Here(n)
    ensures full ==> NoneFree(f.v.fat) && f.chain == old(f.chain) && f.clust == old(f.clust)
  {
    var clst;
    if f.fptr == 0 {
      clst := FirstForWrite(f);
    } else {
      clst := NextForWrite(f, n);
    }
    full := clst == 0;
    if !full {
      f.clust := clst;
    }
  }

  /** The first cluster of the file. */
  method FirstForWrite(f: File) returns (clst: nat)
    requires f.Core()
    modifies f`chain, f`sclust, f.v`wflag, f.v`winsect, f.v`img, f.v`fat, f.v`lastClst, f.v`freeClst
    modifies f.v.win, f.v.disk
    ensures f.Core() && f.OthersKept() && old(f.chain) <= f.chain
    ensures if clst == 0 then NoneFree(f.v.fat) && f.chain == old(f.chain) else f.chain != [] && clst == f.chain[0]
  {
    clst := f.sclust;
    if clst == 0 {
      clst := f.StartChain();
    }
  }

  /** The one behind the current cluster. */
  method NextForWrite(f: File, ghost n: nat) returns (clst: nat)
    requires f.Valid() && f.fptr == 512 * n > 0 && ClusterMath.Offset(f.v.csize, n) == 0
    modifies f`chain, f.v`wflag, f.v`winsect, f.v`img, f.v`fat, f.v`lastClst, f.v`freeClst
    modifies f.v.win, f.v.disk
    ensures f.Core() && f.OthersKept() && old(f.chain) <= f.chain
    ensures if clst == 0 then NoneFree(f.v.fat) && f.chain == old(f.chain)
            else f.Backed(n) && clst == f.chain[Cluster(f.v.csize, n)]
  {
    Boundary(f.v.csize, n);
    SectorSplit(f.fptr - 1, n - 1, 511);
    clst := f.Stretch(f.clust, Cluster(f.v.csize, n - 1));
  }

  /** At a sector boundary: go to the cluster of the next byte, which may need allocating. */
  method ClusterForWrite(f: File, ghost n: nat) returns (full: bool, csect: nat)
    requires f.Valid() && f.fptr == 512 * n
    modifies f`clust, f`chain, f`sclust, f.v`wflag, f.v`winsect, f.v`img, f.v`fat, f.v`lastClst, f.v`freeClst
    modifies f.v.win, f.v.disk
    ensures f.Core() && f.OthersKept() && old(f.chain) <= f.chain
    ensures !full ==> f.Here(n) && csect == ClusterMath.Offset(f.v.csize, n)
    ensures full ==> f.Placed() && NoneFree(f.v.fat)
  {
    full := false;
    csect := SectorInCluster(f, n);
    if csect == 0 {
      full := EnterForWrite(f, n);
    } else {
      InsideCluster(f, n);
    }
  }

  /** The transfer at a sector boundary, once its cluster is known; it ends in or after sector `m`. */
  method WriteFrom(f: File, ghost n: nat, wbuff: seq<byte>, csect: nat) returns (wcnt: nat, ghost m: nat)
    requires f.Core() && f.Here(n) && csect == ClusterMath.Offset(f.v.csize, n) && |wbuff| > 0
    requires f.fptr == 512 * n <= f.objsize && f.fptr + |wbuff| <= 0xFFFF_FFFF
    modifies f`sect, f`dirty, f`at, f`fptr, f`objsize, f`data, f.buf, f.v.disk
    ensures f.Core() && f.OthersKept()
    ensures 0 < wcnt <= |wbuff| && f.fptr == old(f.fptr) + wcnt <= f.objsize && f.Here(m) && f.EndsIn(m, f.fptr)
    ensures f.data == Overwrite(old(f.data), old(f.fptr), wbuff[..wcnt])
  {
    f.Flush();
    wcnt, m := WriteFlushed(f, n, wbuff, csect);
  }

  /** The same with nothing in the buffer that is not on disk. */
  method WriteFlushed(f: File, ghost n: nat, wbuff: seq<byte>, csect: nat) returns (wcnt: nat, ghost m: nat)
    requires f.Core() && !f.dirty && f.Here(n) && csect == ClusterMath.Offset(f.v.csize, n) && |wbuff| > 0
    requires f.fptr == 512 * n <= f.objsize && f.fptr + |wbuff| <= 0xFFFF_FFFF
    modifies f`sect, f`dirty, f`at, f`fptr, f`objsize, f`data, f.buf, f.v.disk
    ensures f.Core() && f.OthersKept()
    ensures 0 < wcnt <= |wbuff| && f.fptr == old(f.fptr) + wcnt <= f.objsize && f.Here(m) && f.EndsIn(m, f.fptr)
    ensures f.data == Overwrite(old(f.data), old(f.fptr), wbuff[..wcnt])
  {
    var s := SectorAt(f, n, csect);
    if |wbuff| / 512 > 0 {
      var cc := WriteSectors(f, n, wbuff, s, csect);
      wcnt, m := 512 * cc, n + cc - 1;
    } else {
      wcnt := WriteBuffered(f, n, wbuff, s);
      m := n;
    }
  }

  /** One round of the loop of f_write at a sector boundary; nothing is written if no cluster is free. */
  method WriteAtBoundary(f: File, ghost n: nat, wbuff: seq<byte>) returns (wcnt: nat)
    requires f.Valid() && f.fptr == 512 * n && f.fptr + |wbuff| <= 0xFFFF_FFFF && |wbuff| > 0
    modifies f, f.buf, f.v`wflag, f.v`winsect, f.v`img, f.v`fat, f.v`lastClst, f.v`freeClst, f.v.win, f.v.disk
    ensures f.Valid() && f.OthersKept() && old(f.chain) <= f.chain
    ensures wcnt <= |wbuff| && f.fptr == old(f.fptr) + wcnt
    ensures f.data == Overwrite(old(f.data), old(f.fptr), wbuff[..wcnt])
    ensures wcnt == 0 ==> NoneFree(f.v.fat)
  {
    var full, csect := ClusterForWrite(f, n);
    if full {
      return 0;
    }
    ghost var m;
    wcnt, m := WriteFrom(f, n, wbuff, csect);
    f.PlacedIn(m);
  }

  method WriteInside(f: File, ghost n: nat, wbuff: seq<byte>) returns (wcnt: nat)
    requires f.Valid() && n == f.fptr / 512 && f.fptr % 512 != 0 && f.fptr + |wbuff| <= 0xFFFF_FFFF && |wbuff| > 0
    modifies f`sect, f`dirty, f`at, f`fptr, f`objsize, f`data, f.buf
    ensures f.Valid() && 0 < wcnt <= |wbuff| && f.fptr == old(f.fptr) + wcnt
    ensures f.data == Overwrite(old(f.data), old(f.fptr), wbuff[..wcnt])
  {
    f.InSector(n);
    wcnt := WritePart(f, n, wbuff, f.sect);
    f.PlacedIn(n);
  }

  /** One round of the loop of f_write. */
  method WriteRound(f: File, wbuff: seq<byte>) returns (wcnt: nat)
    requires f.Valid() && f.fptr + |wbuff| <= 0xFFFF_FFFF && |wbuff| > 0
    modifies f, f.buf, f.v`wflag, f.v`winsect, f.v`img, f.v`fat, f.v`lastClst, f.v`freeClst, f.v.win, f.v.disk
    ensures f.Valid() && f.OthersKept() && old(f.chain) <= f.chain
    ensures wcnt <= |wbuff| && f.fptr == old(f.fptr) + wcnt
    ensures f.data == Overwrite(old(f.data), old(f.fptr), wbuff[..wcnt])
    ensures wcnt == 0 ==> NoneFree(f.v.fat)
  {
    if f.fptr % 512 == 0 {
      wcnt := WriteAtBoundary(f, f.fptr / 512, wbuff);
    } else {
      wcnt := WriteInside(f, f.fptr / 512, wbuff);
    }
  }

  /** The loop of f_write: all bytes, or those that fit before the disk is full. */
  method WriteAll(f: File, wbuff: seq<byte>) returns (bw: nat)
    requires f.Valid() && f.fptr + |wbuff| <= 0xFFFF_FFFF
    modifies f, f.buf, f.v`wflag, f.v`winsect, f.v`img, f.v`fat, f.v`lastClst, f.v`freeClst, f.v.win, f.v.disk
    ensures f.Valid() && f.OthersKept() && old(f.chain) <= f.chain
    ensures bw <= |wbuff| && f.fptr == old(f.fptr) + bw
    ensures f.data == Overwrite(old(f.data), old(f.fptr), wbuff[..bw])
    ensures bw < |wbuff| ==> NoneFree(f.v.fat)
  {
    bw := 0;
    ghost var was, from := f.data, f.fptr;
    assert f.data == Overwrite(was, from, wbuff[..0]);
    LaidOverIs(f.data, was, from, wbuff[..0]);
    var full := false;
    while bw < |wbuff| && !full
      invariant full ==> NoneFree(f.v.fat)
      invariant f.Valid() && f.OthersKept() && old(f.chain) <= f.chain
      invariant bw <= |wbuff| && f.fptr == from + bw
      invariant LaidOver(f.data, was, from, wbuff[..bw])
      decreases |wbuff| - bw, !full
    {
      var wcnt := WriteMore(f, wbuff, bw, was, from);
      full := wcnt == 0;
      bw := bw + wcnt;
    }
    LaidOverIs(f.data, was, from, wbuff[..bw]);
  }

  /** One more round, seen from the start of the loop. */
  method WriteMore(f: File, wbuff: seq<byte>, bw: nat, ghost was: seq<byte>, ghost from: nat) returns (wcnt: nat)
    requires f.Valid() && from <= |was| && bw < |wbuff| && f.fptr == from + bw && from + |wbuff| <= 0xFFFF_FFFF
    requires LaidOver(f.data, was, from, wbuff[..bw])
    modifies f, f.buf, f.v`wflag, f.v`winsect, f.v`img, f.v`fat, f.v`lastClst, f.v`freeClst, f.v.win, f.v.disk
    ensures f.Valid() && f.OthersKept() && old(f.chain) <= f.chain
    ensures bw + wcnt <= |wbuff| && f.fptr == old(f.fptr) + wcnt
    ensures LaidOver(f.data, was, from, wbuff[..bw + wcnt])
    ensures wcnt == 0 ==> NoneFree(f.v.fat)
  {
    LaidOverIs(f.data, was, from, wbuff[..bw]);
    wcnt := WriteRound(f, wbuff[bw..]);
    OverwriteOn(was, from, wbuff, bw, wcnt);
  }

  lemma OverwriteOn(was: seq<byte>, pos: nat, wbuff: seq<byte>, a: nat, b: nat)
    requires pos <= |was| && a + b <= |wbuff|
    ensures Overwrite(Overwrite(was, pos, wbuff[..a]), pos + a, wbuff[a..][..b]) == Overwrite(was, pos, wbuff[..a + b])
  {
    OverwriteTwice(was, pos, wbuff[..a], wbuff[a..][..b]);
    assert wbuff[..a + b] == wbuff[..a] + wbuff[a..][..b];
  }

  /** f_write. The length is clipped where the file pointer would pass the largest 32-bit offset. */
  method Write(f: File, wbuff: seq<byte>) returns (ok: bool, bw: nat)
    requires f.Valid() && |wbuff| < 0x1_0000_0000
    modifies f, f.buf, f.v`wflag, f.v`winsect, f.v`img, f.v`fat, f.v`lastClst, f.v`freeClst, f.v.win, f.v.disk
    ensures f.Valid() && f.OthersKept() && old(f.chain) <= f.chain
    ensures ok == f.canWrite && (!ok ==> bw == 0)
    ensures f.fptr == old(f.fptr) + bw && bw <= |wbuff| && f.fptr <= 0xFFFF_FFFF
    ensures f.data == Overwrite(old(f.data), old(f.fptr), wbuff[..bw])
    ensures ok && bw < |wbuff| && f.fptr < 0xFFFF_FFFF ==> NoneFree(f.v.fat)
  {
    if !f.canWrite {
      return false, 0;
    }
    var btw := |wbuff|;
    if (f.fptr + btw) % 0x1_0000_0000 < f.fptr {
      btw := 0xFFFF_FFFF - f.fptr;
    }
    bw := WriteAll(f, wbuff[..btw]);
    assert wbuff[..btw][..bw] == wbuff[..bw];
    return true, bw;
  }
}
