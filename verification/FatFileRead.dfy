/** f_read: what it delivers is the slice of the file's bytes at the file pointer. */
module FatFileRead {
  import opened Words
  import opened FatVolume
  import opened FatChains
  import opened ClusterMath
  import opened FatFile

  /** disk_read: `cc` sectors from `s` on, into the buffer at `pos`. */
  method DiskRead(disk: array<Sector>, rbuff: array<byte>, pos: nat, s: nat, cc: nat)
    requires s + cc <= disk.Length && pos + 512 * cc <= rbuff.Length
    modifies rbuff
    ensures forall k {:trigger rbuff[k]} :: 0 <= k < pos || pos + 512 * cc <= k < rbuff.Length ==>
      rbuff[k] == old(rbuff[k])
    ensures forall k {:trigger rbuff[k]} :: pos <= k < pos + 512 * cc ==>
      rbuff[k] == disk[s + (k - pos) / 512][(k - pos) % 512]
  {
    for x := 0 to 512 * cc
      invariant forall k {:trigger rbuff[k]} :: 0 <= k < pos || pos + 512 * cc <= k < rbuff.Length ==>
        rbuff[k] == old(rbuff[k])
      invariant forall k {:trigger rbuff[k]} :: pos <= k < pos + x ==>
        rbuff[k] == disk[s + (k - pos) / 512][(k - pos) % 512]
    {
      rbuff[pos + x] := disk[s + x / 512][x % 512];
    }
  }

  /** Copy part of the sector buffer out. */
  method CopyOut(f: File, rbuff: array<byte>, pos: nat, from: nat, cnt: nat)
    requires f.buf.Length == 512 && from + cnt <= 512 && pos + cnt <= rbuff.Length && rbuff != f.buf
    modifies rbuff
    ensures forall k {:trigger rbuff[k]} :: 0 <= k < pos || pos + cnt <= k < rbuff.Length ==>
      rbuff[k] == old(rbuff[k])
    ensures forall k {:trigger rbuff[k]} :: pos <= k < pos + cnt ==> rbuff[k] == f.buf[from + k - pos]
  {
    for x := 0 to cnt
      invariant forall k {:trigger rbuff[k]} :: 0 <= k < pos || pos + cnt <= k < rbuff.Length ==>
        rbuff[k] == old(rbuff[k])
      invariant forall k {:trigger rbuff[k]} :: pos <= k < pos + x ==> rbuff[k] == f.buf[from + k - pos]
    {
      rbuff[pos + x] := f.buf[from + x];
    }
  }

  /** Sectors read directly, with the dirty buffer laid over its sector if it is one of them. */
  method DirectRead(f: File, rbuff: array<byte>, pos: nat, s: nat, cc: nat)
    requires f.buf.Length == 512 && rbuff != f.buf
    requires s + cc <= f.v.disk.Length < 0x1_0000_0000 && pos + 512 * cc <= rbuff.Length
    requires f.sect < f.v.disk.Length
    modifies rbuff
    ensures forall k {:trigger rbuff[k]} :: 0 <= k < pos || pos + 512 * cc <= k < rbuff.Length ==>
      rbuff[k] == old(rbuff[k])
    ensures forall k {:trigger rbuff[k]} :: pos <= k < pos + 512 * cc ==>
      rbuff[k] == f.Cached(s + (k - pos) / 512)[(k - pos) % 512]
  {
    DiskRead(f.v.disk, rbuff, pos, s, cc);
    var d := (f.sect - s) % 0x1_0000_0000;  // unsigned 32-bit difference
    if f.dirty && d < cc {
      CopyOut(f, rbuff, pos + 512 * d, 0, 512);
      forall k | pos <= k < pos + 512 * cc
        ensures rbuff[k] == f.Cached(s + (k - pos) / 512)[(k - pos) % 512]
      {
        if pos + 512 * d <= k < pos + 512 * d + 512 {
          SectorSplit(k - pos, d, k - pos - 512 * d);
        }
      }
    }
  }

  /** At a sector boundary inside the file: go to the cluster of the next byte. */
  method Locate(f: File, ghost n: nat) returns (csect: nat)
    requires f.Valid() && f.fptr == 512 * n < f.objsize
    modifies f`clust, f.v`wflag, f.v`winsect, f.v.win, f.v.disk
    ensures f.Core() && f.v.FatKept() && f.OthersKept() && f.Here(n)
    ensures csect == ClusterMath.Offset(f.v.csize, n)
  {
    f.BackedInside(n);
    csect := SectorInCluster(f, n);
    if csect == 0 {
      EnterCluster(f, n);
    } else {
      InsideCluster(f, n);
    }
  }

  /** At a cluster boundary: the first cluster, or the one the current cluster's entry names. */
  method EnterCluster(f: File, ghost n: nat)
    requires f.Valid() && f.fptr == 512 * n && f.Backed(n) && ClusterMath.Offset(f.v.csize, n) == 0
    modifies f`clust, f.v`wflag, f.v`winsect, f.v.win, f.v.disk
    ensures f.Core() && f.v.FatKept() && f.OthersKept() && f.Here(n)
  {
    var clst;
    if f.fptr == 0 {
      clst := f.sclust;
    } else {
      BehindBoundary(f, n);
      clst := f.FatEntry(f.clust);
    }
    f.clust := clst;
  }

  /** The current cluster's entry names the next cluster of the file. */
  lemma BehindBoundary(f: File, n: nat)
    requires f.Valid() && f.fptr == 512 * n && n > 0 && f.Backed(n)
    requires ClusterMath.Offset(f.v.csize, n) == 0
    ensures InRange(f.v.fat, f.clust) && f.v.fat[f.clust] == f.chain[Cluster(f.v.csize, n)]
  {
    Boundary(f.v.csize, n);
    SectorSplit(f.fptr - 1, n - 1, 511);
    assert Linked(f.v.fat, f.chain, Cluster(f.v.csize, n - 1));
  }

  // ----- one round of f_read -----

  /** Bytes of the file from its sectors. */
  lemma ByteOfRun(f: File, n: nat, q: nat, o: nat)
    requires f.Core() && f.Backed(n) && o < 512 && 512 * (n + q) + o < f.objsize
    requires ClusterMath.Offset(f.v.csize, n) + q < f.v.csize
    ensures f.Phys(n) + q < f.v.disk.Length
    ensures f.data[512 * (n + q) + o] == f.Cached(f.Phys(n) + q)[o]
  {
    var i := 512 * (n + q) + o;
    SectorSplit(i, n + q, o);
    assert f.Holds(i);
    f.PhysRun(n, q);
  }

  /** The next `cnt` bytes of the file. */
  ghost function Upcoming(f: File, cnt: nat): (r: seq<byte>)
    reads f`fptr, f`data
    requires f.fptr + cnt <= |f.data|
    ensures |r| == cnt
  {
    f.data[f.fptr..f.fptr + cnt]
  }

  /** Whole sectors, at most up to the end of the cluster, straight from the disk. */
  method ReadSectors(f: File, ghost n: nat, rbuff: array<byte>, pos: nat, btr: nat, s: nat, csect: nat)
    returns (cc: nat)
    requires f.Core() && f.fptr == 512 * n && f.fptr + btr <= f.objsize && btr >= 512
    requires f.Here(n) && s == f.Phys(n) && csect == ClusterMath.Offset(f.v.csize, n)
    requires rbuff != f.buf && rbuff != f.v.win && pos + btr <= rbuff.Length
    modifies rbuff
    ensures 0 < cc && 512 * cc <= btr && f.Here(n + cc - 1)
    ensures rbuff[..] == Overwrite(old(rbuff[..]), pos, Upcoming(f, 512 * cc))
  {
    cc := ClipAtCluster(btr, csect, f.v.csize);
    f.RunOnDisk(n, cc);
    DirectRead(f, rbuff, pos, s, cc);
    RunDelivered(f, n, rbuff, pos, cc);
  }

  lemma RunDelivered(f: File, n: nat, rbuff: array<byte>, pos: nat, cc: nat)
    requires f.Core() && f.fptr == 512 * n && f.fptr + 512 * cc <= f.objsize && pos + 512 * cc <= rbuff.Length
    requires f.Backed(n) && ClusterMath.Offset(f.v.csize, n) + cc <= f.v.csize && f.Phys(n) + cc <= f.v.disk.Length
    requires forall k {:trigger rbuff[k]} :: pos <= k < pos + 512 * cc ==>
      rbuff[k] == f.Cached(f.Phys(n) + (k - pos) / 512)[(k - pos) % 512]
    ensures rbuff[pos..pos + 512 * cc] == Upcoming(f, 512 * cc)
  {
    var got, want := rbuff[pos..pos + 512 * cc], Upcoming(f, 512 * cc);
    forall k | 0 <= k < 512 * cc
      ensures got[k] == want[k]
    {
      assert got[k] == rbuff[pos + k];
      ByteOfRun(f, n, k / 512, k % 512);
    }
  }

  /** The rest of the current sector, from the buffer. */
  method ReadPart(f: File, ghost n: nat, rbuff: array<byte>, pos: nat, btr: nat) returns (rcnt: nat)
    requires f.Core() && 512 * n <= f.fptr < 512 * n + 512 && f.fptr + btr <= f.objsize && btr > 0
    requires f.Backed(n) && f.sect == f.Phys(n)
    requires rbuff != f.buf && rbuff != f.v.win && pos + btr <= rbuff.Length
    modifies rbuff
    ensures 0 < rcnt <= btr && f.fptr + rcnt <= 512 * n + 512
    ensures rbuff[..] == Overwrite(old(rbuff[..]), pos, Upcoming(f, rcnt))
  {
    SectorSplit(f.fptr, n, f.fptr - 512 * n);
    rcnt := 512 - f.fptr % 512;
    if rcnt > btr {
      rcnt := btr;
    }
    CopyOut(f, rbuff, pos, f.fptr % 512, rcnt);
    PartDelivered(f, n, rbuff, pos, rcnt);
  }

  lemma PartDelivered(f: File, n: nat, rbuff: array<byte>, pos: nat, cnt: nat)
    requires f.Core() && 512 * n <= f.fptr && f.fptr + cnt <= 512 * n + 512 && f.fptr + cnt <= f.objsize
    requires f.Backed(n) && f.sect == f.Phys(n) && pos + cnt <= rbuff.Length
    requires forall k {:trigger rbuff[k]} :: pos <= k < pos + cnt ==> rbuff[k] == f.buf[f.fptr - 512 * n + k - pos]
    ensures rbuff[pos..pos + cnt] == Upcoming(f, cnt)
  {
    f.PhysInData(n);
    f.PhysRun(n, 0);
    var got, want := rbuff[pos..pos + cnt], Upcoming(f, cnt);
    forall k | 0 <= k < cnt
      ensures got[k] == want[k]
    {
      assert got[k] == rbuff[pos + k];
      ByteOfRun(f, n, 0, f.fptr + k - 512 * n);
    }
  }

  /** Have the sector in the buffer and deliver from there. */
  method ReadBuffered(f: File, ghost n: nat, rbuff: array<byte>, pos: nat, btr: nat, s: nat) returns (rcnt: nat)
    requires f.Core() && f.fptr == 512 * n && f.fptr + btr <= f.objsize && btr > 0
    requires f.Backed(n) && s == f.Phys(n)
    requires rbuff != f.buf && rbuff != f.v.win && pos + btr <= rbuff.Length
    modifies f`dirty, f`sect, f.buf, f.v.disk, rbuff
    ensures f.Core() && f.OthersKept() && f.sect == s
    ensures 0 < rcnt <= btr && rcnt <= 512
    ensures rbuff[..] == Overwrite(old(rbuff[..]), pos, Upcoming(f, rcnt))
  {
    f.BufferSector(n, s);
    rcnt := ReadPart(f, n, rbuff, pos, btr);
  }

  /** The transfer at a sector boundary, once its place is known; it ends in or after sector `m`. */
  method ReadFrom(f: File, ghost n: nat, rbuff: array<byte>, pos: nat, btr: nat, s: nat, csect: nat)
    returns (rcnt: nat, ghost m: nat)
    requires f.Core() && f.fptr == 512 * n && f.fptr + btr <= f.objsize && btr > 0
    requires f.Here(n) && s == f.Phys(n) && csect == ClusterMath.Offset(f.v.csize, n)
    requires rbuff != f.buf && rbuff != f.v.win && pos + btr <= rbuff.Length
    modifies f`dirty, f`sect, f.buf, f.v.disk, rbuff
    ensures f.Core() && f.OthersKept()
    ensures 0 < rcnt <= btr && rbuff[..] == Overwrite(old(rbuff[..]), pos, Upcoming(f, rcnt))
    ensures f.Here(m) && f.EndsIn(m, f.fptr + rcnt)
  {
    if btr / 512 > 0 {
      var cc := ReadSectors(f, n, rbuff, pos, btr, s, csect);
      rcnt, m := 512 * cc, n + cc - 1;
    } else {
      rcnt := ReadBuffered(f, n, rbuff, pos, btr, s);
      m := n;
    }
  }

  method ReadAtBoundary(f: File, ghost n: nat, rbuff: array<byte>, pos: nat, btr: nat)
    returns (rcnt: nat, ghost m: nat)
    requires f.Valid() && f.fptr == 512 * n && f.fptr + btr <= f.objsize && btr > 0
    requires rbuff != f.buf && rbuff != f.v.win && pos + btr <= rbuff.Length
    modifies f`clust, f`dirty, f`sect, f.buf, f.v`wflag, f.v`winsect, f.v.win, f.v.disk, rbuff
    ensures f.Core() && f.OthersKept() && f.v.fat == old(f.v.fat)
    ensures 0 < rcnt <= btr && rbuff[..] == Overwrite(old(rbuff[..]), pos, Upcoming(f, rcnt))
    ensures f.Here(m) && f.EndsIn(m, f.fptr + rcnt)
  {
    var csect := Locate(f, n);
    var s := SectorAt(f, n, csect);
    rcnt, m := ReadFrom(f, n, rbuff, pos, btr, s, csect);
  }

  /** The transfer of one round of f_read. */
  method ReadPiece(f: File, rbuff: array<byte>, pos: nat, btr: nat) returns (rcnt: nat, ghost m: nat)
    requires f.Valid() && f.fptr + btr <= f.objsize && btr > 0
    requires rbuff != f.buf && rbuff != f.v.win && pos + btr <= rbuff.Length
    modifies f`clust, f`dirty, f`sect, f.buf, f.v`wflag, f.v`winsect, f.v.win, f.v.disk, rbuff
    ensures f.Core() && f.OthersKept() && f.v.fat == old(f.v.fat)
    ensures 0 < rcnt <= btr && rbuff[..] == Overwrite(old(rbuff[..]), pos, Upcoming(f, rcnt))
    ensures f.Here(m) && f.EndsIn(m, f.fptr + rcnt)
  {
    if f.fptr % 512 == 0 {
      rcnt, m := ReadAtBoundary(f, f.fptr / 512, rbuff, pos, btr);
    } else {
      m := f.fptr / 512;
      f.InSector(m);
      rcnt := ReadPart(f, m, rbuff, pos, btr);
    }
  }

  /** One round of the loop of f_read: deliver some bytes and advance. */
  method ReadRound(f: File, rbuff: array<byte>, pos: nat, btr: nat) returns (rcnt: nat)
    requires f.Valid() && f.fptr + btr <= f.objsize && btr > 0
    requires rbuff != f.buf && rbuff != f.v.win && pos + btr <= rbuff.Length
    modifies f`fptr, f`clust, f`dirty, f`sect, f.buf, f.v`wflag, f.v`winsect, f.v.win, f.v.disk, rbuff
    ensures f.Valid() && f.OthersKept() && f.v.fat == old(f.v.fat)
    ensures 0 < rcnt <= btr && f.fptr == old(f.fptr) + rcnt
    ensures rbuff[..] == Overwrite(old(rbuff[..]), pos, f.data[old(f.fptr)..f.fptr])
  {
    ghost var m;
    rcnt, m := ReadPiece(f, rbuff, pos, btr);
    f.fptr := f.fptr + rcnt;
    f.PlacedIn(m);
  }

  /** f_read: the bytes at the file pointer, as many as asked for and present. */
  method Read(f: File, rbuff: array<byte>, btr: nat) returns (ok: bool, br: nat)
    requires f.Valid() && rbuff != f.buf && rbuff != f.v.win && btr <= rbuff.Length
    modifies f`fptr, f`clust, f`dirty, f`sect, f.buf, f.v`wflag, f.v`winsect, f.v.win, f.v.disk, rbuff
    ensures f.Valid() && f.OthersKept() && f.v.fat == old(f.v.fat)
    ensures ok == f.canRead
    ensures br == if ok then old(if btr < f.objsize - f.fptr then btr else f.objsize - f.fptr) else 0
    ensures f.fptr == old(f.fptr) + br
    ensures rbuff[..] == Overwrite(old(rbuff[..]), 0, f.data[old(f.fptr)..f.fptr])
  {
    if !f.canRead {
      return false, 0;
    }
    var todo: nat := btr;
    var remain := f.objsize - f.fptr;
    if todo > remain {
      todo := remain;
    }
    ReadAll(f, rbuff, todo);
    return true, todo;
  }

  /** The loop of f_read. */
  method ReadAll(f: File, rbuff: array<byte>, btr: nat)
    requires f.Valid() && f.fptr + btr <= f.objsize
    requires rbuff != f.buf && rbuff != f.v.win && btr <= rbuff.Length
    modifies f`fptr, f`clust, f`dirty, f`sect, f.buf, f.v`wflag, f.v`winsect, f.v.win, f.v.disk, rbuff
    ensures f.Valid() && f.OthersKept() && f.v.fat == old(f.v.fat) && f.fptr == old(f.fptr) + btr
    ensures rbuff[..] == Overwrite(old(rbuff[..]), 0, f.data[old(f.fptr)..f.fptr])
  {
    var todo: nat, br := btr, 0;
    ghost var from, was := f.fptr, rbuff[..];
    assert rbuff[..] == Overwrite(was, 0, f.data[from..from]);
    LaidOverIs(rbuff[..], was, 0, f.data[from..f.fptr]);
    while todo > 0
      invariant todo + br == btr && f.fptr == from + br
      invariant f.Valid() && f.OthersKept() && f.v.fat == old(f.v.fat)
      invariant LaidOver(rbuff[..], was, 0, f.data[from..f.fptr])
    {
      var rcnt := ReadMore(f, rbuff, br, todo, was, from);
      todo, br := todo - rcnt, br + rcnt;
    }
    LaidOverIs(rbuff[..], was, 0, f.data[from..f.fptr]);
  }

  /** One more round, seen from the start of the loop. */
  method ReadMore(f: File, rbuff: array<byte>, br: nat, todo: nat, ghost was: seq<byte>, ghost from: nat)
    returns (rcnt: nat)
    requires f.Valid() && f.fptr == from + br && f.fptr + todo <= f.objsize && todo > 0
    requires rbuff != f.buf && rbuff != f.v.win && br + todo <= rbuff.Length
    requires LaidOver(rbuff[..], was, 0, f.data[from..f.fptr])
    modifies f`fptr, f`clust, f`dirty, f`sect, f.buf, f.v`wflag, f.v`winsect, f.v.win, f.v.disk, rbuff
    ensures f.Valid() && f.OthersKept() && f.v.fat == old(f.v.fat)
    ensures 0 < rcnt <= todo && f.fptr == old(f.fptr) + rcnt
    ensures LaidOver(rbuff[..], was, 0, f.data[from..f.fptr])
  {
    LaidOverIs(rbuff[..], was, 0, f.data[from..f.fptr]);
    rcnt := ReadRound(f, rbuff, br, todo);
    OverwriteOn(was, f.data, from, f.fptr - rcnt, f.fptr);
  }

  lemma OverwriteOn(was: seq<byte>, data: seq<byte>, from: nat, here: nat, to: nat)
    requires from <= here <= to <= |data|
    ensures Overwrite(Overwrite(was, 0, data[from..here]), here - from, data[here..to]) ==
            Overwrite(was, 0, data[from..to])
  {
    OverwriteTwice(was, 0, data[from..here], data[here..to]);
    assert data[from..to] == data[from..here] + data[here..to];
  }
}
