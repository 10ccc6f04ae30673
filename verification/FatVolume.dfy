/** The FAT layer's view of a mounted volume: a disk of 512-byte sectors behind a one-sector
    write-back window, and the entries of the first FAT seen through it. */
module FatVolume {
  import opened Words
  import opened FatImage
  import opened FatBits

  type Sector = s: seq<byte> | |s| == 512 witness seq(512, i => 0)

  /** The first `n` bytes from sector `from` on. */
  ghost function TableBytes(image: seq<Sector>, from: nat, n: nat): seq<byte> {
    seq(n, i requires 0 <= i < n => if from + i / 512 < |image| then image[from + i / 512][i % 512] else 0)
  }

  /** FATFS, with the medium it is mounted on. */
  class Volume {
    const fsType: FatType
    const nFats: nat
    const csize: nat
    const nFatent: nat
    const fsize: nat
    const fatbase: nat
    const database: nat
    const disk: array<Sector>
    const win: array<byte>
    var wflag: bool
    var winsect: nat
    var lastClst: nat
    var freeClst: nat
    ghost var img: seq<byte>  // bytes of the first FAT, including a dirty window
    ghost var fat: seq<nat>   // its entries

    /** The volume as mount_volume leaves it: the window is on no sector, and nothing is known about
        free clusters. */
    constructor (fsType: FatType, nFats: nat, csize: nat, nFatent: nat, fsize: nat, fatbase: nat, database: nat,
                 image: seq<Sector>)
      ensures this.fsType == fsType && this.nFats == nFats && this.csize == csize && this.nFatent == nFatent
      ensures this.fsize == fsize && this.fatbase == fatbase && this.database == database
      ensures disk[..] == image && fresh(disk) && win.Length == 512 && fresh(win)
      ensures !wflag && winsect == lastClst == freeClst == 0xFFFF_FFFF
      ensures img == TableBytes(image, fatbase, 512 * fsize)
      ensures Geometry() ==> Valid()
    {
      this.fsType, this.nFats, this.csize, this.nFatent := fsType, nFats, csize, nFatent;
      this.fsize, this.fatbase, this.database := fsize, fatbase, database;
      disk := new Sector[|image|](i requires 0 <= i < |image| => image[i]);
      win := new byte[512](_ => 0);
      wflag, winsect, lastClst, freeClst := false, 0xFFFF_FFFF, 0xFFFF_FFFF, 0xFFFF_FFFF;
      ghost var bytes := TableBytes(image, fatbase, 512 * fsize);
      img := bytes;
      fat := seq(nFatent, c requires 0 <= c < nFatent => if Inside(fsType, bytes, c) then Entry(fsType, bytes, c) else 0);
      new;
      if Geometry() {
        ImageMounted(image);
        forall c | 0 <= c < nFatent
          ensures Inside(fsType, img, c)
        {
          EntryInside(c);
        }
      }
    }

    lemma ImageMounted(image: seq<Sector>)
      requires Geometry() && !wflag && winsect >= database && disk[..] == image
      requires img == TableBytes(image, fatbase, 512 * fsize)
      ensures ValidImage()
    {
      forall i | 0 <= i < |img|
        ensures img[i] == Seen(fatbase + i / 512, i % 512)
      {
        assert i / 512 < fsize;
        assert disk[fatbase + i / 512] == image[fatbase + i / 512];
      }
    }

    /** What mount_volume establishes about the layout. */
    ghost predicate Geometry() {
      && (nFats == 1 || nFats == 2)
      && 0 < csize <= 128
      && nFatent >= 3
      && nFatent <= (match fsType case Fat12 => 0xFF7 case Fat16 => 0xFFF7 case Fat32 => 0x0FFF_FFF7)
      && fatbase + (if nFats == 2 then 2 * fsize else fsize) <= database <= disk.Length < 0x1_0000_0000
      && win.Length == 512
      && EntryByte(fsType, nFatent - 1) + (if fsType.Fat32? then 4 else 2) <= 512 * fsize
    }

    /** A sector of the first FAT. */
    ghost predicate InFat(s: int) {
      fatbase <= s < fatbase + fsize
    }

    /** A clean window on the system area shows its sector; a dirty one is not the second FAT. */
    ghost predicate Coherent()
      reads this, win, disk
      requires Geometry()
    {
      && (!wflag && winsect < database ==> win[..] == disk[winsect])
      && (wflag ==> winsect < disk.Length && !(nFats == 2 && InFat(winsect - fsize)))
    }

    /** Byte `o` of sector `s` with a dirty window laid over the disk. */
    ghost function Seen(s: nat, o: nat): byte
      reads this, win, disk
      requires Geometry() && s < disk.Length && o < 512
    {
      if wflag && s == winsect then win[o] else disk[s][o]
    }

    /** The bytes of sector `s` with a dirty window laid over the disk. */
    ghost function Shows(s: nat): seq<byte>
      reads this`wflag, this`winsect, win, disk
      requires s < disk.Length
    {
      if wflag && s == winsect then win[..] else disk[s]
    }

    /** A sector that belongs to neither FAT. */
    ghost predicate OffFats(s: nat) {
      s < disk.Length && !InFat(s) && !(nFats == 2 && InFat(s - fsize))
    }

    /** `img` is the first FAT as seen through the window. */
    ghost predicate ValidImage()
      reads this, win, disk
    {
      && Geometry() && Coherent()
      && |img| == 512 * fsize
      && forall i {:trigger img[i]} :: 0 <= i < |img| ==> img[i] == Seen(fatbase + i / 512, i % 512)
    }

    ghost predicate Valid()
      reads this, win, disk
    {
      && ValidImage()
      && |fat| == nFatent
      && forall c {:trigger Inside(fsType, img, c)} {:trigger Entry(fsType, img, c)} :: 0 <= c < nFatent ==>
           Inside(fsType, img, c) && fat[c] == Entry(fsType, img, c)
    }

    /** Both FATs agree, except where the window is yet to be written back. */
    ghost predicate Mirrored()
      reads this, disk
      requires Geometry()
    {
      nFats == 2 ==>
        forall s {:trigger disk[s]} :: fatbase <= s < fatbase + fsize && !(wflag && s == winsect) ==>
          disk[s] == disk[s + fsize]
    }

    /** Sectors outside the FATs show the same bytes, and those of the data area stay, except that a
        dirty window on one of them may be written back. */
    twostate predicate DataKept()
      reads this, win, disk
      requires Geometry()
    {
      && (forall s {:trigger Shows(s)} :: 0 <= s < disk.Length && OffFats(s) ==> Shows(s) == old(Shows(s)))
      && (forall s {:trigger disk[s]} :: database <= s < disk.Length && !(old(wflag) && s == old(winsect)) ==>
            disk[s] == old(disk[s]))
      && (wflag && winsect >= database ==> old(wflag) && winsect == old(winsect))
    }

    /** sync_window: write a dirty window back, and to the second FAT if it shows the first. */
    method SyncWindow()
      requires ValidImage()
      modifies this`wflag, disk
      ensures ValidImage() && !wflag && DataKept()
      ensures forall s {:trigger disk[s]} :: 0 <= s < disk.Length && !(nFats == 2 && InFat(s - fsize)) ==>
        disk[s] == old(if wflag && s == winsect then win[..] else disk[s])
      ensures old(Mirrored()) ==> Mirrored()
      ensures old(Mirrored()) && nFats == 2 ==>
        forall s {:trigger disk[s]} :: fatbase <= s < fatbase + fsize ==> disk[s] == disk[s + fsize]
    {
      if wflag {
        WriteWindow();
        if (winsect - fatbase) % 0x1_0000_0000 < fsize {  // unsigned 32-bit difference
          if nFats == 2 {
            CopyToSecond();
          }
        }
      }
    }

    /** The window goes to its sector. */
    method WriteWindow()
      requires ValidImage() && wflag
      modifies this`wflag, disk
      ensures ValidImage() && !wflag && disk[winsect] == win[..]
      ensures forall s {:trigger disk[s]} :: 0 <= s < disk.Length && s != winsect ==> disk[s] == old(disk[s])
    {
      disk[winsect] := win[..];
      wflag := false;
    }

    /** A sector of the first FAT goes to the same place of the second. */
    method CopyToSecond()
      requires ValidImage() && !wflag && InFat(winsect) && nFats == 2
      modifies disk
      ensures ValidImage() && disk[winsect + fsize] == win[..]
      ensures forall s {:trigger disk[s]} :: 0 <= s < disk.Length && s != winsect + fsize ==> disk[s] == old(disk[s])
    {
      disk[winsect + fsize] := win[..];
    }

    /** move_window. The sector appears, also if it was already there, unless its window was stale. */
    method MoveWindow(sect: nat)
      requires ValidImage() && sect < disk.Length
      modifies this`wflag, this`winsect, win, disk
      ensures ValidImage() && winsect == sect && DataKept()
      ensures OffFats(sect) || InFat(sect) ==>
        (win[..] == old(Shows(sect)) <==> sect != old(winsect) || old(wflag) || old(win[..] == disk[winsect]))
      ensures wflag ==> old(wflag) && sect == old(winsect)
      ensures old(Mirrored()) ==> Mirrored()
    {
      if sect != winsect {
        SyncWindow();
        ghost var was := disk[..];
        for o := 0 to 512
          invariant disk[..] == was && !wflag && winsect == old(winsect)
          invariant forall k :: 0 <= k < o ==> win[k] == disk[sect][k]
        {
          win[o] := disk[sect][o];
        }
        winsect := sect;
        assert win[..] == disk[winsect];
      }
    }

    /** The window byte that holds byte `i` of the FAT. */
    lemma WindowShows(i: nat)
      requires ValidImage() && i < 512 * fsize && winsect == fatbase + i / 512
      ensures win[i % 512] == img[i]
    {
    }

    /** Byte `o` of the window when it shows FAT sector `q`. */
    lemma WindowByte(q: nat, o: nat)
      requires ValidImage() && q < fsize && o < 512 && winsect == fatbase + q
      ensures win[o] == img[512 * q + o]
    {
      SectorSplit(512 * q + o, q, o);
      WindowShows(512 * q + o);
    }

    /** Every entry of a cluster lies inside the first FAT. */
    lemma EntryInside(c: nat)
      requires ValidImage() && c < nFatent
      ensures Inside(fsType, img, c)
    {
      match fsType {
        case Fat12 => assert c + c / 2 <= (nFatent - 1) + (nFatent - 1) / 2;
        case Fat16 =>
        case Fat32 =>
      }
    }

    /** Overwrite byte `i` of the FAT in the window. */
    method StoreByte(i: nat, v: byte)
      requires ValidImage() && i < 512 * fsize && winsect == fatbase + i / 512
      modifies this`wflag, this`img, win
      ensures ValidImage() && img == old(img)[i := v] && DataKept()
      ensures wflag
      ensures old(Mirrored()) ==> Mirrored()
    {
      win[i % 512] := v;
      wflag := true;
      img := img[i := v];
    }
  
    /** What reading the FAT leaves alone. */
    twostate predicate FatKept()
      reads this, win, disk
      requires Geometry()
    {
      img == old(img) && fat == old(fat) && lastClst == old(lastClst) && freeClst == old(freeClst) && DataKept()
    }

    /** get_fat: the entry, or 1 for a cluster number out of range. */
    method GetFat(clst: nat) returns (val: nat)
      requires Valid()
      modifies this`wflag, this`winsect, win, disk
      ensures Valid() && FatKept()
      ensures val == if 2 <= clst < nFatent then fat[clst] else 1
      ensures 2 <= clst < nFatent ==> val == Number(fsType, img, clst)
      ensures old(Mirrored()) ==> Mirrored()
    {
      if clst < 2 || clst >= nFatent {
        return 1;
      }
      EntryIsNumber(fsType, img, clst);
      match fsType {
        case Fat12 => val := GetFat12(clst);
        case Fat16 => val := GetFat16(clst);
        case Fat32 => val := GetFat32(clst);
      }
    }

    method GetFat12(clst: nat) returns (val: nat)
      requires ValidImage() && Inside(Fat12, img, clst)
      modifies this`wflag, this`winsect, win, disk
      ensures ValidImage() && DataKept() && val == Entry(Fat12, img, clst)
      ensures old(Mirrored()) ==> Mirrored()
    {
      var bc := clst + clst / 2;
      MoveWindow(fatbase + bc / 512);
      WindowShows(bc);
      var wc: nat := win[bc % 512];
      bc := bc + 1;
      MoveWindow(fatbase + bc / 512);
      WindowShows(bc);
      val := Value12(wc, win[bc % 512], clst % 2 == 1);
    }

    method GetFat16(clst: nat) returns (val: nat)
      requires ValidImage() && Inside(Fat16, img, clst)
      modifies this`wflag, this`winsect, win, disk
      ensures ValidImage() && DataKept() && val == Entry(Fat16, img, clst)
      ensures old(Mirrored()) ==> Mirrored()
    {
      var p := clst * 2 % 512;
      Place16(clst, p);
      MoveWindow(fatbase + clst / 256);
      WindowShows(2 * clst);
      WindowShows(2 * clst + 1);
      val := Value16(win[p], win[p + 1]);
    }

    method GetFat32(clst: nat) returns (val: nat)
      requires ValidImage() && Inside(Fat32, img, clst)
      modifies this`wflag, this`winsect, win, disk
      ensures ValidImage() && DataKept() && val == Entry(Fat32, img, clst)
      ensures old(Mirrored()) ==> Mirrored()
    {
      var p := clst * 4 % 512;
      Place32(clst, p);
      MoveWindow(fatbase + clst / 128);
      WindowShows(4 * clst);
      WindowShows(4 * clst + 1);
      WindowShows(4 * clst + 2);
      WindowShows(4 * clst + 3);
      val := Value28(win[p], win[p + 1], win[p + 2], win[p + 3]);
    }

    // ----- data clusters -----

    /** First sector of cluster `c`. */
    ghost function FirstSector(c: nat): nat {
      if c <= 2 then database else FirstSector(c - 1) + csize
    }

    /** All clusters lie on the disk, after the system area. */
    ghost predicate Laid() {
      database > 0 && csize > 0 && FirstSector(nFatent) <= disk.Length
    }

    lemma {:induction false} ClustersApart(c: nat, d: nat)
      requires 2 <= c < d
      ensures FirstSector(c) + csize <= FirstSector(d)
      decreases d
    {
      if c < d - 1 {
        ClustersApart(c, d - 1);
      }
    }

    lemma {:induction false} FirstSectorIs(c: nat)
      requires c >= 2
      ensures FirstSector(c) == database + csize * (c - 2)
      decreases c
    {
      if c > 2 {
        FirstSectorIs(c - 1);
        assert csize * (c - 2) == csize * (c - 1 - 2) + csize;
      }
    }

    /** clst2sect: first sector of a cluster, or 0 for a number out of range. */
    method Clst2Sect(clst: nat) returns (s: nat)
      requires Geometry() && Laid() && clst < 0x1_0000_0000
      ensures s == if 2 <= clst < nFatent then FirstSector(clst) else 0
    {
      var c := (clst - 2) % 0x1_0000_0000;  // unsigned 32-bit difference
      if c >= nFatent - 2 {
        return 0;
      }
      FirstSectorIs(clst);
      s := database + csize * c;
    }

    /** A sector of cluster `c`. */
    ghost predicate InCluster(c: nat, s: nat) {
      FirstSector(c) <= s < FirstSector(c) + csize
    }

    lemma ClusterInData(c: nat, s: nat)
      requires Geometry() && Laid() && 2 <= c < nFatent && InCluster(c, s)
      ensures database <= s < disk.Length
    {
      ClustersApart(c, nFatent);
      if c > 2 { ClustersApart(2, c); }
    }

    /** Writing data sectors leaves the FAT as it is. */
    twostate lemma DataWritten()
      requires old(Valid()) && wflag == old(wflag) && winsect == old(winsect) && win[..] == old(win[..])
      requires img == old(img) && fat == old(fat)
      requires forall s {:trigger disk[s]} :: 0 <= s < database ==> disk[s] == old(disk[s])
      ensures Valid()
    {
      forall i | 0 <= i < |img|
        ensures img[i] == Seen(fatbase + i / 512, i % 512)
      {
        assert i / 512 < fsize;
        assert old(img[i] == Seen(fatbase + i / 512, i % 512));
      }
    }

    // ----- writing an entry -----

    /** put_fat: overwrite one entry; every other entry keeps its value. */
    method PutFat(clst: nat, val: nat) returns (ok: bool)
      requires Valid()
      modifies this`wflag, this`winsect, this`img, this`fat, win, disk
      ensures Valid() && DataKept() && ok == (2 <= clst < nFatent)
      ensures fat == if ok then old(fat)[clst := Masked(fsType, val)] else old(fat)
      ensures if ok then Written(fsType, old(img), clst, val, img) else img == old(img)
      ensures old(Mirrored()) ==> Mirrored()
    {
      if clst < 2 || clst >= nFatent {
        return false;
      }
      ghost var before := img;
      assert Inside(fsType, img, clst);
      match fsType {
        case Fat12 => PutFat12(clst, val);
        case Fat16 => PutFat16(clst, val);
        case Fat32 => PutFat32(clst, val);
      }
      WithEntryIsWritten(fsType, before, clst, val);
      EntriesAfterWrite(before, clst, val);
      fat := fat[clst := Masked(fsType, val)];
      ok := true;
    }

    /** The entries of a table after one was written. */
    lemma EntriesAfterWrite(before: seq<byte>, clst: nat, val: nat)
      requires |before| == |img| && |fat| == nFatent && clst < nFatent && Inside(fsType, before, clst)
      requires img == WithEntry(fsType, before, clst, val)
      requires forall c {:trigger Inside(fsType, before, c)} {:trigger Entry(fsType, before, c)} :: 0 <= c < nFatent ==>
        Inside(fsType, before, c) && fat[c] == Entry(fsType, before, c)
      ensures forall c {:trigger Inside(fsType, img, c)} {:trigger Entry(fsType, img, c)} :: 0 <= c < nFatent ==>
        Inside(fsType, img, c) && fat[clst := Masked(fsType, val)][c] == Entry(fsType, img, c)
    {
      forall c | 0 <= c < nFatent
        ensures Inside(fsType, img, c) && fat[clst := Masked(fsType, val)][c] == Entry(fsType, img, c)
      {
        assert Inside(fsType, before, c);
        EntryAfterWrite(fsType, before, clst, val, c);
      }
    }

    method PutFat12(clst: nat, val: nat)
      requires ValidImage() && Inside(Fat12, img, clst)
      modifies this`wflag, this`winsect, this`img, win, disk
      ensures ValidImage() && DataKept() && img == WithEntry(Fat12, old(img), clst, val)
      ensures old(Mirrored()) ==> Mirrored()
    {
      var bc := clst + clst / 2;
      MoveWindow(fatbase + bc / 512);
      WindowShows(bc);
      StoreByte(bc, First12(win[bc % 512], clst % 2 == 1, val));
      bc := bc + 1;
      MoveWindow(fatbase + bc / 512);
      WindowShows(bc);
      StoreByte(bc, Second12(win[bc % 512], clst % 2 == 1, val));
    }

    method PutFat16(clst: nat, val: nat)
      requires ValidImage() && Inside(Fat16, img, clst)
      modifies this`wflag, this`winsect, this`img, win, disk
      ensures ValidImage() && DataKept() && img == WithEntry(Fat16, old(img), clst, val)
      ensures old(Mirrored()) ==> Mirrored()
    {
      Place16(clst, clst * 2 % 512);
      MoveWindow(fatbase + clst / 256);
      StoreByte(2 * clst, val % 256);
      StoreByte(2 * clst + 1, (val / 256) % 256);
    }

    method PutFat32(clst: nat, val: nat)
      requires ValidImage() && Inside(Fat32, img, clst)
      modifies this`wflag, this`winsect, this`img, win, disk
      ensures ValidImage() && DataKept() && img == WithEntry(Fat32, old(img), clst, val)
      ensures old(Mirrored()) ==> Mirrored()
    {
      Place32(clst, clst * 4 % 512);
      MoveWindow(fatbase + clst / 128);
      WindowShows(4 * clst + 3);
      var top := Top28(win[(4 * clst + 3) % 512], val);
      StoreByte(4 * clst, val % 256);
      StoreByte(4 * clst + 1, (val / 256) % 256);
      StoreByte(4 * clst + 2, (val / 256 / 256) % 256);
      StoreByte(4 * clst + 3, top);
    }
  }

  /** Two-byte entries do not straddle sectors. */
  lemma Place16(clst: nat, p: nat)
    requires p == clst * 2 % 512
    ensures p + 1 < 512 && p == (2 * clst) % 512 && p + 1 == (2 * clst + 1) % 512
    ensures clst / 256 == (2 * clst) / 512 == (2 * clst + 1) / 512
  {
    var q, r := clst / 256, clst % 256;
    SectorSplit(2 * clst, q, 2 * r);
    SectorSplit(2 * clst + 1, q, 2 * r + 1);
  }

  /** Four-byte entries do not straddle sectors. */
  lemma Place32(clst: nat, p: nat)
    requires p == clst * 4 % 512
    ensures p + 3 < 512 && p == (4 * clst) % 512 && p + 1 == (4 * clst + 1) % 512
    ensures p + 2 == (4 * clst + 2) % 512 && p + 3 == (4 * clst + 3) % 512
    ensures clst / 128 == (4 * clst) / 512 == (4 * clst + 1) / 512
    ensures clst / 128 == (4 * clst + 2) / 512 == (4 * clst + 3) / 512
  {
    var q, r := clst / 128, clst % 128;
    SectorSplit(4 * clst, q, 4 * r);
    SectorSplit(4 * clst + 1, q, 4 * r + 1);
    SectorSplit(4 * clst + 2, q, 4 * r + 2);
    SectorSplit(4 * clst + 3, q, 4 * r + 3);
  }
}
