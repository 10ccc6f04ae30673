/** The cluster link map of fast seek: runs of consecutive clusters, built from a chain and used to
    find the cluster of an offset without the FAT. */
module FatLinkMap {
  import opened FatVolume
  import opened FatChains

  /** Consecutive clusters `top`, `top + 1`, ... */
  datatype Fragment = Fragment(len: nat, top: nat)

  function Consecutive(top: nat, len: nat): (r: seq<nat>)
    ensures |r| == len && forall i {:trigger r[i]} :: 0 <= i < len ==> r[i] == top + i
  {
    if len == 0 then [] else Consecutive(top, len - 1) + [top + len - 1]
  }

  /** The clusters that a list of fragments stands for. */
  function Expand(frags: seq<Fragment>): seq<nat> {
    if |frags| == 0 then []
    else Expand(frags[..|frags| - 1]) + Consecutive(frags[|frags| - 1].top, frags[|frags| - 1].len)
  }

  /** Number of maximal runs of consecutive clusters in a chain. */
  function RunCount(chain: seq<nat>): nat {
    if |chain| == 0 then 0
    else RunCount(chain[..|chain| - 1]) + if Broken(chain, |chain| - 1) then 1 else 0
  }

  /** A run starts at position `i`. */
  predicate Broken(chain: seq<nat>, i: nat)
    requires i < |chain|
  {
    i == 0 || chain[i] != chain[i - 1] + 1
  }

  lemma {:induction false} ExpandPrefix(frags: seq<Fragment>, j: nat)
    requires j <= |frags|
    ensures Expand(frags[..j]) <= Expand(frags)
    decreases |frags|
  {
    if j == |frags| {
      assert frags[..j] == frags;
    } else {
      var rest := frags[..|frags| - 1];
      assert rest[..j] == frags[..j];
      ExpandPrefix(rest, j);
    }
  }

  lemma ExpandAppend(frags: seq<Fragment>, f: Fragment)
    ensures Expand(frags + [f]) == Expand(frags) + Consecutive(f.top, f.len)
  {
    assert (frags + [f])[..|frags|] == frags;
  }

  lemma {:induction false} RunCountPrefix(chain: seq<nat>, a: nat, b: nat)
    requires a < b <= |chain| && Broken(chain, a)
    requires forall i :: a < i < b ==> !Broken(chain, i)
    ensures RunCount(chain[..b]) == RunCount(chain[..a]) + 1
    decreases b
  {
    var head := chain[..b];
    assert head[..b - 1] == chain[..b - 1];
    assert Broken(head, b - 1) == Broken(chain, b - 1);
    if a < b - 1 {
      RunCountPrefix(chain, a, b - 1);
    }
  }

  /** The fragments as they are stored from item 1 on. */
  ghost predicate Stored(tbl: array<nat>, frags: seq<Fragment>)
    reads tbl
  {
    && 2 * |frags| < tbl.Length
    && forall j {:trigger frags[j]} :: 0 <= j < |frags| ==>
         tbl[1 + 2 * j] == frags[j].len && tbl[2 + 2 * j] == frags[j].top
  }

  /** A finished map: no empty fragment, and a zero after the last. */
  ghost predicate IsMap(tbl: array<nat>, frags: seq<Fragment>)
    reads tbl
  {
    && Stored(tbl, frags) && 2 * |frags| + 1 < tbl.Length && tbl[2 * |frags| + 1] == 0
    && forall j {:trigger frags[j]} :: 0 <= j < |frags| ==> frags[j].len > 0
  }

  /** The loop of clmt_clust, for cluster number `k` of the file. */
  method ClmtWalk(tbl: array<nat>, ghost frags: seq<Fragment>, k: nat) returns (clst: nat)
    requires IsMap(tbl, frags)
    ensures clst == if k < |Expand(frags)| then Expand(frags)[k] else 0
  {
    var t, cl: nat := 1, k;
    ghost var j := 0;
    while true
      invariant j <= |frags| && t == 2 * j + 1 && k == |Expand(frags[..j])| + cl
      decreases |frags| - j
    {
      if j < |frags| {
        assert frags[j].len == tbl[t] > 0;
      }
      var ncl := tbl[t];
      if ncl == 0 {
        assert frags[..j] == frags;
        return 0;
      }
      t := t + 1;
      ExpandNext(frags, j);
      if cl < ncl {
        return cl + tbl[t];
      }
      cl, t := cl - ncl, t + 1;
      j := j + 1;
    }
  }

  /** Where fragment `j` lies in the expansion. */
  lemma ExpandNext(frags: seq<Fragment>, j: nat)
    requires j < |frags|
    ensures var before, f := |Expand(frags[..j])|, frags[j];
      && |Expand(frags[..j + 1])| == before + f.len <= |Expand(frags)|
      && forall i {:trigger Expand(frags)[i]} :: before <= i < before + f.len ==> Expand(frags)[i] == f.top + (i - before)
  {
    assert frags[..j + 1] == frags[..j] + [frags[j]];
    ExpandAppend(frags[..j], frags[j]);
    ExpandPrefix(frags, j + 1);
  }

  /** clmt_clust: the cluster of an offset, or 0 beyond the end of the chain. */
  method ClmtClust(tbl: array<nat>, ghost frags: seq<Fragment>, csize: nat, ofs: nat) returns (clst: nat)
    requires IsMap(tbl, frags) && csize > 0
    ensures clst == if ofs / 512 / csize < |Expand(frags)| then Expand(frags)[ofs / 512 / csize] else 0
  {
    clst := ClmtWalk(tbl, frags, ofs / 512 / csize);
  }

  // ----- building the map -----

  datatype Result = Ok | NotEnoughCore | IntErr

  /** The end mark of the chain reads as the successor of its last cluster. */
  ghost predicate EndAmbiguous(fat: seq<nat>, chain: seq<nat>) {
    |chain| > 0 && chain[|chain| - 1] == |fat| - 1 && |fat| > 0 && fat[|fat| - 1] == |fat|
  }

  /** Every other reader of the table takes entry 3 of this one as an end mark. */
  lemma AmbiguousEnd()
    ensures IsChain([0xFF8, 0xFFF, 3], [2]) && EndAmbiguous([0xFF8, 0xFFF, 3], [2])
  {
  }

  /** Position `i` of the chain, `cl` the cluster there or the end mark after the last. */
  ghost predicate AtLink(fat: seq<nat>, chain: seq<nat>, i: nat, cl: nat) {
    IsChain(fat, chain) && i <= |chain| && cl == if i < |chain| then chain[i] else fat[chain[|chain| - 1]]
  }

  lemma NextLink(fat: seq<nat>, chain: seq<nat>, i: nat)
    requires IsChain(fat, chain) && i < |chain|
    ensures AtLink(fat, chain, i + 1, fat[chain[i]]) && fat[chain[i]] >= 2
  {
    if i + 1 < |chain| {
      assert Linked(fat, chain, i);
    }
  }

  /** The inner loop: one fragment from position `a` on. It runs past the end of the chain, and
      into an error, exactly if the end mark looks like the next cluster. */
  method GetFragment(v: Volume, tcl: nat, ghost chain: seq<nat>, ghost a: nat)
    returns (ok: bool, cl: nat, ncl: nat)
    requires v.Valid() && AtLink(v.fat, chain, a, tcl) && a < |chain|
    modifies v`wflag, v`winsect, v.win, v.disk
    ensures v.Valid() && v.FatKept()
    ensures !ok ==> EndAmbiguous(v.fat, chain)
    ensures ok ==> ncl > 0 && a + ncl <= |chain| && AtLink(v.fat, chain, a + ncl, cl)
    ensures ok ==> chain[a..a + ncl] == Consecutive(tcl, ncl)
    ensures ok ==> if a + ncl < |chain| then Broken(chain, a + ncl) else !EndAmbiguous(v.fat, chain)
  {
    cl, ncl := tcl, 0;
    while true
      invariant v.Valid() && v.FatKept()
      invariant a + ncl <= |chain| && AtLink(v.fat, chain, a + ncl, cl) && cl == tcl + ncl
      invariant forall i {:trigger chain[i]} :: a <= i < a + ncl ==> chain[i] == tcl + i - a
      invariant a + ncl == |chain| ==> ncl > 0 && EndAmbiguous(v.fat, chain)
      decreases |chain| - a - ncl
    {
      var pcl := cl;
      if a + ncl < |chain| {
        NextLink(v.fat, chain, a + ncl);
      }
      ncl := ncl + 1;
      cl := v.GetFat(cl);
      if cl <= 1 {
        return false, cl, ncl;
      }
      if cl != pcl + 1 {
        return true, cl, ncl;
      }
    }
  }

  /** The first `i` clusters of the chain as maximal fragments. */
  ghost predicate Covers(chain: seq<nat>, i: nat, frags: seq<Fragment>) {
    && i <= |chain| && Expand(frags) == chain[..i] && |frags| == RunCount(chain[..i])
    && (forall j {:trigger frags[j]} :: 0 <= j < |frags| ==> frags[j].len > 0)
    && (i < |chain| ==> Broken(chain, i))
  }

  lemma CoversMore(chain: seq<nat>, i: nat, frags: seq<Fragment>, f: Fragment)
    requires Covers(chain, i, frags) && f.len > 0 && i + f.len <= |chain|
    requires chain[i..i + f.len] == Consecutive(f.top, f.len)
    requires i + f.len < |chain| ==> Broken(chain, i + f.len)
    ensures Covers(chain, i + f.len, frags + [f])
  {
    ExpandAppend(frags, f);
    assert chain[..i + f.len] == chain[..i] + chain[i..i + f.len];
    forall j | i < j < i + f.len
      ensures !Broken(chain, j)
    {
      assert chain[j] == chain[i..i + f.len][j - i] && chain[j - 1] == chain[i..i + f.len][j - 1 - i];
    }
    RunCountPrefix(chain, i, i + f.len);
  }

  /** The fragments are in the table while they fit, `t` behind them. */
  ghost predicate Filled(tbl: array<nat>, frags: seq<Fragment>, t: nat, ulen: nat, tlen: nat)
    reads tbl
  {
    && ulen == 2 + 2 * |frags| && tlen <= tbl.Length
    && (ulen <= tlen ==> Stored(tbl, frags) && t == ulen - 1)
  }

  /** Store a fragment if it fits. */
  method StoreFragment(tbl: array<nat>, ghost frags: seq<Fragment>, t: nat, ulen: nat, tlen: nat, ncl: nat, tcl: nat)
    returns (t': nat)
    requires tbl.Length > 0 && ulen >= 2 && Filled(tbl, frags, t, ulen - 2, tlen)
    modifies tbl
    ensures Filled(tbl, frags + [Fragment(ncl, tcl)], t', ulen, tlen) && tbl[0] == old(tbl[0])
  {
    t' := t;
    if ulen <= tlen {
      tbl[t'], tbl[t' + 1] := ncl, tcl;
      t' := t' + 2;
    }
  }

  /** One round of the outer loop. */
  method MapFragment(v: Volume, tbl: array<nat>, ghost chain: seq<nat>, ghost i: nat, ghost frags: seq<Fragment>,
                     tcl: nat, t: nat, ulen: nat, tlen: nat)
    returns (ok: bool, cl: nat, t': nat, ghost f: Fragment)
    requires v.Valid() && i < |chain| && AtLink(v.fat, chain, i, tcl) && tbl.Length > 0
    requires ulen >= 2 && Covers(chain, i, frags) && Filled(tbl, frags, t, ulen - 2, tlen)
    modifies v`wflag, v`winsect, v.win, v.disk, tbl
    ensures v.Valid() && v.FatKept() && tbl[0] == old(tbl[0])
    ensures !ok ==> EndAmbiguous(v.fat, chain)
    ensures ok ==> f.len > 0 && i + f.len <= |chain| && AtLink(v.fat, chain, i + f.len, cl)
    ensures ok ==> Covers(chain, i + f.len, frags + [f]) && Filled(tbl, frags + [f], t', ulen, tlen)
    ensures ok && i + f.len == |chain| ==> !EndAmbiguous(v.fat, chain)
  {
    var ncl;
    t' := t;
    ok, cl, ncl := GetFragment(v, tcl, chain, i);
    f := Fragment(ncl, tcl);
    if ok {
      t' := StoreFragment(tbl, frags, t, ulen, tlen, ncl, tcl);
      CoversMore(chain, i, frags, f);
    }
  }

  /** The outer loop. */
  method MapChain(v: Volume, sclust: nat, tbl: array<nat>, tlen: nat, ghost chain: seq<nat>)
    returns (ok: bool, ulen: nat, t: nat, ghost frags: seq<Fragment>)
    requires v.Valid() && 0 < tbl.Length && tlen <= tbl.Length && IsChain(v.fat, chain) && chain[0] == sclust
    modifies v`wflag, v`winsect, v.win, v.disk, tbl
    ensures v.Valid() && v.FatKept() && tbl[0] == old(tbl[0])
    ensures ok == !EndAmbiguous(v.fat, chain)
    ensures ok ==> Covers(chain, |chain|, frags) && Filled(tbl, frags, t, ulen, tlen)
  {
    var cl: nat := sclust;
    ghost var i: nat, f := 0, Fragment(0, 0);
    ulen, t, frags := 2, 1, [];
    while true
      invariant v.Valid() && v.FatKept() && i < |chain| && AtLink(v.fat, chain, i, cl) && tbl[0] == old(tbl[0])
      invariant Covers(chain, i, frags) && Filled(tbl, frags, t, ulen, tlen)
      decreases |chain| - i
    {
      ulen := ulen + 2;
      ok, cl, t, f := MapFragment(v, tbl, chain, i, frags, cl, t, ulen, tlen);
      if !ok {
        return;
      }
      i, frags := i + f.len, frags + [f];
      if cl >= v.nFatent {
        return;
      }
    }
  }

  /** f_lseek with CREATE_LINKMAP, on a file whose clusters are `chain`. The table starts with its
      size and needs two items for each run of consecutive clusters and two more. */
  method CreateLinkMap(v: Volume, sclust: nat, tbl: array<nat>, ghost chain: seq<nat>)
    returns (res: Result, ghost frags: seq<Fragment>)
    requires v.Valid() && tbl.Length > 0 && tbl[0] <= tbl.Length
    requires if sclust == 0 then chain == [] else IsChain(v.fat, chain) && chain[0] == sclust
    modifies v`wflag, v`winsect, v.win, v.disk, tbl
    ensures v.Valid() && v.FatKept()
    ensures res == IntErr <==> EndAmbiguous(v.fat, chain)
    ensures res != IntErr ==> tbl[0] == 2 + 2 * RunCount(chain) && (res == Ok <==> tbl[0] <= old(tbl[0]))
    ensures res == Ok ==> IsMap(tbl, frags) && Expand(frags) == chain
  {
    var tlen, ulen, t := tbl[0], 2, 1;
    frags := [];
    if sclust != 0 {
      var ok;
      ok, ulen, t, frags := MapChain(v, sclust, tbl, tlen, chain);
      if !ok {
        return IntErr, frags;
      }
    }
    assert chain[..|chain|] == chain;
    res := Finish(tbl, frags, t, ulen, tlen);
  }

  /** Store the size used and the zero at the end. */
  method Finish(tbl: array<nat>, ghost frags: seq<Fragment>, t: nat, ulen: nat, tlen: nat) returns (res: Result)
    requires tbl.Length > 0 && Filled(tbl, frags, t, ulen, tlen)
    requires forall j {:trigger frags[j]} :: 0 <= j < |frags| ==> frags[j].len > 0
    modifies tbl
    ensures tbl[0] == ulen && (if ulen <= tlen then res == Ok && IsMap(tbl, frags) else res == NotEnoughCore)
  {
    tbl[0] := ulen;
    if ulen <= tlen {
      tbl[t] := 0;
      res := Ok;
    } else {
      res := NotEnoughCore;
    }
  }

  /** Build the map, then look an offset up: the cluster that `ofs / 512 / csize` links lead to. */
  method LookupAfterBuild(v: Volume, sclust: nat, tbl: array<nat>, ghost chain: seq<nat>, csize: nat, ofs: nat)
    returns (res: Result, clst: nat)
    requires v.Valid() && tbl.Length > 0 && tbl[0] <= tbl.Length && csize > 0
    requires if sclust == 0 then chain == [] else IsChain(v.fat, chain) && chain[0] == sclust
    modifies v`wflag, v`winsect, v.win, v.disk, tbl
    ensures res == Ok ==> clst == if ofs / 512 / csize < |chain| then chain[ofs / 512 / csize] else 0
    ensures res == Ok && ofs / 512 / csize < |chain| ==> clst == After(v.fat, sclust, ofs / 512 / csize)
  {
    ghost var frags;
    clst := 0;
    res, frags := CreateLinkMap(v, sclust, tbl, chain);
    if res == Ok {
      clst := ClmtClust(tbl, frags, csize, ofs);
      if ofs / 512 / csize < |chain| {
        AfterInChain(v.fat, chain, ofs / 512 / csize);
      }
    }
  }

  /** The cluster `n` links after `c`. */
  function After(fat: seq<nat>, c: nat, n: nat): nat {
    if n == 0 then c else
      var p := After(fat, c, n - 1);
      if InRange(fat, p) then fat[p] else 1
  }

  lemma {:induction false} AfterInChain(fat: seq<nat>, chain: seq<nat>, n: nat)
    requires IsChain(fat, chain) && n < |chain|
    ensures After(fat, chain[0], n) == chain[n]
  {
    if n > 0 {
      AfterInChain(fat, chain, n - 1);
      assert Linked(fat, chain, n - 1);
    }
  }
}
