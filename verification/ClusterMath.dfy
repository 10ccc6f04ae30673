/** Positions inside a chain of clusters: a logical sector number split into the cluster it falls in
    and the sector inside that cluster, by repeated subtraction of the cluster size. */
module ClusterMath {
  import opened Words

  /** Index of the cluster that holds logical sector `n`. */
  function Cluster(csize: nat, n: nat): (k: nat)
    requires csize > 0
    ensures k <= n
    decreases n
  {
    if n < csize then 0 else Cluster(csize, n - csize) + 1
  }

  /** Sector inside that cluster. */
  function Offset(csize: nat, n: nat): (j: nat)
    requires csize > 0
    ensures j < csize
    decreases n
  {
    if n < csize then n else Offset(csize, n - csize)
  }

  /** First logical sector of cluster `k`. */
  function Start(csize: nat, k: nat): nat {
    if k == 0 then 0 else Start(csize, k - 1) + csize
  }

  lemma {:induction false} Split(csize: nat, n: nat)
    requires csize > 0
    ensures n == Start(csize, Cluster(csize, n)) + Offset(csize, n)
    decreases n
  {
    if n >= csize {
      Split(csize, n - csize);
    }
  }

  lemma {:induction false} SplitIs(csize: nat, k: nat, j: nat)
    requires csize > 0 && j < csize
    ensures Cluster(csize, Start(csize, k) + j) == k && Offset(csize, Start(csize, k) + j) == j
  {
    if k != 0 {
      SplitIs(csize, k - 1, j);
    }
  }

  /** Sectors that follow inside the same cluster. */
  lemma SameCluster(csize: nat, n: nat, t: nat)
    requires csize > 0 && Offset(csize, n) + t < csize
    ensures Cluster(csize, n + t) == Cluster(csize, n) && Offset(csize, n + t) == Offset(csize, n) + t
  {
    Split(csize, n);
    SplitIs(csize, Cluster(csize, n), Offset(csize, n) + t);
  }

  /** The sector before a cluster boundary is in the previous cluster. */
  lemma Boundary(csize: nat, n: nat)
    requires csize > 0 && n > 0 && Offset(csize, n) == 0
    ensures Cluster(csize, n) == Cluster(csize, n - 1) + 1
  {
    Split(csize, n);
    var k := Cluster(csize, n);
    assert k > 0;
    SplitIs(csize, k - 1, csize - 1);
  }

  /** Away from a boundary the previous sector is in the same cluster. */
  lemma Inner(csize: nat, n: nat)
    requires csize > 0 && Offset(csize, n) > 0
    ensures n > 0 && Cluster(csize, n - 1) == Cluster(csize, n)
  {
    Split(csize, n);
    SplitIs(csize, Cluster(csize, n), Offset(csize, n) - 1);
  }

  lemma {:induction false} ClusterMonotone(csize: nat, m: nat, n: nat)
    requires csize > 0 && m <= n
    ensures Cluster(csize, m) <= Cluster(csize, n)
    decreases n
  {
    if m >= csize {
      ClusterMonotone(csize, m - csize, n - csize);
    }
  }

  lemma SplitInjective(csize: nat, m: nat, n: nat)
    requires csize > 0 && Cluster(csize, m) == Cluster(csize, n) && Offset(csize, m) == Offset(csize, n)
    ensures m == n
  {
    Split(csize, m);
    Split(csize, n);
  }

  /** With a power of two, the mask the code uses gives the sector inside the cluster. */
  lemma MaskIsOffset(csize: nat, e: nat, n: nat)
    requires csize == Pow2(e)
    ensures BitAnd(n, csize - 1) == Offset(csize, n)
  {
    AndMask(n, e);
    LowIsOffset(e, n);
  }

  lemma {:induction false} LowIsOffset(e: nat, n: nat)
    ensures Low(n, e) == Offset(Pow2(e), n)
    decreases n
  {
    if n < Pow2(e) {
      LowSmall(n, e);
    } else {
      LowIsOffset(e, n - Pow2(e));
      LowDrop(n - Pow2(e), e);
    }
  }

  lemma {:induction false} LowSmall(n: nat, e: nat)
    requires n < Pow2(e)
    ensures Low(n, e) == n
  {
    if e != 0 {
      LowSmall(n / 2, e - 1);
    }
  }

  lemma {:induction false} LowDrop(n: nat, e: nat)
    ensures Low(n + Pow2(e), e) == Low(n, e)
  {
    if e != 0 {
      assert (n + Pow2(e)) / 2 == n / 2 + Pow2(e - 1) && (n + Pow2(e)) % 2 == n % 2;
      LowDrop(n / 2, e - 1);
    }
  }

  lemma {:induction false} StartIs(csize: nat, k: nat)
    ensures Start(csize, k) == k * csize
  {
    if k != 0 {
      StartIs(csize, k - 1);
      assert k * csize == (k - 1) * csize + csize;
    }
  }

  lemma {:induction false} StartMonotone(csize: nat, j: nat, k: nat)
    requires j <= k
    ensures Start(csize, j) <= Start(csize, k)
  {
    if j < k {
      StartMonotone(csize, j, k - 1);
    }
  }

  /** Division gives the index of the cluster. */
  lemma DivisionIsCluster(d: nat, x: nat)
    requires d > 0
    ensures x / d == Cluster(d, x)
  {
    Split(d, x);
    StartIs(d, Cluster(d, x));
    RemainderIs(x, d, Cluster(d, x), Offset(d, x));
  }

  lemma {:induction false} PlaceIs(d: nat, x: nat, k: nat, o: nat)
    requires d > 0 && x == d * k + o && o < d
    ensures Cluster(d, x) == k && Offset(d, x) == o
    decreases k
  {
    if k > 0 {
      assert d * k == d * (k - 1) + d;
      PlaceIs(d, x - d, k - 1, o);
    }
  }

  /** Clusters counted in bytes instead of sectors. */
  lemma {:induction false} InBytes(csize: nat, x: nat)
    requires csize > 0
    ensures Cluster(512 * csize, x) == Cluster(csize, x / 512)
    ensures Offset(512 * csize, x) == 512 * Offset(csize, x / 512) + x % 512
    decreases x
  {
    if x >= 512 * csize {
      SectorSplit(x - 512 * csize, x / 512 - csize, x % 512);
      InBytes(csize, x - 512 * csize);
    }
  }

  /** The byte offset at which the cluster of byte `x` starts, as the code computes it. */
  lemma ClusterStart(csize: nat, e: nat, x: nat)
    requires csize == Pow2(e) <= 128 && x < 0x1_0000_0000
    ensures BitAnd(x, 0xFFFF_FFFF - (csize * 512 - 1)) == 512 * Start(csize, Cluster(csize, x / 512)) <= x
    ensures x / (csize * 512) == Cluster(csize, x / 512)
  {
    Bytes(e, 9);
    PowerBelow(e, 32);
    ClearLow(x, e + 9, 32);
    LowIsOffset(e + 9, x);
    InBytes(csize, x);
    Split(csize, x / 512);
    DivisionIsCluster(csize * 512, x);
  }

  lemma {:induction false} Bytes(e: nat, m: nat)
    requires m == 9
    ensures Pow2(e + m) == 512 * Pow2(e)
  {
    if e == 0 {
      assert Pow2(8) == 256;
    } else {
      Bytes(e - 1, m);
    }
  }

  lemma PowerBelow(e: nat, m: nat)
    requires Pow2(e) <= 128 && m == 32
    ensures e + 9 <= m && Pow2(m) == 0x1_0000_0000
  {
    if e > 7 { Pow2Monotone(8, e); }
    Pow2At(8);
    Pow2At(m);
  }

  /** Masking out the low bits of a word. */
  lemma {:induction false} ClearLow(x: nat, e: nat, w: nat)
    requires e <= w && x < Pow2(w)
    ensures Pow2(e) <= Pow2(w) && BitAnd(x, Pow2(w) - Pow2(e)) == x - Low(x, e)
  {
    Pow2Monotone(e, w);
    if e == 0 {
      AndMask(x, w);
      LowSmall(x, w);
    } else {
      ClearLow(x / 2, e - 1, w - 1);
      assert (Pow2(w) - Pow2(e)) / 2 == Pow2(w - 1) - Pow2(e - 1);
      AndEven(x, Pow2(w - 1) - Pow2(e - 1));
    }
  }

  lemma AndEven(x: nat, h: nat)
    ensures BitAnd(x, 2 * h) == 2 * BitAnd(x / 2, h)
  {
  }
}
