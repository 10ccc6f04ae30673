/** Cluster chains in the entries of a FAT, and what allocating and releasing clusters does to them. */
module FatChains {

  /** Clusters 2..n-1 that are free. */
  function FreeBelow(fat: seq<nat>, n: nat): (f: nat)
    requires n <= |fat|
    ensures f <= if n < 2 then 0 else n - 2
  {
    if n <= 2 then 0 else FreeBelow(fat, n - 1) + if fat[n - 1] == 0 then 1 else 0
  }

  function FreeCount(fat: seq<nat>): nat {
    FreeBelow(fat, |fat|)
  }

  predicate InRange(fat: seq<nat>, c: int) {
    2 <= c < |fat|
  }

  lemma {:induction false} FreeBelowUpdate(fat: seq<nat>, c: nat, v: nat, n: nat)
    requires InRange(fat, c) && n <= |fat|
    ensures FreeBelow(fat[c := v], n) ==
      FreeBelow(fat, n) + if c < n then (if v == 0 then 1 else 0) - (if fat[c] == 0 then 1 else 0) else 0
  {
    if n > 2 {
      FreeBelowUpdate(fat, c, v, n - 1);
    }
  }

  lemma {:induction false} FreeBelowPositive(fat: seq<nat>, c: nat, n: nat)
    requires InRange(fat, c) && fat[c] == 0 && c < n <= |fat|
    ensures FreeBelow(fat, n) > 0
  {
    if c < n - 1 {
      FreeBelowPositive(fat, c, n - 1);
    }
  }

  // ----- chains -----

  ghost predicate Distinct(s: seq<nat>) {
    forall i, j :: 0 <= i < j < |s| ==> s[i] != s[j]
  }

  /** The entry of cluster number `i` of the chain names cluster number `i + 1`. */
  ghost predicate Linked(fat: seq<nat>, chain: seq<nat>, i: nat)
    requires i + 1 < |chain| && InRange(fat, chain[i])
  {
    fat[chain[i]] == chain[i + 1]
  }

  /** Each cluster's entry names the next one; the last holds an end mark past all clusters. */
  ghost predicate IsChain(fat: seq<nat>, chain: seq<nat>) {
    && |chain| > 0
    && Distinct(chain)
    && (forall i :: 0 <= i < |chain| ==> InRange(fat, chain[i]))
    && (forall i {:trigger Linked(fat, chain, i)} :: 0 <= i < |chain| - 1 ==> Linked(fat, chain, i))
    && fat[chain[|chain| - 1]] >= |fat|
  }

  /** A chain survives any change outside it. */
  lemma ChainKept(fat: seq<nat>, fat': seq<nat>, chain: seq<nat>)
    requires IsChain(fat, chain) && |fat'| == |fat|
    requires forall i :: 0 <= i < |chain| ==> fat'[chain[i]] == fat[chain[i]]
    ensures IsChain(fat', chain)
  {
    forall i | 0 <= i < |chain| - 1
      ensures Linked(fat', chain, i)
    {
      assert Linked(fat, chain, i);
    }
  }

  /** A free cluster marked as an end is a chain of its own. */
  lemma NewChain(fat: seq<nat>, ncl: nat, eoc: nat)
    requires InRange(fat, ncl) && eoc >= |fat|
    ensures IsChain(fat[ncl := eoc], [ncl])
  {
  }

  lemma FreeNotInChain(fat: seq<nat>, chain: seq<nat>, ncl: nat)
    requires IsChain(fat, chain) && InRange(fat, ncl) && fat[ncl] == 0
    ensures ncl !in chain
  {
    forall i | 0 <= i < |chain|
      ensures chain[i] != ncl
    {
      if i < |chain| - 1 {
        assert Linked(fat, chain, i);
      }
    }
  }

  /** Linking a free cluster to the tail of a chain lengthens the chain by it. */
  lemma StretchChain(fat: seq<nat>, chain: seq<nat>, ncl: nat, eoc: nat)
    requires IsChain(fat, chain) && InRange(fat, ncl) && fat[ncl] == 0 && eoc >= |fat|
    ensures ncl !in chain
    ensures IsChain(fat[ncl := eoc][chain[|chain| - 1] := ncl], chain + [ncl])
  {
    FreeNotInChain(fat, chain, ncl);
    var last := |chain| - 1;
    var fat', chain' := fat[ncl := eoc][chain[last] := ncl], chain + [ncl];
    forall i | 0 <= i < |chain'| - 1
      ensures Linked(fat', chain', i)
    {
      if i < last {
        assert Linked(fat, chain, i);
      }
    }
  }

  // ----- releasing -----

  /** remove_chain's loop on the entries: zero the cluster, go on with the value it held. */
  function Release(fat: seq<nat>, clst: nat): (r: seq<nat>)
    ensures |r| == |fat|
    decreases |fat| - FreeCount(fat)
  {
    if !InRange(fat, clst) || fat[clst] <= 1 then fat
    else
      FreeBelowUpdate(fat, clst, 0, |fat|);
      Release(fat[clst := 0], fat[clst])
  }

  /** Whether that loop ends without meeting the reserved value 1. */
  predicate ReleaseOk(fat: seq<nat>, clst: nat)
    decreases |fat| - FreeCount(fat)
  {
    if !InRange(fat, clst) || fat[clst] == 0 then true
    else if fat[clst] == 1 then false
    else
      FreeBelowUpdate(fat, clst, 0, |fat|);
      ReleaseOk(fat[clst := 0], fat[clst])
  }

  /** Zero the entries of a set of clusters. */
  function Zeroed(fat: seq<nat>, chain: seq<nat>): (r: seq<nat>) {
    seq(|fat|, c requires 0 <= c < |fat| => if c in chain then 0 else fat[c])
  }

  /** On a well-formed chain, exactly its clusters are freed. */
  lemma {:induction false} ReleaseChain(fat: seq<nat>, chain: seq<nat>)
    requires IsChain(fat, chain)
    ensures Release(fat, chain[0]) == Zeroed(fat, chain) && ReleaseOk(fat, chain[0])
    decreases |chain|
  {
    var c := chain[0];
    var fat' := fat[c := 0];
    if |chain| == 1 {
      assert Release(fat', fat[c]) == fat' && ReleaseOk(fat', fat[c]);
      assert Zeroed(fat, chain) == fat';
    } else {
      var rest := chain[1..];
      assert Linked(fat, chain, 0);
      ChainTail(fat, chain);
      ChainKept(fat, fat', rest);
      ReleaseChain(fat', rest);
      assert Zeroed(fat', rest) == Zeroed(fat, chain) by {
        assert forall x :: x in chain <==> x == c || x in rest;
      }
    }
  }

  lemma ChainTail(fat: seq<nat>, chain: seq<nat>)
    requires IsChain(fat, chain) && |chain| > 1
    ensures IsChain(fat, chain[1..]) && chain[0] !in chain[1..]
  {
    ChainSuffix(fat, chain, 1);
  }

  lemma ChainSuffix(fat: seq<nat>, chain: seq<nat>, k: nat)
    requires IsChain(fat, chain) && k < |chain|
    ensures IsChain(fat, chain[k..])
  {
    var rest := chain[k..];
    forall i | 0 <= i < |rest| - 1
      ensures Linked(fat, rest, i)
    {
      assert Linked(fat, chain, k + i);
    }
  }

  /** Cutting a chain: the cluster before the cut gets an end mark, the rest is freed. */
  lemma CutChain(fat: seq<nat>, chain: seq<nat>, k: nat, eoc: nat)
    requires IsChain(fat, chain) && 0 < k < |chain| && eoc >= |fat|
    ensures var fat' := fat[chain[k - 1] := eoc];
      && Release(fat', chain[k]) == Zeroed(fat', chain[k..]) && ReleaseOk(fat', chain[k])
      && IsChain(Zeroed(fat', chain[k..]), chain[..k])
  {
    var fat' := fat[chain[k - 1] := eoc];
    var rest := chain[k..];
    ChainSuffix(fat, chain, k);
    ChainKept(fat, fat', rest);
    ReleaseChain(fat', rest);
    CutPrefix(fat, chain, k, eoc);
  }

  lemma CutPrefix(fat: seq<nat>, chain: seq<nat>, k: nat, eoc: nat)
    requires IsChain(fat, chain) && 0 < k < |chain| && eoc >= |fat|
    ensures IsChain(Zeroed(fat[chain[k - 1] := eoc], chain[k..]), chain[..k])
  {
    var head, rest := chain[..k], chain[k..];
    var cut := Zeroed(fat[chain[k - 1] := eoc], rest);
    forall i | 0 <= i < k
      ensures head[i] !in rest
    {
    }
    forall i | 0 <= i < k - 1
      ensures Linked(cut, head, i)
    {
      assert Linked(fat, chain, i);
    }
  }

  lemma {:induction false} ZeroedCount(fat: seq<nat>, chain: seq<nat>)
    requires Distinct(chain) && forall c :: c in chain ==> InRange(fat, c) && fat[c] != 0
    ensures FreeCount(Zeroed(fat, chain)) == FreeCount(fat) + |chain|
    decreases |chain|
  {
    if |chain| == 0 {
      assert Zeroed(fat, chain) == fat;
    } else {
      var c, rest := chain[0], chain[1..];
      assert c in chain;
      var fat' := fat[c := 0];
      FreeBelowUpdate(fat, c, 0, |fat|);
      forall x | x in rest
        ensures InRange(fat', x) && fat'[x] != 0
      {
        assert x in chain && x != c;
      }
      ZeroedCount(fat', rest);
      assert forall x :: x in chain <==> x == c || x in rest;
      assert Zeroed(fat', rest) == Zeroed(fat, chain);
    }
  }

  // ----- the whole table -----

  ghost predicate Disjoint(a: seq<nat>, b: seq<nat>) {
    forall x :: x in a ==> x !in b
  }

  ghost predicate AllChains(fat: seq<nat>, chains: seq<seq<nat>>) {
    forall k {:trigger IsChain(fat, chains[k])} :: 0 <= k < |chains| ==> IsChain(fat, chains[k])
  }

  ghost predicate AllDisjoint(chains: seq<seq<nat>>) {
    forall j, k {:trigger Disjoint(chains[j], chains[k])} ::
      0 <= j < |chains| && 0 <= k < |chains| && j != k ==> Disjoint(chains[j], chains[k])
  }

  /** Cluster `c` belongs to one of the chains. */
  ghost predicate Covered(chains: seq<seq<nat>>, c: int) {
    exists k :: 0 <= k < |chains| && c in chains[k]
  }

  /** The table is a set of disjoint acyclic chains and free clusters. */
  ghost predicate Partition(fat: seq<nat>, chains: seq<seq<nat>>) {
    && AllChains(fat, chains)
    && AllDisjoint(chains)
    && forall c {:trigger Covered(chains, c)} :: InRange(fat, c) && fat[c] != 0 ==> Covered(chains, c)
  }

  /** One use of create_chain on no chain or a tail, or of remove_chain on a chain or a suffix. */
  datatype Step = Create(ncl: nat) | Extend(k: nat, ncl: nat) | Drop(k: nat) | Cut(k: nat, m: nat)

  ghost predicate Enabled(fat: seq<nat>, chains: seq<seq<nat>>, step: Step) {
    match step
    case Create(ncl) => InRange(fat, ncl) && fat[ncl] == 0
    case Extend(k, ncl) => k < |chains| && chains[k] != [] && InRange(fat, ncl) && fat[ncl] == 0
    case Drop(k) => k < |chains| && chains[k] != []
    case Cut(k, m) => k < |chains| && 0 < m < |chains[k]|
  }

  function Last(chain: seq<nat>): nat
    requires |chain| > 0
  {
    chain[|chain| - 1]
  }

  ghost function StepFat(fat: seq<nat>, chains: seq<seq<nat>>, step: Step, eoc: nat): seq<nat>
    requires Partition(fat, chains) && Enabled(fat, chains, step)
  {
    match step
    case Create(ncl) => fat[ncl := eoc]
    case Extend(k, ncl) => assert IsChain(fat, chains[k]); fat[ncl := eoc][Last(chains[k]) := ncl]
    case Drop(k) => Release(fat, chains[k][0])
    case Cut(k, m) => assert IsChain(fat, chains[k]); Release(fat[chains[k][m - 1] := eoc], chains[k][m])
  }

  ghost function StepChains(chains: seq<seq<nat>>, step: Step): seq<seq<nat>>
    requires step.Extend? || step.Drop? || step.Cut? ==> step.k < |chains|
    requires step.Cut? ==> step.m <= |chains[step.k]|
  {
    match step
    case Create(ncl) => chains + [[ncl]]
    case Extend(k, ncl) => chains[k := chains[k] + [ncl]]
    case Drop(k) => chains[..k] + chains[k + 1..]
    case Cut(k, m) => chains[k := chains[k][..m]]
  }

  /** A cluster in use that is not on the chain a step works on. */
  ghost predicate Elsewhere(fat: seq<nat>, chains: seq<seq<nat>>, step: Step, c: nat)
    requires InRange(fat, c)
  {
    fat[c] != 0 && (step.Create? || (step.k < |chains| && c !in chains[step.k]))
  }

  lemma StepKeepsOthers(fat: seq<nat>, chains: seq<seq<nat>>, step: Step, eoc: nat)
    requires Partition(fat, chains) && Enabled(fat, chains, step) && eoc >= |fat|
    ensures |StepFat(fat, chains, step, eoc)| == |fat|
    ensures forall c {:trigger fat[c]} :: InRange(fat, c) && Elsewhere(fat, chains, step, c) ==>
      StepFat(fat, chains, step, eoc)[c] == fat[c]
  {
    if !step.Create? {
      assert IsChain(fat, chains[step.k]);
    }
    match step
    case Create(_) =>
    case Extend(k, _) => assert Last(chains[k]) in chains[k];
    case Drop(k) => ReleaseChain(fat, chains[k]);
    case Cut(k, m) =>
      CutChain(fat, chains[k], m, eoc);
      assert chains[k][m - 1] in chains[k];
      assert forall c :: c in chains[k][m..] ==> c in chains[k];
  }

  /** Each step keeps the partition, and changes no entry of another chain. */
  lemma StepKeepsPartition(fat: seq<nat>, chains: seq<seq<nat>>, step: Step, eoc: nat)
    requires Partition(fat, chains) && Enabled(fat, chains, step) && eoc >= |fat|
    ensures Partition(StepFat(fat, chains, step, eoc), StepChains(chains, step))
    ensures |StepFat(fat, chains, step, eoc)| == |fat|
    ensures forall c {:trigger fat[c]} :: InRange(fat, c) && Elsewhere(fat, chains, step, c) ==>
      StepFat(fat, chains, step, eoc)[c] == fat[c]
  {
    if !step.Create? {
      assert IsChain(fat, chains[step.k]);
    }
    StepKeepsOthers(fat, chains, step, eoc);
    match step
    case Create(ncl) => CreateKeeps(fat, chains, ncl, eoc);
    case Extend(k, ncl) => ExtendKeeps(fat, chains, k, ncl, eoc);
    case Drop(k) => DropKeeps(fat, chains, k);
    case Cut(k, m) => CutKeeps(fat, chains, k, m, eoc);
  }

  lemma CreateKeeps(fat: seq<nat>, chains: seq<seq<nat>>, ncl: nat, eoc: nat)
    requires Partition(fat, chains) && InRange(fat, ncl) && fat[ncl] == 0 && eoc >= |fat|
    ensures Partition(fat[ncl := eoc], chains + [[ncl]])
  {
    var fat', chains' := fat[ncl := eoc], chains + [[ncl]];
    NewChain(fat, ncl, eoc);
    forall k | 0 <= k < |chains|
      ensures ncl !in chains[k] && IsChain(fat', chains[k])
    {
      assert IsChain(fat, chains[k]);
      FreeNotInChain(fat, chains[k], ncl);
      ChainKept(fat, fat', chains[k]);
    }
    forall j, k | 0 <= j < |chains'| && 0 <= k < |chains'| && j != k
      ensures Disjoint(chains'[j], chains'[k])
    {
      if j < |chains| && k < |chains| {
        assert Disjoint(chains[j], chains[k]);
      }
    }
    forall c | InRange(fat', c) && fat'[c] != 0
      ensures Covered(chains', c)
    {
      if c == ncl {
        assert c in chains'[|chains|];
      } else {
        assert Covered(chains, c);
        CoveredStill(chains, chains', c);
      }
    }
  }

  lemma CoveredStill(chains: seq<seq<nat>>, chains': seq<seq<nat>>, c: int)
    requires Covered(chains, c) && |chains| <= |chains'|
    requires forall k :: 0 <= k < |chains| ==> chains[k] <= chains'[k]
    ensures Covered(chains', c)
  {
    var k :| 0 <= k < |chains| && c in chains[k];
    assert c in chains'[k];
  }

  /** Chains other than number `k` survive a change inside it or of free clusters. */
  lemma OthersKept(fat: seq<nat>, fat': seq<nat>, chains: seq<seq<nat>>, k: nat, j: nat)
    requires Partition(fat, chains) && k < |chains| && j < |chains| && j != k && |fat'| == |fat|
    requires forall c :: InRange(fat, c) && fat[c] != 0 && c !in chains[k] ==> fat'[c] == fat[c]
    ensures IsChain(fat', chains[j])
  {
    assert Disjoint(chains[j], chains[k]) && IsChain(fat, chains[j]);
    forall i | 0 <= i < |chains[j]|
      ensures fat'[chains[j][i]] == fat[chains[j][i]]
    {
      if fat[chains[j][i]] == 0 {
        FreeNotInChain(fat, chains[j], chains[j][i]);
      }
    }
    ChainKept(fat, fat', chains[j]);
  }

  /** Replacing chain number `k` by one made of its own clusters and free ones. */
  lemma ReplaceKeeps(fat: seq<nat>, fat': seq<nat>, chains: seq<seq<nat>>, k: nat, chain: seq<nat>)
    requires Partition(fat, chains) && k < |chains| && |fat'| == |fat| && IsChain(fat', chain)
    requires forall c :: c in chain ==> c in chains[k] || fat[c] == 0
    requires forall c :: InRange(fat, c) && fat[c] != 0 && c !in chains[k] ==> fat'[c] == fat[c]
    requires forall c :: InRange(fat, c) && (fat[c] == 0 || c in chains[k]) && fat'[c] != 0 ==> c in chain
    ensures Partition(fat', chains[k := chain])
  {
    var chains' := chains[k := chain];
    forall j | 0 <= j < |chains'|
      ensures IsChain(fat', chains'[j])
    {
      if j != k { OthersKept(fat, fat', chains, k, j); }
    }
    ReplaceDisjoint(fat, chains, k, chain);
    forall c | InRange(fat', c) && fat'[c] != 0
      ensures Covered(chains', c)
    {
      if c in chain {
        assert c in chains'[k];
      } else {
        assert Covered(chains, c);
        StillCovered(chains, k, chain, c);
      }
    }
  }

  lemma StillCovered(chains: seq<seq<nat>>, k: nat, chain: seq<nat>, c: int)
    requires Covered(chains, c) && k < |chains| && c !in chains[k]
    ensures Covered(chains[k := chain], c)
  {
    var j :| 0 <= j < |chains| && c in chains[j];
    assert c in chains[k := chain][j];
  }

  lemma ReplaceDisjoint(fat: seq<nat>, chains: seq<seq<nat>>, k: nat, chain: seq<nat>)
    requires Partition(fat, chains) && k < |chains|
    requires forall c :: c in chain ==> InRange(fat, c) && (c in chains[k] || fat[c] == 0)
    ensures AllDisjoint(chains[k := chain])
  {
    forall j | 0 <= j < |chains| && j != k
      ensures Disjoint(chain, chains[j])
    {
      assert Disjoint(chains[k], chains[j]) && IsChain(fat, chains[j]);
      forall c | c in chain
        ensures c !in chains[j]
      {
        if fat[c] == 0 { FreeNotInChain(fat, chains[j], c); }
      }
    }
    var chains' := chains[k := chain];
    forall i, j | 0 <= i < |chains| && 0 <= j < |chains| && i != j
      ensures Disjoint(chains'[i], chains'[j])
    {
      if i == k {
        assert Disjoint(chain, chains[j]);
      } else if j == k {
        assert Disjoint(chain, chains[i]);
      } else {
        assert Disjoint(chains[i], chains[j]);
      }
    }
  }

  lemma ExtendKeeps(fat: seq<nat>, chains: seq<seq<nat>>, k: nat, ncl: nat, eoc: nat)
    requires k < |chains| && IsChain(fat, chains[k])
    requires Partition(fat, chains) && k < |chains| && InRange(fat, ncl) && fat[ncl] == 0 && eoc >= |fat|
    ensures Partition(fat[ncl := eoc][Last(chains[k]) := ncl], chains[k := chains[k] + [ncl]])
  {
    var chain := chains[k];
    StretchChain(fat, chain, ncl, eoc);
    assert Last(chain) in chain;
    ReplaceKeeps(fat, fat[ncl := eoc][Last(chain) := ncl], chains, k, chain + [ncl]);
  }

  lemma CutKeeps(fat: seq<nat>, chains: seq<seq<nat>>, k: nat, m: nat, eoc: nat)
    requires k < |chains| && IsChain(fat, chains[k])
    requires Partition(fat, chains) && k < |chains| && 0 < m < |chains[k]| && eoc >= |fat|
    ensures Partition(Release(fat[chains[k][m - 1] := eoc], chains[k][m]), chains[k := chains[k][..m]])
  {
    var chain := chains[k];
    CutChain(fat, chain, m, eoc);
    assert chain == chain[..m] + chain[m..] && chain[m - 1] in chain;
    ReplaceKeeps(fat, Zeroed(fat[chain[m - 1] := eoc], chain[m..]), chains, k, chain[..m]);
  }

  lemma DropKeeps(fat: seq<nat>, chains: seq<seq<nat>>, k: nat)
    requires k < |chains| && IsChain(fat, chains[k])
    requires Partition(fat, chains) && k < |chains|
    ensures Partition(Release(fat, chains[k][0]), chains[..k] + chains[k + 1..])
  {
    var fat', chains' := Zeroed(fat, chains[k]), chains[..k] + chains[k + 1..];
    ReleaseChain(fat, chains[k]);
    forall j | 0 <= j < |chains'|
      ensures IsChain(fat', chains'[j])
    {
      OthersKept(fat, fat', chains, k, if j < k then j else j + 1);
    }
    RemoveDisjoint(chains, k);
    forall c | InRange(fat', c) && fat'[c] != 0
      ensures Covered(chains', c)
    {
      assert Covered(chains, c);
      var i :| 0 <= i < |chains| && c in chains[i];
      assert chains'[if i < k then i else i - 1] == chains[i];
    }
  }

  lemma RemoveDisjoint(chains: seq<seq<nat>>, k: nat)
    requires AllDisjoint(chains) && k < |chains|
    ensures AllDisjoint(chains[..k] + chains[k + 1..])
  {
    var chains' := chains[..k] + chains[k + 1..];
    forall i, j | 0 <= i < |chains'| && 0 <= j < |chains'| && i != j
      ensures Disjoint(chains'[i], chains'[j])
    {
      assert Disjoint(chains[if i < k then i else i + 1], chains[if j < k then j else j + 1]);
    }
  }

  // ----- runs -----

  /** Every step of a run is enabled where it happens. */
  ghost predicate Runs(fat: seq<nat>, chains: seq<seq<nat>>, steps: seq<Step>, eoc: nat)
    requires Partition(fat, chains) && eoc >= |fat|
    decreases |steps|
  {
    |steps| == 0 ||
    (&& Enabled(fat, chains, steps[0])
     && (StepKeepsPartition(fat, chains, steps[0], eoc);
         Runs(StepFat(fat, chains, steps[0], eoc), StepChains(chains, steps[0]), steps[1..], eoc)))
  }

  /** The table and its chains at the end of a run. */
  ghost function Outcome(fat: seq<nat>, chains: seq<seq<nat>>, steps: seq<Step>, eoc: nat)
    : (r: (seq<nat>, seq<seq<nat>>))
    requires Partition(fat, chains) && eoc >= |fat| && Runs(fat, chains, steps, eoc)
    decreases |steps|
  {
    if |steps| == 0 then (fat, chains)
    else
      StepKeepsPartition(fat, chains, steps[0], eoc);
      Outcome(StepFat(fat, chains, steps[0], eoc), StepChains(chains, steps[0]), steps[1..], eoc)
  }

  /** Every run of allocations and releases keeps the table a set of disjoint acyclic chains. */
  lemma {:induction false} RunKeepsPartition(fat: seq<nat>, chains: seq<seq<nat>>, steps: seq<Step>, eoc: nat)
    requires Partition(fat, chains) && eoc >= |fat| && Runs(fat, chains, steps, eoc)
    ensures Partition(Outcome(fat, chains, steps, eoc).0, Outcome(fat, chains, steps, eoc).1)
    decreases |steps|
  {
    if |steps| > 0 {
      StepKeepsPartition(fat, chains, steps[0], eoc);
      RunKeepsPartition(StepFat(fat, chains, steps[0], eoc), StepChains(chains, steps[0]), steps[1..], eoc);
    }
  }

  /** A run with one more step. */
  lemma {:induction false} RunAppend(fat: seq<nat>, chains: seq<seq<nat>>, steps: seq<Step>, step: Step, eoc: nat)
    requires Partition(fat, chains) && eoc >= |fat| && Runs(fat, chains, steps, eoc)
    requires var r := Outcome(fat, chains, steps, eoc);
      Partition(r.0, r.1) && |r.0| == |fat| && Enabled(r.0, r.1, step)
    ensures Runs(fat, chains, steps + [step], eoc)
    ensures var r := Outcome(fat, chains, steps, eoc);
      Outcome(fat, chains, steps + [step], eoc) == (StepFat(r.0, r.1, step, eoc), StepChains(r.1, step))
    decreases |steps|
  {
    if |steps| == 0 {
      StepKeepsPartition(fat, chains, step, eoc);
      assert (steps + [step])[1..] == [];
    } else {
      StepKeepsPartition(fat, chains, steps[0], eoc);
      var fat', chains' := StepFat(fat, chains, steps[0], eoc), StepChains(chains, steps[0]);
      assert (steps + [step])[1..] == steps[1..] + [step];
      RunAppend(fat', chains', steps[1..], step, eoc);
    }
  }

  /** A table made of chains and free clusters holds no reserved value. */
  lemma PartitionEntries(fat: seq<nat>, chains: seq<seq<nat>>, c: nat)
    requires Partition(fat, chains) && InRange(fat, c)
    ensures fat[c] != 1
  {
    if fat[c] != 0 {
      assert Covered(chains, c);
      var k :| 0 <= k < |chains| && c in chains[k];
      assert IsChain(fat, chains[k]);
      var i :| 0 <= i < |chains[k]| && chains[k][i] == c;
      if i < |chains[k]| - 1 {
        assert Linked(fat, chains[k], i);
      }
    }
  }
}
