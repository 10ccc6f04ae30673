/** Whole runs of allocations and releases on a mounted volume, driven by the start clusters of its
    chains as a file system keeps them. */
module FatRuns {
  import opened Words
  import opened FatVolume
  import opened FatChains
  import opened FatAllocator

  /** What a file system asks for: a new chain, one cluster more for chain number `k`, all of it
      released, or all but its first `m` clusters. */
  datatype Request = Begin | Grow(k: nat) | Delete(k: nat) | Shorten(k: nat, m: nat)

  /** The table is made of disjoint acyclic chains that begin at `heads`, and its free count is exact. */
  ghost predicate Tracks(v: Volume, heads: seq<nat>, chains: seq<seq<nat>>)
    reads v, v.win, v.disk
  {
    && v.Valid() && CountExact(v) && Partition(v.fat, chains) && |heads| == |chains|
    && forall k {:trigger chains[k]} :: 0 <= k < |chains| ==> chains[k] != [] && heads[k] == chains[k][0]
  }

  /** The step on the table that answers a request; none if it does not apply or the disk is full. */
  ghost predicate Answers(fat: seq<nat>, chains: seq<seq<nat>>, request: Request, step: Option<Step>) {
    match step
    case None =>
      (match request
       case Begin => NoneFree(fat)
       case Grow(k) => k < |chains| ==> NoneFree(fat)
       case Delete(k) => k >= |chains|
       case Shorten(k, m) => k < |chains| ==> m == 0 || m >= |chains[k]|)
    case Some(s) =>
      && Enabled(fat, chains, s)
      && (match request
          case Begin => s.Create?
          case Grow(k) => s.Extend? && s.k == k
          case Delete(k) => s == Drop(k)
          case Shorten(k, m) => s == Cut(k, m))
  }

  /** The table and the chains after the step. */
  ghost predicate Stepped(fat: seq<nat>, chains: seq<seq<nat>>, step: Option<Step>, eoc: nat, fat': seq<nat>, chains': seq<seq<nat>>) {
    match step
    case None => fat' == fat && chains' == chains
    case Some(s) =>
      && Partition(fat, chains) && Enabled(fat, chains, s)
      && fat' == StepFat(fat, chains, s, eoc) && chains' == StepChains(chains, s)
  }

  /** Follow a chain for `steps` links, or to its last cluster. */
  method Follow(v: Volume, head: nat, steps: nat, ghost chain: seq<nat>) returns (c: nat, ghost i: nat)
    requires v.Valid() && IsChain(v.fat, chain) && head == chain[0]
    modifies v`wflag, v`winsect, v.win, v.disk
    ensures v.Valid() && v.FatKept() && (old(v.Mirrored()) ==> v.Mirrored())
    ensures i == (if steps < |chain| then steps else |chain| - 1) && c == chain[i]
  {
    c, i := head, 0;
    var n := 0;
    while n < steps
      invariant v.Valid() && v.FatKept() && (old(v.Mirrored()) ==> v.Mirrored())
      invariant n == i <= steps && i < |chain| && c == chain[i]
    {
      if i + 1 < |chain| {
        assert Linked(v.fat, chain, i);
      }
      var nxt := v.GetFat(c);
      if nxt >= v.nFatent {
        return;
      }
      c, n, i := nxt, n + 1, i + 1;
    }
  }

  /** A chain is no longer than the table. */
  lemma {:induction false} ChainLength(chain: seq<nat>, bound: nat)
    requires Distinct(chain) && forall i :: 0 <= i < |chain| ==> chain[i] < bound
    ensures |chain| <= bound
    decreases bound
  {
    if |chain| > 0 {
      assert chain[0] < bound;
      if bound - 1 in chain {
        var i :| 0 <= i < |chain| && chain[i] == bound - 1;
        ChainLength(chain[..i] + chain[i + 1..], bound - 1);
      } else {
        ChainLength(chain, bound - 1);
      }
    }
  }

  /** The entries hold no reserved value. */
  lemma NothingReserved(fat: seq<nat>, chains: seq<seq<nat>>)
    requires Partition(fat, chains)
    ensures NoReserved(fat)
  {
    forall c | InRange(fat, c)
      ensures fat[c] != 1
    {
      PartitionEntries(fat, chains, c);
    }
  }

  /** create_chain for a file without clusters. */
  method BeginChain(v: Volume, heads: seq<nat>, ghost chains: seq<seq<nat>>)
    returns (heads': seq<nat>, ghost chains': seq<seq<nat>>, ghost step: Option<Step>)
    requires Tracks(v, heads, chains)
    modifies v`wflag, v`winsect, v`img, v`fat, v`lastClst, v`freeClst, v.win, v.disk
    ensures Tracks(v, heads', chains') && v.DataKept() && (old(v.Mirrored()) ==> v.Mirrored())
    ensures Answers(old(v.fat), chains, Begin, step) && Stepped(old(v.fat), chains, step, EndMark(v.fsType), v.fat, chains')
  {
    NothingReserved(v.fat, chains);
    MasksHold(v, 2);
    var ncl := CreateChain(v, 0);
    if ncl == 0 {
      return heads, chains, None;
    }
    step := Some(Create(ncl));
    StepKeepsPartition(old(v.fat), chains, Create(ncl), EndMark(v.fsType));
    heads', chains' := heads + [ncl], chains + [[ncl]];
  }

  /** create_chain at the end of chain number `k`. */
  method GrowChain(v: Volume, heads: seq<nat>, ghost chains: seq<seq<nat>>, k: nat)
    returns (ghost chains': seq<seq<nat>>, ghost step: Option<Step>)
    requires Tracks(v, heads, chains) && k < |heads|
    modifies v`wflag, v`winsect, v`img, v`fat, v`lastClst, v`freeClst, v.win, v.disk
    ensures Tracks(v, heads, chains') && v.DataKept() && (old(v.Mirrored()) ==> v.Mirrored())
    ensures Answers(old(v.fat), chains, Grow(k), step) && Stepped(old(v.fat), chains, step, EndMark(v.fsType), v.fat, chains')
  {
    NothingReserved(v.fat, chains);
    assert IsChain(v.fat, chains[k]);
    ChainLength(chains[k], v.nFatent);
    var tail, _ := Follow(v, heads[k], v.nFatent, chains[k]);
    MasksHold(v, tail);
    var ncl := CreateChain(v, tail);
    if ncl == 0 {
      return chains, None;
    }
    step := Some(Extend(k, ncl));
    StepKeepsPartition(old(v.fat), chains, Extend(k, ncl), EndMark(v.fsType));
    chains' := chains[k := chains[k] + [ncl]];
  }

  /** remove_chain on the whole of chain number `k`. */
  method DeleteChain(v: Volume, heads: seq<nat>, ghost chains: seq<seq<nat>>, k: nat)
    returns (heads': seq<nat>, ghost chains': seq<seq<nat>>)
    requires Tracks(v, heads, chains) && k < |heads|
    modifies v`wflag, v`winsect, v`img, v`fat, v`freeClst, v.win, v.disk
    ensures Tracks(v, heads', chains') && v.DataKept() && (old(v.Mirrored()) ==> v.Mirrored())
    ensures Stepped(old(v.fat), chains, Some(Drop(k)), EndMark(v.fsType), v.fat, chains')
  {
    MasksHold(v, 2);
    assert IsChain(v.fat, chains[k]);
    var ok := RemoveChain(v, heads[k], 0);
    StepKeepsPartition(old(v.fat), chains, Drop(k), EndMark(v.fsType));
    heads', chains' := heads[..k] + heads[k + 1..], chains[..k] + chains[k + 1..];
  }

  /** remove_chain behind the first `m` clusters of chain number `k`, as f_truncate calls it. */
  method ShortenChain(v: Volume, heads: seq<nat>, ghost chains: seq<seq<nat>>, k: nat, m: nat)
    returns (ghost chains': seq<seq<nat>>, ghost step: Option<Step>)
    requires Tracks(v, heads, chains) && k < |heads| && m > 0
    modifies v`wflag, v`winsect, v`img, v`fat, v`freeClst, v.win, v.disk
    ensures Tracks(v, heads, chains') && v.DataKept() && (old(v.Mirrored()) ==> v.Mirrored())
    ensures Answers(old(v.fat), chains, Shorten(k, m), step)
    ensures Stepped(old(v.fat), chains, step, EndMark(v.fsType), v.fat, chains')
  {
    ghost var chain := chains[k];
    assert IsChain(v.fat, chain);
    var last, i := Follow(v, heads[k], m - 1, chain);
    MasksHold(v, last);
    if i + 1 < |chain| {
      assert Linked(v.fat, chain, i);
    }
    var ok := ReleaseAfter(v, last);
    if m < |chain| {
      step, chains' := Some(Cut(k, m)), chains[k := chain[..m]];
      StepKeepsPartition(old(v.fat), chains, Cut(k, m), EndMark(v.fsType));
    } else {
      step, chains' := None, chains;
    }
  }

  /** One request. */
  method Serve(v: Volume, heads: seq<nat>, ghost chains: seq<seq<nat>>, request: Request)
    returns (heads': seq<nat>, ghost chains': seq<seq<nat>>, ghost step: Option<Step>)
    requires Tracks(v, heads, chains)
    modifies v`wflag, v`winsect, v`img, v`fat, v`lastClst, v`freeClst, v.win, v.disk
    ensures Tracks(v, heads', chains') && (old(v.Mirrored()) ==> v.Mirrored())
    ensures Answers(old(v.fat), chains, request, step)
    ensures Stepped(old(v.fat), chains, step, EndMark(v.fsType), v.fat, chains')
    ensures step.Some? ==> forall c {:trigger old(v.fat)[c]} ::
      InRange(old(v.fat), c) && Elsewhere(old(v.fat), chains, step.value, c) ==> v.fat[c] == old(v.fat)[c]
  {
    MasksHold(v, 2);
    heads', chains', step := heads, chains, None;
    match request {
    case Begin =>
      heads', chains', step := BeginChain(v, heads, chains);
    case Grow(k) =>
      if k < |heads| {
        chains', step := GrowChain(v, heads, chains, k);
      }
    case Delete(k) =>
      if k < |heads| {
        heads', chains' := DeleteChain(v, heads, chains, k);
        step := Some(Drop(k));
      }
    case Shorten(k, m) =>
      if k < |heads| && m > 0 {
        chains', step := ShortenChain(v, heads, chains, k, m);
      }
    }
    if step.Some? {
      StepKeepsOthers(old(v.fat), chains, step.value, EndMark(v.fsType));
    }
  }

  /** The table and its chains between two requests. */
  datatype Point = Point(fat: seq<nat>, chains: seq<seq<nat>>)

  /** One request, answered from one point to the next. */
  ghost predicate Served(p: Point, request: Request, step: Option<Step>, eoc: nat, q: Point) {
    Answers(p.fat, p.chains, request, step) && Stepped(p.fat, p.chains, step, eoc, q.fat, q.chains)
  }

  /** Each request in turn is answered by its own step, if any. */
  ghost predicate AllServed(points: seq<Point>, requests: seq<Request>, steps: seq<Option<Step>>, eoc: nat) {
    && |points| == |requests| + 1 && |steps| == |requests|
    && forall i {:trigger Served(points[i], requests[i], steps[i], eoc, points[i + 1])} :: 0 <= i < |requests| ==>
         Served(points[i], requests[i], steps[i], eoc, points[i + 1])
  }

  /** The steps that were taken. */
  ghost function Taken(steps: seq<Option<Step>>): seq<Step> {
    if steps == [] then []
    else TakenToo(Taken(steps[..|steps| - 1]), steps[|steps| - 1])
  }

  ghost function TakenToo(taken: seq<Step>, step: Option<Step>): seq<Step> {
    if step.Some? then taken + [step.value] else taken
  }

  lemma ServedOn(points: seq<Point>, requests: seq<Request>, n: nat, steps: seq<Option<Step>>, step: Option<Step>, eoc: nat, q: Point)
    requires n < |requests| && AllServed(points, requests[..n], steps, eoc) && Served(points[n], requests[n], step, eoc, q)
    ensures AllServed(points + [q], requests[..n + 1], steps + [step], eoc)
    ensures Taken(steps + [step]) == TakenToo(Taken(steps), step)
  {
    var points', requests', steps' := points + [q], requests[..n + 1], steps + [step];
    forall i | 0 <= i < n + 1
      ensures Served(points'[i], requests'[i], steps'[i], eoc, points'[i + 1])
    {
      if i < n {
        assert Served(points[i], requests[..n][i], steps[i], eoc, points[i + 1]);
      }
    }
    assert steps'[..n] == steps;
  }

  /** Every run of requests keeps the table a set of disjoint acyclic chains and the free count exact.
      Each request is answered by its own step, which leaves the other chains alone, and together the
      steps are a run on the table alone. */
  method Run(v: Volume, heads: seq<nat>, ghost chains: seq<seq<nat>>, requests: seq<Request>)
    returns (heads': seq<nat>, ghost points: seq<Point>, ghost steps: seq<Option<Step>>)
    requires Tracks(v, heads, chains)
    modifies v`wflag, v`winsect, v`img, v`fat, v`lastClst, v`freeClst, v.win, v.disk
    ensures AllServed(points, requests, steps, EndMark(v.fsType))
    ensures points[0] == Point(old(v.fat), chains) && points[|requests|].fat == v.fat
    ensures Tracks(v, heads', points[|requests|].chains) && (old(v.Mirrored()) ==> v.Mirrored())
    ensures EndMark(v.fsType) >= |old(v.fat)| && Runs(old(v.fat), chains, Taken(steps), EndMark(v.fsType))
    ensures Outcome(old(v.fat), chains, Taken(steps), EndMark(v.fsType)) == (v.fat, points[|requests|].chains)
  {
    heads', points, steps := heads, [Point(v.fat, chains)], [];
    ghost var chains' := chains;
    MasksHold(v, 2);
    ghost var eoc, fat, taken: seq<Step> := EndMark(v.fsType), v.fat, [];
    for i := 0 to |requests|
      invariant Tracks(v, heads', chains') && (old(v.Mirrored()) ==> v.Mirrored())
      invariant AllServed(points, requests[..i], steps, eoc)
      invariant points[0] == Point(fat, chains) && points[i] == Point(v.fat, chains')
      invariant taken == Taken(steps) && Runs(fat, chains, taken, eoc) && Outcome(fat, chains, taken, eoc) == (v.fat, chains')
    {
      ghost var step;
      heads', chains', step := Serve(v, heads', chains', requests[i]);
      ServedOn(points, requests, i, steps, step, eoc, Point(v.fat, chains'));
      if step.Some? {
        RunAppend(fat, chains, taken, step.value, eoc);
      }
      taken := TakenToo(taken, step);
      points, steps := points + [Point(v.fat, chains')], steps + [step];
    }
    assert requests[..|requests|] == requests;
  }
}
