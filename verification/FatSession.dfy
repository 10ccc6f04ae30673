/** Whole runs of calls on one open file, against a plain byte sequence with a position. */
module FatSession {
  import opened Words
  import opened FatImage
  import opened FatVolume
  import opened FatAllocator
  import opened FatFile
  import opened FatFileRead
  import opened FatFileWrite
  import opened FatFileSeek
  import opened FatFileTruncate

  datatype Plain = Plain(data: seq<byte>, pos: nat)

  datatype Call = Seek(ofs: nat) | Put(bytes: seq<byte>) | Get(count: nat) | Cut

  /** What a call reports, and for the ones that may stop early whether no cluster was free then. */
  datatype Reply = Sought(full: bool) | Wrote(ok: bool, bw: nat, full: bool) | Got(ok: bool, bytes: seq<byte>) | CutOff(ok: bool)

  /** Arguments are 32-bit numbers and lengths. */
  predicate Fits(call: Call) {
    match call
    case Seek(ofs) => ofs <= 0xFFFF_FFFF
    case Put(bytes) => |bytes| <= 0xFFFF_FFFF
    case Get(count) => count <= 0xFFFF_FFFF
    case Cut => true
  }

  /** What a call may do to a plain byte sequence, open for reading and writing as `r` and `w` say. */
  predicate Allowed(r: bool, w: bool, p: Plain, call: Call, reply: Reply, p': Plain) {
    p.pos <= |p.data| && p'.pos <= |p'.data| &&
    match call
    case Seek(ofs) =>
      && reply.Sought? && p.data <= p'.data
      && |p'.data| == (if p'.pos > |p.data| then p'.pos else |p.data|)
      && p'.pos <= ofs
      && (p'.pos < ofs ==> ofs > |p.data| && if w then reply.full else p'.pos == |p.data|)
      && (!w ==> p'.pos <= |p.data|)
    case Put(bytes) =>
      && reply.Wrote? && reply.ok == w && reply.bw <= |bytes|
      && p' == Plain(Overwrite(p.data, p.pos, bytes[..reply.bw]), p.pos + reply.bw)
      && (!w ==> reply.bw == 0)
      && (w && reply.bw < |bytes| && p'.pos < 0xFFFF_FFFF ==> reply.full)
    case Get(count) =>
      && reply.Got? && reply.ok == r && p'.data == p.data && p'.pos == p.pos + |reply.bytes|
      && |reply.bytes| == (if !r then 0 else if count < |p.data| - p.pos then count else |p.data| - p.pos)
      && reply.bytes == p.data[p.pos..p'.pos]
    case Cut =>
      && reply == CutOff(w) && p' == (if w then Plain(p.data[..p.pos], p.pos) else p)
  }

  /** The call stopped because no cluster was free. */
  predicate StoppedFull(reply: Reply) {
    (reply.Sought? || reply.Wrote?) && reply.full
  }

  ghost function View(f: File): Plain
    reads f
  {
    Plain(f.data, f.fptr)
  }

  /** One call on the open file. */
  method Perform(f: File, call: Call) returns (reply: Reply)
    requires f.Valid() && Fits(call)
    modifies f, f.buf, f.v`wflag, f.v`winsect, f.v`img, f.v`fat, f.v`lastClst, f.v`freeClst, f.v.win, f.v.disk
    ensures f.Valid() && Allowed(f.canRead, f.canWrite, old(View(f)), call, reply, View(f))
    ensures StoppedFull(reply) ==> NoneFree(f.v.fat)
  {
    match call
    case Seek(ofs) => reply := PerformSeek(f, ofs);
    case Put(bytes) => reply := PerformPut(f, bytes);
    case Get(count) =>
      var rbuff := new byte[count](_ => 0);
      var ok, br := Read(f, rbuff, count);
      reply := Got(ok, rbuff[..br]);
    case Cut =>
      var ok := Truncate(f);
      reply := CutOff(ok);
  }

  method PerformSeek(f: File, ofs: nat) returns (reply: Reply)
    requires f.Valid() && ofs <= 0xFFFF_FFFF
    modifies f, f.buf, f.v`wflag, f.v`winsect, f.v`img, f.v`fat, f.v`lastClst, f.v`freeClst, f.v.win, f.v.disk
    ensures f.Valid() && Allowed(f.canRead, f.canWrite, old(View(f)), Seek(ofs), reply, View(f))
    ensures reply.Sought? && (reply.full ==> NoneFree(f.v.fat))
  {
    Lseek(f, ofs);
    reply := Sought(f.canWrite && f.fptr < ofs);
  }

  method PerformPut(f: File, bytes: seq<byte>) returns (reply: Reply)
    requires f.Valid() && |bytes| <= 0xFFFF_FFFF
    modifies f, f.buf, f.v`wflag, f.v`winsect, f.v`img, f.v`fat, f.v`lastClst, f.v`freeClst, f.v.win, f.v.disk
    ensures f.Valid() && Allowed(f.canRead, f.canWrite, old(View(f)), Put(bytes), reply, View(f))
    ensures reply.Wrote? && (reply.full ==> NoneFree(f.v.fat))
  {
    var ok, bw := Write(f, bytes);
    reply := Wrote(ok, bw, ok && bw < |bytes| && f.fptr < 0xFFFF_FFFF);
  }

  /** The states before, between and after the calls of a run follow each other as allowed. */
  ghost predicate Behaves(r: bool, w: bool, states: seq<Plain>, calls: seq<Call>, replies: seq<Reply>) {
    && |states| == |calls| + 1 && |replies| == |calls|
    && forall i {:trigger Allowed(r, w, states[i], calls[i], replies[i], states[i + 1])} :: 0 <= i < |calls| ==>
         Allowed(r, w, states[i], calls[i], replies[i], states[i + 1])
  }

  /** Calls that stopped early left a table without a free cluster. */
  ghost predicate FullWhenStopped(replies: seq<Reply>, tables: seq<seq<nat>>) {
    |tables| == |replies| && forall i {:trigger tables[i]} :: 0 <= i < |replies| && StoppedFull(replies[i]) ==> NoneFree(tables[i])
  }

  /** Every run of calls behaves as on a plain byte sequence; `tables` are the entries of the FAT after
      each call. */
  method Session(f: File, calls: seq<Call>)
    returns (replies: seq<Reply>, ghost states: seq<Plain>, ghost tables: seq<seq<nat>>)
    requires f.Valid() && forall i :: 0 <= i < |calls| ==> Fits(calls[i])
    modifies f, f.buf, f.v`wflag, f.v`winsect, f.v`img, f.v`fat, f.v`lastClst, f.v`freeClst, f.v.win, f.v.disk
    ensures f.Valid() && Behaves(f.canRead, f.canWrite, states, calls, replies)
    ensures states[0] == old(View(f)) && states[|calls|] == View(f)
    ensures FullWhenStopped(replies, tables) && (calls != [] ==> tables[|calls| - 1] == f.v.fat)
  {
    replies, states, tables := [], [View(f)], [];
    for i := 0 to |calls|
      invariant f.Valid() && Behaves(f.canRead, f.canWrite, states, calls[..i], replies)
      invariant states[0] == old(View(f)) && states[i] == View(f)
      invariant FullWhenStopped(replies, tables) && (i > 0 ==> tables[i - 1] == f.v.fat)
    {
      var reply := Perform(f, calls[i]);
      Continued(f.canRead, f.canWrite, states, calls, i, replies, reply, View(f));
      replies, states, tables := replies + [reply], states + [View(f)], tables + [f.v.fat];
    }
    assert calls[..|calls|] == calls;
  }

  /** A file without clusters, as creating one leaves it. */
  method OpenEmpty(v: Volume, canRead: bool, canWrite: bool) returns (f: File)
    requires v.Valid() && v.Laid() && CountExact(v) && NoReserved(v.fat) && PowerOfTwo(v.csize) && !v.wflag
    ensures fresh(f) && fresh(f.buf) && f.v == v && f.canRead == canRead && f.canWrite == canWrite
    ensures f.Valid() && View(f) == Plain([], 0)
  {
    f := new File(v, canRead, canWrite, 0, 0, [], []);
  }

  /** Every run on a new file of a blank volume with two FATs and `n` clusters of one sector. */
  method BlankSession(n: nat, calls: seq<Call>)
    returns (f: File, replies: seq<Reply>, ghost states: seq<Plain>, ghost tables: seq<seq<nat>>)
    requires 1 <= n <= 0x100 && forall i :: 0 <= i < |calls| ==> Fits(calls[i])
    ensures f.Valid() && |f.v.fat| == n + 2 && Behaves(true, true, states, calls, replies)
    ensures states[0] == Plain([], 0) && states[|calls|] == View(f)
    ensures FullWhenStopped(replies, tables) && (calls != [] ==> tables[|calls| - 1] == f.v.fat)
  {
    var v := BlankVolume(n);
    f := OpenEmpty(v, true, true);
    replies, states, tables := Session(f, calls);
  }

  /** A boot sector, two FATs of one sector, a sector for the root directory, and the clusters. */
  method BlankVolume(n: nat) returns (v: Volume)
    requires 1 <= n <= 0x100
    ensures fresh(v) && fresh(v.win) && fresh(v.disk) && v.Valid() && v.Laid() && v.Mirrored() && !v.wflag
    ensures CountExact(v) && NoReserved(v.fat) && PowerOfTwo(v.csize) && |v.fat| == n + 2
  {
    v := new Volume(Fat12, 2, 1, n + 2, 1, 1, 4, seq(n + 4, _ => seq(512, _ => 0)));
    v.FirstSectorIs(n + 2);
    assert v.csize == Pow2(0);
    forall c | 0 <= c < n + 2
      ensures v.fat[c] == 0
    {
      var i := EntryByte(Fat12, c);
      assert Inside(Fat12, v.img, c) && v.img[i] == 0 && v.img[i + 1] == 0;
      assert v.fat[c] == Entry(Fat12, v.img, c) == Value12(0, 0, c % 2 == 1);
    }
  }

  lemma Continued(r: bool, w: bool, states: seq<Plain>, calls: seq<Call>, n: nat, replies: seq<Reply>, reply: Reply, p: Plain)
    requires n < |calls| && Behaves(r, w, states, calls[..n], replies) && Allowed(r, w, states[n], calls[n], reply, p)
    ensures Behaves(r, w, states + [p], calls[..n + 1], replies + [reply])
  {
    var states', calls', replies' := states + [p], calls[..n + 1], replies + [reply];
    forall i | 0 <= i < n + 1
      ensures Allowed(r, w, states'[i], calls'[i], replies'[i], states'[i + 1])
    {
      if i < n {
        assert Allowed(r, w, states[i], calls[..n][i], replies[i], states[i + 1]);
      }
    }
  }

  // ----- reads see the latest writes -----

  /** A call that may set, expose or drop byte `i`. */
  predicate Touches(p: Plain, call: Call, i: nat) {
    match call
    case Seek(ofs) => |p.data| <= i < ofs
    case Put(bytes) => p.pos <= i < p.pos + |bytes|
    case Get(count) => false
    case Cut => p.pos <= i
  }

  /** A byte stays what it is until a call touches it. */
  lemma {:induction false} Untouched(r: bool, w: bool, states: seq<Plain>, calls: seq<Call>, replies: seq<Reply>,
                                     a: nat, b: nat, i: nat)
    requires Behaves(r, w, states, calls, replies) && a <= b <= |calls| && i < |states[a].data|
    requires forall j :: a <= j < b ==> !Touches(states[j], calls[j], i)
    ensures i < |states[b].data| && states[b].data[i] == states[a].data[i]
    decreases b - a
  {
    if a < b {
      var m := b - 1;
      Untouched(r, w, states, calls, replies, a, m, i);
      assert Allowed(r, w, states[m], calls[m], replies[m], states[m + 1]);
      assert !Touches(states[m], calls[m], i);
    }
  }

  /** In every run, a read returns for each byte what the latest write put there. */
  lemma LatestWrite(r: bool, w: bool, states: seq<Plain>, calls: seq<Call>, replies: seq<Reply>,
                    a: nat, b: nat, i: nat)
    requires Behaves(r, w, states, calls, replies) && a < b < |calls|
    requires calls[a].Put? && replies[a].Wrote? && states[a].pos <= i < states[a].pos + replies[a].bw
    requires forall j :: a < j < b ==> !Touches(states[j], calls[j], i)
    requires calls[b].Get? && replies[b].Got? && states[b].pos <= i < states[b].pos + |replies[b].bytes|
    ensures replies[a].bw <= |calls[a].bytes|
    ensures replies[b].bytes[i - states[b].pos] == calls[a].bytes[i - states[a].pos]
  {
    assert Allowed(r, w, states[a], calls[a], replies[a], states[a + 1]);
    Untouched(r, w, states, calls, replies, a + 1, b, i);
    assert Allowed(r, w, states[b], calls[b], replies[b], states[b + 1]);
  }
}
