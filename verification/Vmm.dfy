/** Page directories that share the kernel's page tables. Physical frames that hold paging structures
    are an array of pages of 1024 words; a context is the frame of its page directory. */
module Vmm {
  import opened Words

  type Page = p: seq<nat> | |p| == 1024 witness seq(1024, i => 0)

  /** An entry of a page directory or a page table with its present bit set. */
  predicate Present(entry: nat) {
    entry % 2 == 1
  }

  function FrameOf(entry: nat): nat {
    entry / 4096
  }

  function DirIndex(ptr: nat): nat {
    ptr / 4096 / 1024
  }

  function TableIndex(ptr: nat): nat {
    ptr / 4096 % 1024
  }

  datatype Status = Mapped | Misaligned | Overlapping | NoMemory

  /** What a frame is for: a page table with the directory index it serves, or the structure that
      points to a directory. Either was made for the directory `owner`. */
  datatype Home = Table(index: nat, owner: nat) | Header(owner: nat)

  /** How many frames are free and kept for paging structures. */
  ghost function CountFree(used: seq<bool>, forTables: seq<bool>): nat
    requires |used| == |forTables|
  {
    if used == [] then 0
    else CountFree(used[1..], forTables[1..]) + if !used[0] && forTables[0] then 1 else 0
  }

  lemma {:induction false} NoneFree(used: seq<bool>, forTables: seq<bool>)
    requires |used| == |forTables|
    requires forall i {:trigger used[i]} :: 0 <= i < |used| ==> used[i] || !forTables[i]
    ensures CountFree(used, forTables) == 0
  {
    if used != [] {
      assert used[0] || !forTables[0];
      forall i | 0 <= i < |used[1..]|
        ensures used[1..][i] || !forTables[1..][i]
      {
        assert used[1 + i] || !forTables[1 + i];
      }
      NoneFree(used[1..], forTables[1..]);
    }
  }

  lemma {:induction false} OneFewer(used: seq<bool>, forTables: seq<bool>, f: nat)
    requires |used| == |forTables| && f < |used| && !used[f] && forTables[f]
    ensures CountFree(used[f := true], forTables) == CountFree(used, forTables) - 1
  {
    if f == 0 {
      assert used[0 := true][1..] == used[1..];
    } else {
      OneFewer(used[1..], forTables[1..], f - 1);
      assert used[f := true][1..] == used[1..][f - 1 := true];
    }
  }

  /** Only frames kept for paging structures are counted. */
  lemma {:induction false} SameFree(a: seq<bool>, b: seq<bool>, forTables: seq<bool>)
    requires |a| == |b| == |forTables|
    requires forall i {:trigger a[i]} :: 0 <= i < |a| && forTables[i] ==> a[i] == b[i]
    ensures CountFree(a, forTables) == CountFree(b, forTables)
  {
    if a != [] {
      assert forTables[0] ==> a[0] == b[0];
      forall i | 0 <= i < |a[1..]| && forTables[1..][i]
        ensures a[1..][i] == b[1..][i]
      {
        assert a[1 + i] == b[1 + i];
      }
      SameFree(a[1..], b[1..], forTables[1..]);
    }
  }

  lemma {:induction false} FirstFree(used: seq<bool>, forTables: seq<bool>, n: nat)
    requires n <= |used| == |forTables|
    requires forall i {:trigger used[i]} :: 0 <= i < |used| ==> ((!used[i] && forTables[i]) <==> i < n)
    ensures CountFree(used, forTables) == n
  {
    if used != [] {
      assert (!used[0] && forTables[0]) <==> 0 < n;
      forall i | 0 <= i < |used[1..]|
        ensures (!used[1..][i] && forTables[1..][i]) <==> i < (if n == 0 then 0 else n - 1)
      {
        assert (!used[1 + i] && forTables[1 + i]) <==> 1 + i < n;
      }
      FirstFree(used[1..], forTables[1..], if n == 0 then 0 else n - 1);
    }
  }

  /** A slot of the task table; a thread has a parent, whose context it shares. */
  datatype Task = Task(active: bool, thread: bool, context: nat)

  class Machine {
    const frames: array<Page>
    const used: array<bool>       // the bitmap of the physical memory manager
    const forTables: seq<bool>    // its mask of frames kept for paging structures
    const tasks: array<Task>
    var kernel: nat
    var header: map<nat, nat>     // of each directory, the frame of the structure that points to it
    ghost var dirs: set<nat>       // frames that are page directories
    ghost var home: map<nat, Home> // the other frames of paging structures

    ghost predicate Sizes() {
      frames.Length == used.Length == |forTables| <= 0x10_0000 && tasks.Length == 32
    }

    /** Entry `i` of directory `d`. */
    ghost function At(d: nat, i: nat): nat
      reads frames
      requires d < frames.Length && i < 1024
    {
      frames[d][i]
    }

    /** A frame allocated for a paging structure. */
    ghost predicate Held(f: nat)
      reads used
      requires Sizes()
    {
      f < frames.Length && used[f] && forTables[f]
    }

    /** Directories, their headers and tables are allocated frames, and no frame is two of these. */
    ghost predicate Owned()
      reads this, used
      requires Sizes()
    {
      && kernel in dirs && header.Keys == dirs
      && (forall d {:trigger d in dirs} :: d in dirs ==> Held(d))
      && (forall d {:trigger header[d]} :: d in dirs ==> header[d] in home && home[header[d]] == Header(d))
      && (forall f {:trigger f in home} :: f in home ==> Held(f) && f !in dirs)
    }

    /** A frame allocated for a paging structure and not yet used as one. */
    ghost predicate Spare(f: nat)
      reads this, used
      requires Sizes() && Owned()
    {
      Held(f) && f !in dirs && f !in home
    }

    /** Entry `i` of directory `d` names table `f`. */
    ghost predicate Uses(d: nat, i: nat, f: nat)
      reads frames
      requires d < frames.Length && i < 1024
    {
      Present(At(d, i)) && FrameOf(At(d, i)) == f
    }

    /** A present entry names a table that serves its index, made for this directory or the kernel's. */
    ghost predicate EntryOk(d: nat, i: nat)
      reads this`home, this`kernel, frames
      requires d < frames.Length && kernel < frames.Length && i < 1024
    {
      Present(At(d, i)) ==>
        var f := FrameOf(At(d, i));
        f in home && (home[f] == Table(i, d) || (home[f] == Table(i, kernel) && Uses(kernel, i, f)))
    }

    ghost predicate Linked()
      reads this, used, frames
      requires Sizes() && Owned()
    {
      forall d, i {:trigger EntryOk(d, i)} :: d in dirs && 0 <= i < 1024 ==> EntryOk(d, i)
    }

    /** Directory `d` has the kernel's entry `i` if the kernel has one. */
    ghost predicate Follows(d: nat, i: nat)
      reads this`kernel, frames
      requires d < frames.Length && kernel < frames.Length && i < 1024
    {
      Present(At(kernel, i)) ==> At(d, i) == At(kernel, i)
    }

    /** Every active task has the kernel's entries. */
    ghost predicate Shared()
      reads this, used, frames, tasks
      requires Sizes() && Owned()
    {
      && (forall t {:trigger tasks[t]} :: 0 <= t < 32 && tasks[t].active ==> tasks[t].context in dirs && tasks[t].context != kernel)
      && (forall t, i {:trigger Follows(tasks[t].context, i)} :: 0 <= t < 32 && tasks[t].active && 0 <= i < 1024 ==>
            Follows(tasks[t].context, i))
    }

    /** Everything but the tasks. */
    ghost predicate Sound()
      reads this, used, frames
    {
      Sizes() && Owned() && Linked()
    }

    ghost predicate Valid()
      reads this, used, frames, tasks
    {
      Sound() && Shared()
    }

    /** The page table entry for `ptr` in a context, if there is a table. */
    ghost function Word(d: nat, ptr: nat): Option<nat>
      reads frames
      requires d < frames.Length && ptr < 0x1_0000_0000
    {
      var entry := At(d, DirIndex(ptr));
      if Present(entry) && FrameOf(entry) < frames.Length then Some(At(FrameOf(entry), TableIndex(ptr))) else None
    }

    /** The physical address that `ptr` has in a context. */
    ghost function Translate(d: nat, ptr: nat): Option<nat>
      reads frames
      requires d < frames.Length && ptr < 0x1_0000_0000
    {
      var w := Word(d, ptr);
      if w.Some? && Present(w.value) then Some(4096 * FrameOf(w.value) + ptr % 4096) else None
    }

    /** vmm_lookup: the physical address, or 0. */
    method Lookup(ptr: nat, d: nat) returns (phys: nat)
      requires Valid() && d in dirs && ptr < 0x1_0000_0000
      ensures phys == match Translate(d, ptr) case Some(p) => p case None => 0
    {
      assert EntryOk(d, DirIndex(ptr));
      var pageIndex := ptr / 4096;
      var pd, pt := pageIndex / 1024, pageIndex % 1024;
      if frames[d][pd] % 2 == 1 {
        var table := frames[d][pd] / 4096;
        if frames[table][pt] % 2 == 1 {
          return frames[table][pt] / 4096 * 4096 + ptr % 4096;
        }
      }
      return 0;
    }

    /** Where the kernel has a table, every active task has the kernel's entries and translates as it does. */
    lemma TasksAgree(t: nat, ptr: nat)
      requires Valid() && t < 32 && tasks[t].active && ptr < 0x1_0000_0000
      requires Present(At(kernel, DirIndex(ptr)))
      ensures Word(tasks[t].context, ptr) == Word(kernel, ptr)
      ensures Translate(tasks[t].context, ptr) == Translate(kernel, ptr)
    {
      assert tasks[t].context in dirs;
      assert Follows(tasks[t].context, DirIndex(ptr));
    }

    /** Where the kernel has no table, no two directories share one. */
    lemma TablesPrivate(c: nat, d: nat, i: nat)
      requires Valid() && c in dirs && d in dirs && c != d && i < 1024 && !Present(At(kernel, i))
      ensures !(Present(At(d, i)) && Uses(c, i, FrameOf(At(d, i))))
    {
      assert EntryOk(c, i) && EntryOk(d, i);
    }

    // ----- allocation -----

    /** A machine before paging, with the bitmaps that the physical memory manager was given. */
    constructor (taken: seq<bool>, mask: seq<bool>)
      requires |taken| == |mask| <= 0x10_0000
      ensures Sizes() && dirs == {} && header == map[] && home == map[] && used[..] == taken && forTables == mask
      ensures forall t {:trigger tasks[t]} :: 0 <= t < 32 ==> !tasks[t].active
      ensures fresh(frames) && fresh(used) && fresh(tasks)
    {
      frames := new Page[|taken|](_ => seq(1024, _ => 0));
      used := new bool[|taken|](i requires 0 <= i < |taken| => taken[i]);
      forTables := mask;
      tasks := new Task[32](_ => Task(false, false, 0));
      kernel, header, dirs, home := 0, map[], {}, map[];
    }

    /** The first step of vmm_init: the kernel's context. */
    method Init() returns (ok: bool)
      requires Sizes() && dirs == {} && header == map[] && home == map[]
      requires forall t {:trigger tasks[t]} :: 0 <= t < 32 ==> !tasks[t].active
      modifies this`kernel, this`dirs, this`header, this`home, used, frames
      ensures ok == (old(FreeTables()) >= 2)
      ensures ok ==> Valid() && dirs == {kernel} && FreeTables() == old(FreeTables()) - 2
      ensures ok ==> forall i {:trigger At(kernel, i)} :: 0 <= i < 1024 ==> At(kernel, i) == 0
    {
      var f, d;
      ok, f := AllocTable();
      if !ok {
        return;
      }
      ok, d := AllocTable();
      if !ok {
        return;
      }
      ZeroFrame(d);
      kernel, dirs, header, home := d, {d}, map[d := f], map[f := Header(d)];
      assert forall i {:trigger At(d, i)} :: 0 <= i < 1024 ==> At(d, i) == 0;
      AddDirectory(d);
    }

    /** Frames that are free for paging structures or hold one. */
    ghost function Ledger(): nat
      reads this`dirs, this`home, used
      requires Sizes()
    {
      FreeTables() + |home| + |dirs|
    }

    /** How many paging structures there is room for. */
    ghost function FreeTables(): nat
      reads used
      requires Sizes()
    {
      CountFree(used[..], forTables)
    }

    /** pmm_alloc_pagetable: the first free frame of those kept for paging structures. */
    method AllocTable() returns (ok: bool, f: nat)
      requires Sizes()
      modifies used
      ensures ok ==> f < used.Length && !old(used[f]) && forTables[f]
      ensures ok ==> forall i :: 0 <= i < f ==> old(used[i]) || !forTables[i]
      ensures ok == (old(FreeTables()) > 0) && FreeTables() == if ok then old(FreeTables()) - 1 else 0
      ensures forall i {:trigger used[i]} :: 0 <= i < used.Length ==> used[i] == (old(used[i]) || (ok && i == f))
    {
      for i := 0 to used.Length
        invariant forall k :: 0 <= k < i ==> used[k] || !forTables[k]
      {
        if !used[i] && forTables[i] {
          OneFewer(used[..], forTables, i);
          used[i] := true;
          assert used[..] == old(used[..])[i := true];
          return true, i;
        }
      }
      NoneFree(used[..], forTables);
      return false, 0;
    }

    /** A frame filled with zeros. */
    method ZeroFrame(f: nat)
      requires f < frames.Length
      modifies frames
      ensures forall d {:trigger frames[d]} :: 0 <= d < frames.Length && d != f ==> frames[d] == old(frames[d])
      ensures forall i {:trigger frames[f][i]} :: 0 <= i < 1024 ==> frames[f][i] == 0
    {
      for i := 0 to 1024
        invariant forall d {:trigger frames[d]} :: 0 <= d < frames.Length && d != f ==> frames[d] == old(frames[d])
        invariant forall k {:trigger frames[f][k]} :: 0 <= k < i ==> frames[f][k] == 0
      {
        frames[f] := frames[f][i := 0];
      }
    }

    /** Only directories matter to what is kept; other frames may change, and more may be in use. */
    twostate lemma OffDirectories(f: nat)
      requires old(Valid()) && f !in old(dirs)
      requires kernel == old(kernel) && dirs == old(dirs) && header == old(header) && home == old(home)
      requires forall i {:trigger used[i]} :: 0 <= i < used.Length && old(used[i]) ==> used[i]
      requires forall d {:trigger frames[d]} :: 0 <= d < frames.Length && d != f ==> frames[d] == old(frames[d])
      requires tasks[..] == old(tasks[..])
      ensures Valid()
    {
      forall d, i | d in dirs && 0 <= i < 1024
        ensures EntryOk(d, i)
      {
        assert old(EntryOk(d, i));
      }
      forall t | 0 <= t < 32 && tasks[t].active
        ensures tasks[t].context in dirs && tasks[t].context != kernel
        ensures forall i {:trigger Follows(tasks[t].context, i)} :: 0 <= i < 1024 ==> Follows(tasks[t].context, i)
      {
        assert tasks[t] == old(tasks[..])[t];
        assert tasks[t].context in dirs;
        forall i | 0 <= i < 1024
          ensures Follows(tasks[t].context, i)
        {
          assert old(Follows(tasks[t].context, i));
        }
      }
    }

    /** A frame for a paging structure, not yet in use as one. */
    method AllocFrame() returns (ok: bool, f: nat)
      requires Valid()
      modifies used
      ensures Valid() && ok == (old(FreeTables()) > 0)
      ensures FreeTables() == if ok then old(FreeTables()) - 1 else 0
      ensures ok ==> Spare(f) && !old(used[f])
      ensures forall i {:trigger used[i]} :: 0 <= i < used.Length && old(used[i]) ==> used[i]
    {
      ok, f := AllocTable();
      if ok {
        assert !old(used[f]) && forTables[f];
        assert f !in dirs && f !in home;
      }
      OffDirectories(frames.Length);
    }

    /** Tables, and directories other than those in `changed`, keep their entries. */
    twostate predicate Kept(changed: set<nat>)
      reads this, frames
    {
      && old(dirs) <= dirs && old(home.Keys) <= home.Keys && kernel == old(kernel)
      && (forall d {:trigger frames[d]} :: (d in old(dirs) || d in old(home)) && 0 <= d < frames.Length && d !in changed ==>
            frames[d] == old(frames[d]))
    }

    /** Then page table entries are the same. */
    twostate lemma KeptWords()
      requires old(Valid()) && Valid() && Kept({})
      ensures forall c, ptr {:trigger Word(c, ptr)} :: c in old(dirs) && 0 <= ptr < 0x1_0000_0000 ==>
        Word(c, ptr) == old(Word(c, ptr))
    {
      forall c, ptr | c in old(dirs) && 0 <= ptr < 0x1_0000_0000
        ensures Word(c, ptr) == old(Word(c, ptr))
      {
        assert old(EntryOk(c, DirIndex(ptr)));
      }
    }

    /** vmm_create_context: a directory without entries. */
    method CreateContext() returns (ok: bool, d: nat)
      requires Valid()
      modifies this`dirs, this`header, this`home, used, frames
      ensures Valid() && Kept({}) && ok == (old(FreeTables()) >= 2)
      ensures FreeTables() == if ok then old(FreeTables()) - 2 else 0
      ensures ok ==> Ledger() == old(Ledger())
      ensures !ok ==> dirs == old(dirs)
      ensures ok ==> d !in old(dirs) && dirs == old(dirs) + {d}
      ensures ok ==> forall i {:trigger At(d, i)} :: 0 <= i < 1024 ==> At(d, i) == 0
    {
      var f;
      ok, f := AllocFrame();
      if !ok {
        return false, 0;
      }
      ok, d := AllocFrame();
      if !ok {
        return false, 0;
      }
      EmptyDirectory(d, f);
    }

    method EmptyDirectory(d: nat, f: nat)
      requires Valid() && Spare(d) && Spare(f) && d != f
      modifies this`dirs, this`header, this`home, frames
      ensures Valid() && Kept({}) && dirs == old(dirs) + {d} && |home| + |dirs| == old(|home| + |dirs|) + 2
      ensures forall i {:trigger At(d, i)} :: 0 <= i < 1024 ==> At(d, i) == 0
    {
      ZeroFrame(d);
      OffDirectories(d);
      dirs, header, home := dirs + {d}, header[d := f], home[f := Header(d)];
      assert forall i {:trigger At(d, i)} :: 0 <= i < 1024 ==> At(d, i) == 0;
      forall c, i | c in dirs && c != d && 0 <= i < 1024
        ensures EntryOk(c, i)
      {
        assert old(EntryOk(c, i));
      }
      AddDirectory(d);
    }

    /** A directory of zeros may join. */
    lemma AddDirectory(d: nat)
      requires Sizes() && d in dirs && Owned()
      requires forall i {:trigger At(d, i)} :: 0 <= i < 1024 ==> At(d, i) == 0
      requires forall c, i {:trigger EntryOk(c, i)} :: c in dirs && c != d && 0 <= i < 1024 ==> EntryOk(c, i)
      ensures Linked()
    {
      forall c, i | c in dirs && 0 <= i < 1024
        ensures EntryOk(c, i)
      {
        if c == d {
          assert At(d, i) == 0;
        }
      }
    }

    /** vmm_clone_kernel_context: the kernel's present entries replace those of a directory. */
    method CloneKernel(d: nat)
      requires Valid() && d in dirs && d != kernel
      modifies frames
      ensures Valid() && Kept({d})
      ensures forall i {:trigger At(d, i)} :: 0 <= i < 1024 ==>
        At(d, i) == old(if Present(At(kernel, i)) then At(kernel, i) else At(d, i))
      ensures forall i {:trigger Follows(d, i)} :: 0 <= i < 1024 ==> Follows(d, i)
    {
      for i := 0 to 1024
        invariant forall c {:trigger frames[c]} :: 0 <= c < frames.Length && c != d ==> frames[c] == old(frames[c])
        invariant forall k {:trigger frames[d][k]} :: 0 <= k < 1024 ==>
          frames[d][k] == if k < i && Present(old(At(kernel, k))) then old(At(kernel, k)) else old(At(d, k))
      {
        if frames[kernel][i] % 2 == 1 {
          frames[d] := frames[d][i := frames[kernel][i]];
        }
      }
      forall c, i | c in dirs && 0 <= i < 1024
        ensures EntryOk(c, i)
      {
        assert old(EntryOk(c, i)) && old(EntryOk(kernel, i));
      }
      forall t, i | 0 <= t < 32 && tasks[t].active && 0 <= i < 1024
        ensures Follows(tasks[t].context, i)
      {
        assert old(Follows(tasks[t].context, i));
      }
    }

    // ----- tasks -----

    /** init_task, as far as contexts go: a context of its own with the kernel's entries. */
    method StartTask(slot: nat) returns (ok: bool)
      requires Valid() && slot < 32 && !tasks[slot].active
      modifies this`dirs, this`header, this`home, used, frames, tasks
      ensures Valid() && Kept({}) && ok == (old(FreeTables()) >= 2)
      ensures FreeTables() == if ok then old(FreeTables()) - 2 else 0
      ensures ok ==> Ledger() == old(Ledger()) && dirs == old(dirs) + {tasks[slot].context}
      ensures if ok then tasks[slot].active && !tasks[slot].thread && tasks[slot].context !in old(dirs) else dirs == old(dirs) && !tasks[slot].active
      ensures ok ==> forall i {:trigger At(tasks[slot].context, i)} :: 0 <= i < 1024 ==>
        At(tasks[slot].context, i) == if Present(At(kernel, i)) then At(kernel, i) else 0
      ensures forall t {:trigger tasks[t]} :: 0 <= t < 32 && t != slot ==>
        tasks[t] == old(tasks[t])
    {
      var d;
      ok, d := TaskContext();
      if ok {
        Enter(slot, d, false);
      }
    }

    /** A new context with the kernel's entries. */
    method TaskContext() returns (ok: bool, d: nat)
      requires Valid()
      modifies this`dirs, this`header, this`home, used, frames
      ensures Valid() && Kept({}) && ok == (old(FreeTables()) >= 2)
      ensures FreeTables() == if ok then old(FreeTables()) - 2 else 0
      ensures if ok then d !in old(dirs) && dirs == old(dirs) + {d} && Ledger() == old(Ledger()) else dirs == old(dirs)
      ensures ok ==> forall i {:trigger Follows(d, i)} :: 0 <= i < 1024 ==> Follows(d, i)
      ensures ok ==> forall i {:trigger At(d, i)} :: 0 <= i < 1024 ==>
        At(d, i) == if Present(At(kernel, i)) then At(kernel, i) else 0
    {
      ok, d := CreateContext();
      if ok {
        CloneKernel(d);
      }
    }

    method Enter(slot: nat, d: nat, isThread: bool)
      requires Valid() && slot < 32 && !tasks[slot].active && d in dirs && d != kernel
      requires forall i {:trigger Follows(d, i)} :: 0 <= i < 1024 ==> Follows(d, i)
      modifies tasks
      ensures Valid() && tasks[slot].active && tasks[slot].context == d && tasks[slot].thread == isThread
      ensures forall t {:trigger tasks[t]} :: 0 <= t < 32 && t != slot ==>
        tasks[t] == old(tasks[t])
    {
      tasks[slot] := Task(true, isThread, d);
      forall t, i | 0 <= t < 32 && tasks[t].active && 0 <= i < 1024
        ensures Follows(tasks[t].context, i)
      {
        if t != slot {
          assert old(Follows(tasks[t].context, i));
        } else {
          assert Follows(d, i);
        }
      }
    }

    /** A thread shares the context of its parent. */
    method StartThread(slot: nat, parent: nat)
      requires Valid() && slot < 32 && !tasks[slot].active && parent < 32 && tasks[parent].active
      modifies tasks
      ensures Valid() && tasks[slot].active && tasks[slot].thread && tasks[slot].context == old(tasks[parent].context)
      ensures forall t {:trigger tasks[t]} :: 0 <= t < 32 && t != slot ==>
        tasks[t] == old(tasks[t])
    {
      assert tasks[parent].context in dirs;
      assert forall i {:trigger Follows(tasks[parent].context, i)} :: 0 <= i < 1024 ==> Follows(tasks[parent].context, i);
      Enter(slot, tasks[parent].context, true);
    }

    // ----- the end of a context -----

    /** Entry `j` of a table maps frame `f`. */
    ghost predicate PageAt(table: nat, j: nat, f: nat)
      reads frames
      requires table < frames.Length && j < 1024
    {
      Present(At(table, j)) && FrameOf(At(table, j)) == f
    }

    /** Entry `i` of directory `d` is its own, and frame `f` is the table or a page of it. */
    ghost predicate Gives(d: nat, i: nat, f: nat)
      reads this`kernel, frames
      requires d < frames.Length && kernel < frames.Length && i < 1024
    {
      && Present(At(d, i)) && !Present(At(kernel, i)) && FrameOf(At(d, i)) < frames.Length
      && (f == FrameOf(At(d, i)) || PageBelow(FrameOf(At(d, i)), 1024, f))
    }

    /** One of the first `n` entries of a table maps frame `f`. */
    ghost predicate PageBelow(table: nat, n: nat, f: nat)
      reads frames
      requires table < frames.Length && n <= 1024
    {
      exists j {:trigger PageAt(table, j, f)} :: 0 <= j < n && PageAt(table, j, f)
    }

    lemma NextPage(table: nat, n: nat, f: nat)
      requires table < frames.Length && n < 1024
      ensures PageBelow(table, n + 1, f) == (PageBelow(table, n, f) || PageAt(table, n, f))
    {
    }

    /** Where the kernel has no table, only frames that are not for paging structures are mapped. */
    ghost predicate Tame()
      reads this, used, frames
      requires Sizes() && Owned()
    {
      forall c, ptr {:trigger Translate(c, ptr)} :: c in dirs && 0 <= ptr < 0x1_0000_0000 ==>
        Present(At(kernel, DirIndex(ptr))) || Plain(Translate(c, ptr))
    }

    ghost predicate Plain(phys: Option<nat>) {
      phys.Some? ==> phys.value / 4096 < |forTables| && !forTables[phys.value / 4096]
    }

    /** A new context that has the kernel's entries and no others keeps contexts tame. */
    twostate lemma FreshTame(d: nat)
      requires old(Valid()) && old(Tame()) && Valid() && Kept({}) && d in dirs && dirs <= old(dirs) + {d}
      requires d in old(dirs) || forall i {:trigger At(d, i)} :: 0 <= i < 1024 ==> At(d, i) == 0 || Present(At(kernel, i))
      ensures Tame()
    {
      KeptWords();
      forall c, ptr | c in dirs && 0 <= ptr < 0x1_0000_0000
        ensures Present(At(kernel, DirIndex(ptr))) || Plain(Translate(c, ptr))
      {
        if c in old(dirs) {
          assert Word(c, ptr) == old(Word(c, ptr));
          assert old(Present(At(kernel, DirIndex(ptr)))) || Plain(old(Translate(c, ptr)));
        } else {
          assert At(d, DirIndex(ptr)) == 0 || Present(At(kernel, DirIndex(ptr)));
        }
      }
    }

    /** The pages of a table of its own are not frames for paging structures. */
    ghost predicate PagesPlain(d: nat, i: nat)
      reads this`kernel, frames
      requires Sizes() && d < frames.Length && kernel < frames.Length && i < 1024
    {
      Present(At(d, i)) && !Present(At(kernel, i)) && FrameOf(At(d, i)) < frames.Length ==>
        forall j, f: nat {:trigger PageAt(FrameOf(At(d, i)), j, f)} :: 0 <= j < 1024 && PageAt(FrameOf(At(d, i)), j, f) ==>
          f < |forTables| && !forTables[f]
    }

    lemma TamePages(d: nat, i: nat)
      requires Valid() && Tame() && d in dirs && i < 1024
      ensures PagesPlain(d, i)
    {
      if Present(At(d, i)) && !Present(At(kernel, i)) {
        assert EntryOk(d, i);
        forall j, f: nat | 0 <= j < 1024 && PageAt(FrameOf(At(d, i)), j, f)
          ensures f < |forTables| && !forTables[f]
        {
          var ptr := 4096 * (1024 * i + j);
          assert DirIndex(ptr) == i && TableIndex(ptr) == j;
          assert Translate(d, ptr) == Some(4096 * f + 0);
        }
      }
    }

    /** The inner loop of vmm_destroy_context: free the pages of one table. */
    method FreePages(d: nat, i: nat)
      requires Sound() && d < frames.Length && i < 1024 && Present(At(d, i))
      requires EntryOk(d, i) && Follows(d, i) && PagesPlain(d, i)
      modifies used
      ensures Sound() && Ledger() == old(Ledger())
      ensures forall f {:trigger used[f]} :: 0 <= f < used.Length ==>
        used[f] == (old(used[f]) && (f == FrameOf(At(d, i)) || !Gives(d, i, f)))
    {
      var table := frames[d][i] / 4096;
      for j := 0 to 1024
        invariant forall f {:trigger used[f]} :: 0 <= f < used.Length ==>
          used[f] == (old(used[f]) && (Present(At(kernel, i)) || !PageBelow(table, j, f)))
      {
        forall f: nat | f < used.Length
          ensures PageBelow(table, j + 1, f) == (PageBelow(table, j, f) || PageAt(table, j, f))
        {
          NextPage(table, j, f);
        }
        if frames[table][j] % 2 == 1 {
          if !(frames[kernel][i] % 2 == 1 && frames[frames[kernel][i] / 4096][j] % 2 == 1) {
            assert PageAt(table, j, FrameOf(At(table, j)));
            used[frames[table][j] / 4096] := false;
          }
        }
      }
      SameFree(used[..], old(used[..]), forTables);
    }

    /** pmm_free of a frame for paging structures. */
    method ClearBit(f: nat)
      requires Sizes() && Held(f)
      modifies used
      ensures FreeTables() == old(FreeTables()) + 1
      ensures forall g {:trigger used[g]} :: 0 <= g < used.Length ==> used[g] == (old(used[g]) && g != f)
    {
      used[f] := false;
      assert old(used[..]) == used[..][f := true];
      OneFewer(used[..], forTables, f);
    }

    /** pmm_free of a frame that was part of a context that is gone. */
    method Release(f: nat)
      requires Sound() && f in home && home[f].owner !in dirs
      modifies this`home, used
      ensures Sound() && home == old(home) - {f} && Ledger() == old(Ledger())
      ensures forall g {:trigger used[g]} :: 0 <= g < used.Length ==> used[g] == (old(used[g]) && g != f)
    {
      ClearBit(f);
      home := home - {f};
      assert old(home) == home[f := old(home)[f]];
      forall c, i | c in dirs && 0 <= i < 1024
        ensures EntryOk(c, i)
      {
        assert old(EntryOk(c, i));
      }
    }

    /** Frame `f` is given back with the first `n` entries of directory `d`. */
    ghost predicate GivenBack(d: nat, n: nat, f: nat)
      reads this`kernel, frames
      requires d < frames.Length && kernel < frames.Length && n <= 1024
    {
      exists i {:trigger Gives(d, i, f)} :: 0 <= i < n && Gives(d, i, f)
    }

    /** Directory `d` maps frame `f` at `ptr`, by a table of its own. */
    ghost predicate MapsOwn(d: nat, ptr: nat, f: nat)
      reads this`kernel, frames
      requires d < frames.Length && kernel < frames.Length
    {
      && ptr < 0x1_0000_0000 && !Present(At(kernel, DirIndex(ptr)))
      && Translate(d, ptr).Some? && Translate(d, ptr).value / 4096 == f
    }

    /** Which pages are given back: exactly those that the directory itself maps. So a page that another
        directory maps stays allocated if and only if this one does not map it too. */
    lemma PagesGivenBack(d: nat, f: nat)
      requires Valid() && Tame() && d in dirs && f < |forTables| && !forTables[f]
      ensures f != d && f != header[d]
      ensures GivenBack(d, 1024, f) <==> exists ptr: nat :: MapsOwn(d, ptr, f)
    {
      assert header[d] in home;
      if GivenBack(d, 1024, f) {
        var i: nat :| i < 1024 && Gives(d, i, f);
        assert EntryOk(d, i);
        var j: nat :| j < 1024 && PageAt(FrameOf(At(d, i)), j, f);
        var ptr := 4096 * (1024 * i + j);
        assert DirIndex(ptr) == i && TableIndex(ptr) == j;
        assert MapsOwn(d, ptr, f);
      }
      if ptr: nat :| MapsOwn(d, ptr, f) {
        var i, j := DirIndex(ptr), TableIndex(ptr);
        assert PageAt(FrameOf(At(d, i)), j, f);
        assert Gives(d, i, f);
      }
    }

    /** vmm_destroy_context: its tables and their pages are given back, and its own two frames. */
    method DestroyContext(d: nat)
      requires Valid() && Tame() && d in dirs && d != kernel
      requires forall i {:trigger Follows(d, i)} :: 0 <= i < 1024 ==> Follows(d, i)
      modifies this`dirs, this`header, this`home, used
      ensures Sound() && dirs == old(dirs) - {d} && header == old(header) - {d} && Ledger() == old(Ledger())
      ensures forall f {:trigger used[f]} :: 0 <= f < used.Length ==>
        used[f] == (old(used[f]) && f != d && f != old(header[d]) && !GivenBack(d, 1024, f))
    {
      forall i {:trigger PagesPlain(d, i)} | 0 <= i < 1024
        ensures PagesPlain(d, i)
      {
        TamePages(d, i);
      }
      Dismantle(d);
    }

    method Dismantle(d: nat)
      requires Sound() && d in dirs && d != kernel
      requires forall i {:trigger Follows(d, i)} :: 0 <= i < 1024 ==> Follows(d, i)
      requires forall i {:trigger PagesPlain(d, i)} :: 0 <= i < 1024 ==> PagesPlain(d, i)
      modifies this`dirs, this`header, this`home, used
      ensures Sound() && dirs == old(dirs) - {d} && header == old(header) - {d} && Ledger() == old(Ledger())
      ensures forall f {:trigger used[f]} :: 0 <= f < used.Length ==>
        used[f] == (old(used[f]) && f != d && f != old(header[d]) && !GivenBack(d, 1024, f))
    {
      var h := header[d];
      Detach(d);
      Strip(d, h);
    }

    /** The frames of a directory that is one no longer. */
    method Strip(d: nat, h: nat)
      requires Sound() && d !in dirs && IsHeader(d, d) && IsHeader(h, d) && d != h
      requires forall i {:trigger Follows(d, i)} :: 0 <= i < 1024 ==> Follows(d, i)
      requires forall i {:trigger PagesPlain(d, i)} :: 0 <= i < 1024 ==> PagesPlain(d, i)
      requires forall k {:trigger EntryOk(d, k)} :: 0 <= k < 1024 ==> EntryOk(d, k)
      modifies this`home, used
      ensures Sound() && Ledger() == old(Ledger())
      ensures forall f {:trigger used[f]} :: 0 <= f < used.Length ==>
        used[f] == (old(used[f]) && f != d && f != h && !GivenBack(d, 1024, f))
    {
      DropEntries(d);
      ReleaseBoth(d, h);
    }

    /** Frame `f` is kept for directory `d`, and is no table. */
    ghost predicate IsHeader(f: nat, d: nat)
      reads this`home
    {
      f in home && home[f] == Header(d)
    }

    /** The frame of a directory that is gone, and that of its header. */
    method ReleaseBoth(d: nat, h: nat)
      requires Sound() && d !in dirs && IsHeader(d, d) && IsHeader(h, d) && d != h
      modifies this`home, used
      ensures Sound() && Ledger() == old(Ledger())
      ensures forall f {:trigger used[f]} :: 0 <= f < used.Length ==> used[f] == (old(used[f]) && f != d && f != h)
    {
      Release(h);
      Release(d);
    }

    /** All entries of a directory that is going away. */
    method DropEntries(d: nat)
      requires Sound() && d !in dirs && d < frames.Length
      requires forall i {:trigger Follows(d, i)} :: 0 <= i < 1024 ==> Follows(d, i)
      requires forall i {:trigger PagesPlain(d, i)} :: 0 <= i < 1024 ==> PagesPlain(d, i)
      requires forall k {:trigger EntryOk(d, k)} :: 0 <= k < 1024 ==> EntryOk(d, k)
      modifies this`home, used
      ensures Sound() && Ledger() == old(Ledger())
      ensures forall f {:trigger IsHeader(f, d)} :: old(IsHeader(f, d)) ==> IsHeader(f, d)
      ensures forall f {:trigger used[f]} :: 0 <= f < used.Length ==> used[f] == (old(used[f]) && !GivenBack(d, 1024, f))
    {
      for i := 0 to 1024
        invariant Sound() && Ledger() == old(Ledger())
        invariant forall f {:trigger IsHeader(f, d)} :: old(IsHeader(f, d)) ==> IsHeader(f, d)
        invariant forall k {:trigger EntryOk(d, k)} :: i <= k < 1024 ==> EntryOk(d, k)
        invariant forall f {:trigger used[f]} :: 0 <= f < used.Length ==> used[f] == (old(used[f]) && !GivenBack(d, i, f))
      {
        DropNext(d, i, old(used[..]));
      }
    }

    method DropNext(d: nat, i: nat, ghost was: seq<bool>)
      requires Sound() && d !in dirs && d < frames.Length && i < 1024 && |was| == used.Length
      requires Follows(d, i) && PagesPlain(d, i)
      requires forall k {:trigger EntryOk(d, k)} :: i <= k < 1024 ==> EntryOk(d, k)
      requires forall f {:trigger used[f]} :: 0 <= f < used.Length ==> used[f] == (was[f] && !GivenBack(d, i, f))
      modifies this`home, used
      ensures Sound() && Ledger() == old(Ledger())
      ensures forall f {:trigger IsHeader(f, d)} :: old(IsHeader(f, d)) ==> IsHeader(f, d)
      ensures forall k {:trigger EntryOk(d, k)} :: i < k < 1024 ==> EntryOk(d, k)
      ensures forall f {:trigger used[f]} :: 0 <= f < used.Length ==> used[f] == (was[f] && !GivenBack(d, i + 1, f))
    {
      NextGiven(d, i);
      DropEntry(d, i);
    }

    lemma NextGiven(d: nat, n: nat)
      requires d < frames.Length && kernel < frames.Length && n < 1024
      ensures forall f: nat {:trigger GivenBack(d, n + 1, f)} :: GivenBack(d, n + 1, f) == (GivenBack(d, n, f) || Gives(d, n, f))
    {
    }

    /** The directory is one no longer, but its frame is still held. */
    method Detach(d: nat)
      requires Sound() && d in dirs && d != kernel
      modifies this`dirs, this`header, this`home
      ensures Sound() && dirs == old(dirs) - {d} && header == old(header) - {d} && Ledger() == old(Ledger())
      ensures home == old(home)[d := Header(d)]
      ensures forall k {:trigger EntryOk(d, k)} :: 0 <= k < 1024 ==> EntryOk(d, k)
    {
      dirs, header, home := dirs - {d}, header - {d}, home[d := Header(d)];
      forall c, i | c in dirs && 0 <= i < 1024
        ensures EntryOk(c, i)
      {
        assert old(EntryOk(c, i));
      }
      forall k | 0 <= k < 1024
        ensures EntryOk(d, k)
      {
        assert old(EntryOk(d, k));
      }
    }

    /** One entry of a directory that is going away. */
    method DropEntry(d: nat, i: nat)
      requires Sound() && d !in dirs && d < frames.Length && i < 1024
      requires Follows(d, i) && PagesPlain(d, i)
      requires forall k {:trigger EntryOk(d, k)} :: i <= k < 1024 ==> EntryOk(d, k)
      modifies this`home, used
      ensures Sound() && Ledger() == old(Ledger())
      ensures forall f {:trigger IsHeader(f, d)} :: old(IsHeader(f, d)) ==> IsHeader(f, d)
      ensures forall k {:trigger EntryOk(d, k)} :: i < k < 1024 ==> EntryOk(d, k)
      ensures forall f {:trigger used[f]} :: 0 <= f < used.Length ==> used[f] == (old(used[f]) && !Gives(d, i, f))
    {
      assert EntryOk(d, i);
      if frames[d][i] % 2 == 1 {
        FreePages(d, i);
        if frames[kernel][i] % 2 == 0 {
          Release(frames[d][i] / 4096);
        }
      }
      forall k | i < k < 1024
        ensures EntryOk(d, k)
      {
        assert old(EntryOk(d, k));
      }
    }

    /** No active task has directory `d`. */
    ghost predicate Unused(d: nat)
      reads tasks
      requires Sizes()
    {
      forall t {:trigger tasks[t]} :: 0 <= t < 32 && tasks[t].active ==> tasks[t].context != d
    }

    /** When a directory is gone, the state is valid exactly if no active task had it. */
    twostate lemma DirectoryGone(d: nat)
      requires old(Valid()) && Sound() && d != kernel && kernel == old(kernel) && dirs == old(dirs) - {d}
      requires frames[..] == old(frames[..]) && tasks[..] == old(tasks[..])
      ensures Valid() <==> Unused(d)
    {
      assert forall c {:trigger frames[c]} :: 0 <= c < frames.Length ==> frames[c] == old(frames[..])[c];
      assert forall t {:trigger tasks[t]} :: 0 <= t < 32 ==> tasks[t] == old(tasks[..])[t];
      if Unused(d) {
        forall t, i | 0 <= t < 32 && tasks[t].active && 0 <= i < 1024
          ensures tasks[t].context in dirs && Follows(tasks[t].context, i)
        {
          assert old(Follows(tasks[t].context, i));
        }
      }
    }

    /** No other active task has the context of this slot. */
    ghost predicate Alone(slot: nat)
      reads tasks
      requires Sizes() && slot < 32
    {
      forall t {:trigger tasks[t]} :: 0 <= t < 32 && t != slot && tasks[t].active ==>
        tasks[t].context != tasks[slot].context
    }

    /** The slot as a task leaves it. */
    twostate predicate Left(slot: nat)
      reads tasks
      requires Sizes() && slot < 32
    {
      forall t {:trigger tasks[t]} :: 0 <= t < 32 ==>
        tasks[t] == if t == slot then old(tasks[t]).(active := false) else old(tasks[t])
    }

    /** exit_task, as far as contexts go. The context of a task that is no thread is destroyed, which
        leaves a valid state exactly if no thread of it is active. */
    method ExitTask(slot: nat)
      requires Valid() && Tame() && slot < 32 && tasks[slot].active
      modifies this`dirs, this`header, this`home, used, tasks
      ensures Sound() && Ledger() == old(Ledger()) && Left(slot)
      ensures Valid() <==> tasks[slot].thread || old(Alone(slot))
      ensures dirs == old(dirs) - if tasks[slot].thread then {} else {tasks[slot].context}
      ensures var d := tasks[slot].context;
        forall f {:trigger used[f]} :: 0 <= f < used.Length ==>
          used[f] == (old(used[f]) && (tasks[slot].thread || (f != d && f != old(header[d]) && !GivenBack(d, 1024, f))))
    {
      if tasks[slot].thread {
        Leave(slot);
      } else {
        EndTask(slot);
      }
    }

    method EndTask(slot: nat)
      requires Valid() && Tame() && slot < 32 && tasks[slot].active
      modifies this`dirs, this`header, this`home, used, tasks
      ensures Sound() && Ledger() == old(Ledger()) && Left(slot) && dirs == old(dirs) - {tasks[slot].context}
      ensures Valid() <==> old(Alone(slot))
      ensures var d := tasks[slot].context;
        forall f {:trigger used[f]} :: 0 <= f < used.Length ==>
          used[f] == (old(used[f]) && f != d && f != old(header[d]) && !GivenBack(d, 1024, f))
    {
      var d := tasks[slot].context;
      assert d in dirs && d != kernel;
      assert forall i {:trigger Follows(d, i)} :: 0 <= i < 1024 ==> Follows(tasks[slot].context, i);
      Leave(slot);
      label left:
      DestroyContext(d);
      DirectoryGone@left(d);
    }

    method Leave(slot: nat)
      requires Valid() && slot < 32 && tasks[slot].active
      modifies tasks
      ensures Valid() && Left(slot) && (Unused(old(tasks[slot].context)) <==> old(Alone(slot)))
    {
      tasks[slot] := tasks[slot].(active := false);
      assert forall t {:trigger old(tasks[t])} :: 0 <= t < 32 && t != slot ==> tasks[t] == old(tasks[t]);
      forall t, i | 0 <= t < 32 && tasks[t].active && 0 <= i < 1024
        ensures Follows(tasks[t].context, i)
      {
        assert old(Follows(tasks[t].context, i));
      }
    }

    /** The slots of active tasks with directory `c`. */
    ghost function SlotsOf(c: nat): set<nat>
      reads tasks
      requires Sizes()
    {
      set t | 0 <= t < 32 && tasks[t].active && tasks[t].context == c
    }

    /** Directory `c` is there, with the same page table entries. */
    twostate predicate Unchanged(c: nat)
      reads this`dirs, frames
      requires c < frames.Length
    {
      c in dirs && forall ptr {:trigger Word(c, ptr)} :: 0 <= ptr < 0x1_0000_0000 ==> Word(c, ptr) == old(Word(c, ptr))
    }

    /** If an event has nothing to do with the tasks of directory `c`, that is as before. */
    twostate predicate Beside(e: Event, c: nat)
      reads this`dirs, frames, tasks
      requires Sizes() && c < frames.Length
    {
      Aloof(e, old(SlotsOf(c))) ==> SlotsOf(c) <= old(SlotsOf(c)) && Unchanged(c)
    }

    /** The event can happen. */
    ghost predicate Possible(e: Event)
      reads this, used, frames, tasks
      requires Valid()
    {
      match e
      case Start(slot) => slot < 32 && !tasks[slot].active && FreeTables() >= 2
      case Thread(slot, parent) => slot < 32 && !tasks[slot].active && parent < 32 && tasks[parent].active
      case Exit(slot) => slot < 32 && tasks[slot].active && (tasks[slot].thread || Alone(slot))
      case MapTask(slot, virt, phys, flags) =>
        && slot < 32 && tasks[slot].active && virt < 0x1_0000_0000 && flags < 4096
        && phys / 4096 < |forTables| && !forTables[phys / 4096] && MayMap(tasks[slot].context, virt, phys)
      case MapKernel(virt, phys, flags) =>
        virt < 0x1_0000_0000 && phys < 0x1_0000_0000 && flags < 4096 && MayMap(kernel, virt, phys)
    }

    /** It did. */
    twostate predicate Done(e: Event)
      reads this, used, frames, tasks
      requires old(Valid()) && old(Possible(e)) && Valid() && kernel == old(kernel)
    {
      match e
      case Start(slot) => tasks[slot].active && !tasks[slot].thread && tasks[slot].context !in old(dirs)
      case Thread(slot, parent) => tasks[slot] == Task(true, true, old(tasks[parent].context))
      case Exit(slot) => Left(slot)
      case MapTask(slot, virt, phys, flags) => Rewrites(true, old(tasks[slot].context), virt, phys, flags)
      case MapKernel(virt, phys, flags) => Rewrites(true, kernel, virt, phys, flags)
    }

    /** A mapping in directory `d` that no error stands against. */
    ghost predicate MayMap(d: nat, virt: nat, phys: nat)
      reads this, used, frames, tasks
      requires Valid() && d in dirs && virt < 0x1_0000_0000
    {
      virt % 4096 == phys % 4096 == 0 && !Overlap(d, DirIndex(virt)) && (Present(At(d, DirIndex(virt))) || FreeTables() > 0)
    }

    // ----- mapping -----

    /** The directories that receive a new kernel entry: those of the first `n` slots' active tasks. */
    ghost function Receivers(n: nat): set<nat>
      reads tasks
      requires Sizes() && n <= 32
    {
      set t | 0 <= t < n && tasks[t].active :: tasks[t].context
    }

    /** A new directory entry, copied to every active task if it is the kernel's. */
    method SetDirEntry(d: nat, pd: nat, entry: nat)
      requires Valid() && d in dirs && pd < 1024
      modifies frames
      ensures forall c {:trigger frames[c]} :: 0 <= c < frames.Length ==>
        frames[c] == if c == d || (d == kernel && c in Receivers(32)) then old(frames[c])[pd := entry] else old(frames[c])
    {
      frames[d] := frames[d][pd := entry];
      if d == kernel {
        for t := 0 to 32
          invariant forall c {:trigger frames[c]} :: 0 <= c < frames.Length ==>
            frames[c] == if c == d || c in Receivers(t) then old(frames[c])[pd := entry] else old(frames[c])
        {
          if tasks[t].active {
            assert tasks[t].context in dirs;
            frames[tasks[t].context] := frames[tasks[t].context][pd := frames[d][pd]];
          }
        }
      }
    }

    /** A directory that a new entry of `d` is written to. */
    ghost predicate Receives(c: nat, d: nat)
      reads this`kernel, tasks
      requires Sizes()
    {
      c == d || (d == kernel && c in Receivers(32))
    }

    /** A frame of zeros, not yet used as a table. */
    method ZeroTable() returns (ok: bool, table: nat)
      requires Valid()
      modifies used, frames
      ensures Valid() && ok == (old(FreeTables()) > 0) && FreeTables() == if ok then old(FreeTables()) - 1 else 0
      ensures Kept({}) && (!ok ==> frames[..] == old(frames[..]))
      ensures ok ==> Spare(table) && forall j {:trigger At(table, j)} :: 0 <= j < 1024 ==> At(table, j) == 0
    {
      ok, table := AllocFrame();
      if !ok {
        return;
      }
      ZeroFrame(table);
      OffDirectories(table);
    }

    /** A table of zeros becomes the one for index `pd` of a directory that has none there, and of those
        that receive it. */
    method InstallTable(d: nat, pd: nat, table: nat, flags: nat)
      requires Valid() && d in dirs && pd < 1024 && flags < 4096
      requires !Present(At(d, pd)) && !Overlap(d, pd) && Spare(table)
      requires forall j {:trigger At(table, j)} :: 0 <= j < 1024 ==> At(table, j) == 0
      modifies this`home, frames
      ensures Valid() && home == old(home)[table := Table(pd, d)] && DirGrows(true, d, pd, flags)
      ensures forall c {:trigger Uses(c, pd, table)} :: c in dirs ==> Uses(c, pd, table) == Receives(c, d)
      ensures forall c, ptr {:trigger Word(c, ptr)} :: c in dirs && 0 <= ptr < 0x1_0000_0000 ==>
        Word(c, ptr) == if Receives(c, d) && DirIndex(ptr) == pd then Some(0) else old(Word(c, ptr))
    {
      LinkTable(d, pd, table, TableEntry(table, flags));
      forall c, ptr | c in dirs && 0 <= ptr < 0x1_0000_0000
        ensures Word(c, ptr) == if Receives(c, d) && DirIndex(ptr) == pd then Some(0) else old(Word(c, ptr))
      {
        var i := DirIndex(ptr);
        assert old(EntryOk(c, i));
        if i == pd && Receives(c, d) {
          assert At(table, TableIndex(ptr)) == 0;
        } else {
          assert At(c, i) == old(At(c, i));
        }
      }
      forall c | c in dirs
        ensures Uses(c, pd, table) == Receives(c, d)
      {
        assert old(EntryOk(c, pd));
      }
    }

    method LinkTable(d: nat, pd: nat, table: nat, entry: nat)
      requires Valid() && d in dirs && pd < 1024 && Present(entry) && FrameOf(entry) == table
      requires !Present(At(d, pd)) && !Overlap(d, pd) && Spare(table)
      modifies this`home, frames
      ensures Valid() && home == old(home)[table := Table(pd, d)]
      ensures forall c, i {:trigger At(c, i)} :: 0 <= c < frames.Length && 0 <= i < 1024 ==>
        At(c, i) == if c in dirs && Receives(c, d) && i == pd then entry else old(At(c, i))
    {
      SetDirEntry(d, pd, entry);
      home := home[table := Table(pd, d)];
      forall c: nat | c < frames.Length && Receives(c, d)
        ensures c in dirs
      {
      }
      forall c, i | c in dirs && 0 <= i < 1024
        ensures EntryOk(c, i)
      {
        assert old(EntryOk(c, i));
      }
      forall t, i | 0 <= t < 32 && tasks[t].active && 0 <= i < 1024
        ensures Follows(tasks[t].context, i)
      {
        assert old(Follows(tasks[t].context, i));
        assert tasks[t].context in Receivers(32);
      }
    }

    /** An entry of a page table: it changes for those who use the table, and nothing else does. */
    method SetTableEntry(table: nat, pt: nat, value: nat)
      requires Valid() && table in home && pt < 1024
      modifies frames
      ensures Valid() && DirGrows(false, 0, 0, 0)
      ensures forall c, ptr {:trigger Word(c, ptr)} :: c in dirs && 0 <= ptr < 0x1_0000_0000 ==>
        Word(c, ptr) ==
          if old(Uses(c, DirIndex(ptr), table)) && TableIndex(ptr) == pt then Some(value) else old(Word(c, ptr))
    {
      frames[table] := frames[table][pt := value];
      OffDirectories(table);
      forall c, ptr | c in dirs && 0 <= ptr < 0x1_0000_0000
        ensures Word(c, ptr) ==
          if old(Uses(c, DirIndex(ptr), table)) && TableIndex(ptr) == pt then Some(value) else old(Word(c, ptr))
      {
        assert EntryOk(c, DirIndex(ptr)) && At(c, DirIndex(ptr)) == old(At(c, DirIndex(ptr)));
      }
    }

    /** A task may not map where the kernel has a table. */
    ghost predicate Overlap(d: nat, pd: nat)
      reads this`kernel, frames
      requires kernel < frames.Length && pd < 1024
    {
      d != kernel && Present(At(kernel, pd))
    }

    /** The kernel has a table where it had one before, and at `pd` if `added`. */
    twostate predicate KernelGrows(added: bool, pd: nat)
      reads this`kernel, frames
      requires kernel < frames.Length && old(kernel) < frames.Length
    {
      forall i {:trigger At(kernel, i)} :: 0 <= i < 1024 ==>
        (Present(At(kernel, i)) <==> old(Present(At(kernel, i))) || (added && i == pd))
    }

    /** Directory entries are as before, whole words of them, but for one at `pd` if `added`: that is
        present, has the flags asked for, and is the same in all directories that receive it. */
    twostate predicate DirGrows(added: bool, d: nat, pd: nat, flags: nat)
      reads this, used, frames, tasks
      requires Sizes() && Owned() && (added ==> d < frames.Length && pd < 1024)
    {
      && (forall c, i {:trigger At(c, i)} :: c in dirs && 0 <= i < 1024 ==>
            At(c, i) == if added && Receives(c, d) && i == pd then At(d, pd) else old(At(c, i)))
      && (added ==> Present(At(d, pd)) && At(d, pd) % 4096 == flags - flags % 2 + 1)
    }

    /** Then the kernel has a table where it had one, and at `pd` if it was added there. */
    twostate lemma KernelGrew(m: Mapping)
      requires Valid() && m.dir in dirs && m.virt < 0x1_0000_0000 && kernel == old(kernel)
      requires DirGrows(m.done && !old(Present(At(m.dir, DirIndex(m.virt)))), m.dir, DirIndex(m.virt), m.flags)
      ensures KernelGrows(m.dir == kernel && m.done, DirIndex(m.virt))
    {
    }

    /** Directory `c` has the table of directory `d` at `pd`, once `d` has one. */
    twostate predicate Sees(c: nat, d: nat, pd: nat)
      reads this`kernel, tasks, frames
      requires Sizes() && c < frames.Length && d < frames.Length && pd < 1024
    {
      if old(Present(At(d, pd))) then old(Uses(c, pd, FrameOf(At(d, pd)))) else Receives(c, d)
    }

    /** The kernel got a table at `pd`, and the task with directory `c` has it instead of its own. */
    twostate predicate Displaced(c: nat, d: nat, pd: nat, ptr: nat)
      reads this`kernel, tasks, frames
      requires Sizes() && d < frames.Length && pd < 1024
    {
      d == kernel && c != d && c in Receivers(32) && !old(Present(At(d, pd))) && DirIndex(ptr) == pd
    }

    /** A new table, and what it does to page table entries. */
    method AddTable(d: nat, pd: nat, flags: nat) returns (ok: bool, table: nat)
      requires Valid() && d in dirs && pd < 1024 && flags < 4096 && !Overlap(d, pd) && !Present(At(d, pd))
      modifies this`home, used, frames
      ensures Valid() && ok == old(FreeTables() > 0) && Ledger() == old(Ledger())
      ensures FreeTables() == if ok then old(FreeTables()) - 1 else 0
      ensures DirGrows(ok, d, pd, flags)
      ensures ok ==> table in home && home[table] == Table(pd, d)
      ensures ok ==> forall c {:trigger Uses(c, pd, table)} :: c in dirs ==> Uses(c, pd, table) == Receives(c, d)
      ensures forall c, ptr {:trigger Word(c, ptr)} :: c in dirs && 0 <= ptr < 0x1_0000_0000 ==>
        Word(c, ptr) == if ok && Receives(c, d) && DirIndex(ptr) == pd then Some(0) else old(Word(c, ptr))
    {
      ok, table := ZeroTable();
      KeptWords();
      if ok {
        InstallTable(d, pd, table, flags);
      }
    }

    /** The page table entry for an address in directory `c` after `virt` was mapped in `d`: the new one,
        nothing yet in a table that is new, or what it was. */
    twostate function Rewritten(c: nat, ptr: nat, d: nat, virt: nat, phys: nat, flags: nat): Option<nat>
      reads this`kernel, frames, tasks
      requires Sizes() && c < frames.Length && ptr < 0x1_0000_0000
      requires d < frames.Length && virt < 0x1_0000_0000
    {
      if ptr / 4096 == virt / 4096 && Sees(c, d, DirIndex(virt)) then Some(phys + flags)
      else if !old(Present(At(d, DirIndex(virt)))) && Receives(c, d) && DirIndex(ptr) == DirIndex(virt) then Some(0)
      else old(Word(c, ptr))
    }

    /** All page table entries after `virt` was mapped in `d`, if it was. */
    twostate predicate Rewrites(done: bool, d: nat, virt: nat, phys: nat, flags: nat)
      reads this, used, frames, tasks
      requires Sound() && d < frames.Length && virt < 0x1_0000_0000
    {
      forall c, ptr {:trigger Word(c, ptr)} :: c in dirs && 0 <= ptr < 0x1_0000_0000 ==>
        Word(c, ptr) == if done then Rewritten(c, ptr, d, virt, phys, flags) else old(Word(c, ptr))
    }

    /** What one address translates to then. */
    twostate function Remapped(c: nat, ptr: nat, d: nat, virt: nat, phys: nat, flags: nat): Option<nat>
      reads this`kernel, frames, tasks
      requires Sizes() && c < frames.Length && ptr < 0x1_0000_0000
      requires d < frames.Length && virt < 0x1_0000_0000
    {
      if ptr / 4096 == virt / 4096 && Sees(c, d, DirIndex(virt)) then
        if flags % 2 == 1 then Some(phys + ptr % 4096) else None
      else if Displaced(c, d, DirIndex(virt), ptr) then None
      else old(Translate(c, ptr))
    }

    /** What every address translates to in every directory after `virt` was mapped in `d`, if it was. */
    twostate predicate Remaps(done: bool, d: nat, virt: nat, phys: nat, flags: nat)
      reads this, used, frames, tasks
      requires Sound() && d < frames.Length && virt < 0x1_0000_0000
    {
      forall c, ptr {:trigger Translate(c, ptr)} :: c in dirs && 0 <= ptr < 0x1_0000_0000 ==>
        Translate(c, ptr) == if done then Remapped(c, ptr, d, virt, phys, flags) else old(Translate(c, ptr))
    }

    /** The entries determine the translations. */
    twostate lemma EntriesTranslate(m: Mapping)
      requires old(Valid()) && Sound() && dirs == old(dirs) && m.dir in dirs && m.virt < 0x1_0000_0000
      requires m.done ==> m.phys % 4096 == 0 && m.flags < 4096
      requires Rewrites(m.done, m.dir, m.virt, m.phys, m.flags)
      ensures Remaps(m.done, m.dir, m.virt, m.phys, m.flags)
    {
      if m.done {
        InPage(m.phys, m.flags);
      }
      forall c, ptr | c in dirs && 0 <= ptr < 0x1_0000_0000 && m.done
        ensures Translate(c, ptr) == Remapped(c, ptr, m.dir, m.virt, m.phys, m.flags)
      {
        assert Word(c, ptr) == Rewritten(c, ptr, m.dir, m.virt, m.phys, m.flags);
      }
    }

    /** A mapping in the kernel, or of a frame that is not for paging structures, keeps contexts tame. */
    twostate lemma StaysTame(m: Mapping)
      requires old(Valid()) && old(Tame()) && Valid() && dirs == old(dirs) && kernel == old(kernel)
      requires m.dir in dirs && m.virt < 0x1_0000_0000 && (m.done ==> m.phys % 4096 == 0)
      requires m.dir == kernel || (m.phys / 4096 < |forTables| && !forTables[m.phys / 4096])
      requires m.done ==> m.flags < 4096
      requires Rewrites(m.done, m.dir, m.virt, m.phys, m.flags) && KernelGrows(m.dir == kernel && m.done, DirIndex(m.virt))
      ensures Tame()
    {
      EntriesTranslate(m);
      forall c, ptr | c in dirs && 0 <= ptr < 0x1_0000_0000
        ensures Present(At(kernel, DirIndex(ptr))) || Plain(Translate(c, ptr))
      {
        if m.done && ptr / 4096 == m.virt / 4096 && Sees(c, m.dir, DirIndex(m.virt)) {
          SamePage(ptr, m.virt);
          InPageOf(m.phys, ptr % 4096);
        } else {
          assert Translate(c, ptr) == None || Translate(c, ptr) == old(Translate(c, ptr));
        }
      }
    }

    /** A mapping in a task changes no other directory. */
    twostate lemma Isolated(m: Mapping)
      requires old(Valid()) && Sound() && dirs == old(dirs) && kernel == old(kernel)
      requires m.dir in dirs && m.dir != kernel && m.virt < 0x1_0000_0000 && Rewrites(m.done, m.dir, m.virt, m.phys, m.flags)
      requires m.done ==> !old(Overlap(m.dir, DirIndex(m.virt)))
      ensures forall c, ptr {:trigger Word(c, ptr)} ::
        c in dirs && c != m.dir && 0 <= ptr < 0x1_0000_0000 ==> Word(c, ptr) == old(Word(c, ptr))
    {
      var pd := DirIndex(m.virt);
      forall c | c in dirs && c != m.dir && m.done
        ensures !Sees(c, m.dir, pd)
      {
        assert old(EntryOk(c, pd)) && old(EntryOk(m.dir, pd));
      }
    }

    /** Map one page whose directory index the kernel does not forbid. */
    method MapAligned(d: nat, virt: nat, phys: nat, flags: nat) returns (ok: bool)
      requires Valid() && d in dirs && virt < 0x1_0000_0000 && phys < 0x1_0000_0000 && flags < 4096
      requires virt % 4096 == 0 && phys % 4096 == 0 && !Overlap(d, DirIndex(virt))
      modifies this`home, used, frames
      ensures Valid() && ok == old(Present(At(d, DirIndex(virt))) || FreeTables() > 0) && Ledger() == old(Ledger())
      ensures DirGrows(ok && !old(Present(At(d, DirIndex(virt)))), d, DirIndex(virt), flags)
      ensures FreeTables() ==
        old(if Present(At(d, DirIndex(virt))) || FreeTables() == 0 then FreeTables() else FreeTables() - 1)
      ensures Rewrites(ok, d, virt, phys, flags)
    {
      if frames[d][virt / 4096 / 1024] % 2 == 1 {
        MapInTable(d, virt, phys, flags);
        ok := true;
      } else {
        ok := MapInNewTable(d, virt, phys, flags);
      }
    }

    /** The directory has a table for the page. */
    method MapInTable(d: nat, virt: nat, phys: nat, flags: nat)
      requires Valid() && d in dirs && virt < 0x1_0000_0000 && phys < 0x1_0000_0000 && flags < 4096
      requires virt % 4096 == 0 && phys % 4096 == 0 && Present(At(d, DirIndex(virt)))
      modifies frames
      ensures Valid() && Rewrites(true, d, virt, phys, flags) && DirGrows(false, 0, 0, 0)
    {
      assert EntryOk(d, DirIndex(virt));
      FillEntry(virt, phys, flags, frames[d][virt / 4096 / 1024] / 4096);
    }

    /** It gets one. Translations stay, except that a task loses a table of its own where the kernel
        gets one. */
    method MapInNewTable(d: nat, virt: nat, phys: nat, flags: nat) returns (ok: bool)
      requires Valid() && d in dirs && virt < 0x1_0000_0000 && phys < 0x1_0000_0000 && flags < 4096
      requires virt % 4096 == 0 && phys % 4096 == 0 && !Overlap(d, DirIndex(virt)) && !Present(At(d, DirIndex(virt)))
      modifies this`home, used, frames
      ensures Valid() && ok == old(FreeTables() > 0) && Ledger() == old(Ledger())
      ensures FreeTables() == if ok then old(FreeTables()) - 1 else 0
      ensures DirGrows(ok, d, DirIndex(virt), flags)
      ensures Rewrites(ok, d, virt, phys, flags)
    {
      var table;
      ok, table := AddTable(d, virt / 4096 / 1024, flags);
      if ok {
        label added:
        FillEntry(virt, phys, flags, table);
        forall c, ptr | c in dirs && 0 <= ptr < 0x1_0000_0000
          ensures Word(c, ptr) == Rewritten(c, ptr, d, virt, phys, flags)
        {
          assert old@added(Uses(c, DirIndex(virt), table)) == Receives(c, d);
        }
      }
    }

    /** The entry of a page in its table. */
    method FillEntry(virt: nat, phys: nat, flags: nat, table: nat)
      requires Valid() && virt < 0x1_0000_0000
      requires table in home && home[table].Table? && home[table].index == DirIndex(virt)
      modifies frames
      ensures Valid() && DirGrows(false, 0, 0, 0)
      ensures forall c, ptr {:trigger Word(c, ptr)} :: c in dirs && 0 <= ptr < 0x1_0000_0000 ==>
        Word(c, ptr) ==
          if ptr / 4096 == virt / 4096 && old(Uses(c, DirIndex(virt), table)) then Some(phys + flags) else old(Word(c, ptr))
    {
      SetTableEntry(table, virt / 4096 % 1024, phys + flags);
      forall c, ptr | c in dirs && 0 <= ptr < 0x1_0000_0000
        ensures Word(c, ptr) ==
          if ptr / 4096 == virt / 4096 && old(Uses(c, DirIndex(virt), table)) then Some(phys + flags) else old(Word(c, ptr))
      {
        SamePage(ptr, virt);
        assert old(EntryOk(c, DirIndex(ptr)));
      }
    }

    /** vmm_map_page. Every page table entry of every context is known afterwards, whole word: the new one
        where the table is shared, nothing yet in a new table, else as it was. A mapping in a task
        changes no other context, one in the kernel is the same for all active tasks. */
    method MapPage(d: nat, virt: nat, phys: nat, flags: nat) returns (status: Status)
      requires Valid() && d in dirs && virt < 0x1_0000_0000 && phys < 0x1_0000_0000 && flags < 4096
      modifies this`home, used, frames
      ensures Valid() && Ledger() == old(Ledger())
      ensures status == Misaligned <==> virt % 4096 != 0 || phys % 4096 != 0
      ensures status == Overlapping <==> virt % 4096 == 0 && phys % 4096 == 0 && old(Overlap(d, DirIndex(virt)))
      ensures status == NoMemory <==>
        && virt % 4096 == 0 && phys % 4096 == 0 && !old(Overlap(d, DirIndex(virt)))
        && !old(Present(At(d, DirIndex(virt))) || FreeTables() > 0)
      ensures FreeTables() == old(FreeTables()) -
        if status == Mapped && !old(Present(At(d, DirIndex(virt)))) then 1 else 0
      ensures Rewrites(status == Mapped, d, virt, phys, flags)
      ensures DirGrows(status == Mapped && !old(Present(At(d, DirIndex(virt)))), d, DirIndex(virt), flags)
      ensures KernelGrows(d == kernel && status == Mapped, DirIndex(virt))
      ensures d != kernel ==> forall c, ptr {:trigger Word(c, ptr)} ::
        c in dirs && c != d && 0 <= ptr < 0x1_0000_0000 ==> Word(c, ptr) == old(Word(c, ptr))
      ensures status == Mapped ==> forall ptr {:trigger Word(d, ptr)} :: virt <= ptr < virt + 4096 ==>
        Word(d, ptr).Some? && Word(d, ptr).value / 4096 == phys / 4096 && Word(d, ptr).value % 4096 == flags
      ensures status == Mapped ==> forall ptr {:trigger Translate(d, ptr)} :: virt <= ptr < virt + 4096 ==>
        Translate(d, ptr) == if flags % 2 == 1 then Some(phys + (ptr - virt)) else None
      ensures status == Mapped && d == kernel ==> forall t, ptr {:trigger Word(tasks[t].context, ptr)} ::
        0 <= t < 32 && tasks[t].active && virt <= ptr < virt + 4096 ==> Word(tasks[t].context, ptr) == Word(kernel, ptr)
    {
      if virt % 4096 != 0 || phys % 4096 != 0 {
        status := Misaligned;
      } else if d != kernel && frames[kernel][virt / 4096 / 1024] % 2 == 1 {
        status := Overlapping;
      } else {
        var ok := MapAllowed(d, virt, phys, flags);
        if ok {
          OwnPage(Mapping(ok, d, virt, phys, flags));
        }
        status := if ok then Mapped else NoMemory;
      }
    }

    /** An aligned mapping: one in a task is private, one in the kernel is shared. */
    method MapAllowed(d: nat, virt: nat, phys: nat, flags: nat) returns (ok: bool)
      requires Valid() && d in dirs && virt < 0x1_0000_0000 && phys < 0x1_0000_0000 && flags < 4096
      requires virt % 4096 == 0 && phys % 4096 == 0 && !Overlap(d, DirIndex(virt))
      modifies this`home, used, frames
      ensures Valid() && ok == old(Present(At(d, DirIndex(virt))) || FreeTables() > 0) && Ledger() == old(Ledger())
      ensures DirGrows(ok && !old(Present(At(d, DirIndex(virt)))), d, DirIndex(virt), flags)
      ensures KernelGrows(d == kernel && ok, DirIndex(virt)) && Rewrites(ok, d, virt, phys, flags)
      ensures FreeTables() == old(FreeTables()) - if ok && !old(Present(At(d, DirIndex(virt)))) then 1 else 0
      ensures d != kernel ==> forall c, ptr {:trigger Word(c, ptr)} ::
        c in dirs && c != d && 0 <= ptr < 0x1_0000_0000 ==> Word(c, ptr) == old(Word(c, ptr))
      ensures ok && d == kernel ==> forall t, ptr {:trigger Word(tasks[t].context, ptr)} ::
        0 <= t < 32 && tasks[t].active && virt <= ptr < virt + 4096 ==> Word(tasks[t].context, ptr) == Word(kernel, ptr)
    {
      ok := MapAligned(d, virt, phys, flags);
      KernelGrew(Mapping(ok, d, virt, phys, flags));
      if d != kernel {
        Isolated(Mapping(ok, d, virt, phys, flags));
      } else if ok {
        AgreeOnPage(virt);
      }
    }

    /** The mapped page in the directory it was mapped in. */
    twostate lemma OwnPage(m: Mapping)
      requires old(Valid()) && Sound() && dirs == old(dirs) && m.dir in dirs && m.virt < 0x1_0000_0000 && m.virt % 4096 == 0
      requires m.done && m.phys % 4096 == 0 && m.flags < 4096 && Rewrites(m.done, m.dir, m.virt, m.phys, m.flags)
      ensures forall ptr {:trigger Word(m.dir, ptr)} :: m.virt <= ptr < m.virt + 4096 ==>
        Word(m.dir, ptr).Some? && Word(m.dir, ptr).value / 4096 == m.phys / 4096 && Word(m.dir, ptr).value % 4096 == m.flags
      ensures forall ptr {:trigger Translate(m.dir, ptr)} :: m.virt <= ptr < m.virt + 4096 ==>
        Translate(m.dir, ptr) == if m.flags % 2 == 1 then Some(m.phys + (ptr - m.virt)) else None
    {
      InPage(m.phys, m.flags);
      forall ptr | m.virt <= ptr < m.virt + 4096
        ensures Word(m.dir, ptr) == Some(m.phys + m.flags) && ptr % 4096 == ptr - m.virt
      {
        InPage(m.virt, ptr - m.virt);
        assert Word(m.dir, ptr) == Rewritten(m.dir, ptr, m.dir, m.virt, m.phys, m.flags);
      }
    }

    lemma AgreeOnPage(virt: nat)
      requires Valid() && virt < 0x1_0000_0000 && virt % 4096 == 0 && Present(At(kernel, DirIndex(virt)))
      ensures forall t, ptr {:trigger Word(tasks[t].context, ptr)} ::
        0 <= t < 32 && tasks[t].active && virt <= ptr < virt + 4096 ==> Word(tasks[t].context, ptr) == Word(kernel, ptr)
    {
      forall t, ptr | 0 <= t < 32 && tasks[t].active && virt <= ptr < virt + 4096
        ensures Word(tasks[t].context, ptr) == Word(kernel, ptr)
      {
        InPage(virt, ptr - virt);
        TasksAgree(t, ptr);
      }
    }
  }

  /** What may happen to contexts, in any order. */
  datatype Event =
    | Start(slot: nat)
    | Thread(slot: nat, parent: nat)
    | Exit(slot: nat)
    | MapTask(slot: nat, virt: nat, phys: nat, flags: nat)
    | MapKernel(virt: nat, phys: nat, flags: nat)

  /** One event, if it is possible; not `ok` if the kernel aborts for want of memory or an overlap. A
      task maps frames that are not for paging structures, and does not exit before its threads. Then
      frames for paging structures are conserved, and only a mapping in the kernel or in a directory
      itself changes what the directory translates. */
  method Happen(m: Machine, e: Event, ghost c: nat) returns (ok: bool)
    requires m.Valid() && m.Tame() && c in m.dirs
    modifies m`dirs, m`header, m`home, m.used, m.frames, m.tasks
    ensures m.Valid() && m.Tame() && m.Beside(e, c) && (ok ==> m.Ledger() == old(m.Ledger()))
    ensures old(m.Possible(e)) ==> m.Done(e)
  {
    ok := true;
    match e
    case Start(slot) =>
      if slot < 32 && !m.tasks[slot].active {
        ok := HappenStart(m, e, c);
      }
    case Thread(slot, parent) =>
      if slot < 32 && !m.tasks[slot].active && parent < 32 && m.tasks[parent].active {
        HappenThread(m, e, c);
      }
    case Exit(slot) =>
      if slot < 32 && m.tasks[slot].active && (m.tasks[slot].thread ||
          forall t :: 0 <= t < 32 && t != slot && m.tasks[t].active ==> m.tasks[t].context != m.tasks[slot].context) {
        HappenExit(m, e, c);
      }
    case MapTask(slot, virt, phys, flags) =>
      if slot < 32 && m.tasks[slot].active && virt < 0x1_0000_0000 && flags < 4096 &&
          phys / 4096 < |m.forTables| && !m.forTables[phys / 4096] {
        ok := HappenMapTask(m, e, c);
      }
    case MapKernel(virt, phys, flags) =>
      if virt < 0x1_0000_0000 && phys < 0x1_0000_0000 && flags < 4096 {
        ok := HappenMapKernel(m, e, c);
      }
  }

  method HappenStart(m: Machine, e: Event, ghost c: nat) returns (ok: bool)
    requires m.Valid() && m.Tame() && c in m.dirs && e.Start? && e.slot < 32 && !m.tasks[e.slot].active
    modifies m`dirs, m`header, m`home, m.used, m.frames, m.tasks
    ensures m.Valid() && m.Tame() && m.Beside(e, c) && (ok ==> m.Ledger() == old(m.Ledger()))
    ensures ok == (old(m.FreeTables()) >= 2)
    ensures ok ==> m.tasks[e.slot].active && !m.tasks[e.slot].thread && m.tasks[e.slot].context !in old(m.dirs)
  {
    ok := m.StartTask(e.slot);
    m.KeptWords();
    m.FreshTame(if ok then m.tasks[e.slot].context else m.kernel);
  }

  method HappenThread(m: Machine, e: Event, ghost c: nat)
    requires m.Valid() && m.Tame() && c in m.dirs && e.Thread? && e.slot < 32 && !m.tasks[e.slot].active
    requires e.parent < 32 && m.tasks[e.parent].active
    modifies m.tasks
    ensures m.Valid() && m.Tame() && m.Beside(e, c) && m.Ledger() == old(m.Ledger())
    ensures m.tasks[e.slot] == Task(true, true, old(m.tasks[e.parent].context))
  {
    m.StartThread(e.slot, e.parent);
    m.KeptWords();
  }

  method HappenExit(m: Machine, e: Event, ghost c: nat)
    requires m.Valid() && m.Tame() && c in m.dirs && e.Exit? && e.slot < 32 && m.tasks[e.slot].active
    requires m.tasks[e.slot].thread || m.Alone(e.slot)
    modifies m`dirs, m`header, m`home, m.used, m.tasks
    ensures m.Valid() && m.Tame() && m.Beside(e, c) && m.Ledger() == old(m.Ledger())
    ensures m.Left(e.slot)
  {
    assert m.tasks[e.slot].context == c ==> e.slot in m.SlotsOf(c);
    m.ExitTask(e.slot);
  }

  method HappenMapTask(m: Machine, e: Event, ghost c: nat) returns (ok: bool)
    requires m.Valid() && m.Tame() && c in m.dirs && e.MapTask? && e.slot < 32 && m.tasks[e.slot].active
    requires e.virt < 0x1_0000_0000 && e.flags < 4096
    requires e.phys / 4096 < |m.forTables| && !m.forTables[e.phys / 4096]
    modifies m`home, m.used, m.frames
    ensures m.Valid() && m.Tame() && m.Beside(e, c) && m.Ledger() == old(m.Ledger())
    ensures m.Rewrites(old(m.MayMap(m.tasks[e.slot].context, e.virt, e.phys)), m.tasks[e.slot].context, e.virt, e.phys, e.flags)
  {
    var status := m.MapPage(m.tasks[e.slot].context, e.virt, e.phys, e.flags);
    ok := status == Mapped || status == Misaligned;
    m.StaysTame(Mapping(status == Mapped, m.tasks[e.slot].context, e.virt, e.phys, e.flags));
  }

  method HappenMapKernel(m: Machine, e: Event, ghost c: nat) returns (ok: bool)
    requires m.Valid() && m.Tame() && c in m.dirs && e.MapKernel?
    requires e.virt < 0x1_0000_0000 && e.phys < 0x1_0000_0000 && e.flags < 4096
    modifies m`home, m.used, m.frames
    ensures m.Valid() && m.Tame() && m.Beside(e, c) && m.Ledger() == old(m.Ledger())
    ensures m.Rewrites(old(m.MayMap(m.kernel, e.virt, e.phys)), m.kernel, e.virt, e.phys, e.flags)
  {
    var status := m.MapPage(m.kernel, e.virt, e.phys, e.flags);
    ok := status == Mapped || status == Misaligned;
    m.StaysTame(Mapping(status == Mapped, m.kernel, e.virt, e.phys, e.flags));
  }

  /** A page that was or was not mapped. */
  datatype Mapping = Mapping(done: bool, dir: nat, virt: nat, phys: nat, flags: nat)

  /** The event is not a mapping in the kernel, and has nothing to do with the tasks in some slots. */
  predicate Aloof(e: Event, slots: set<nat>) {
    match e
    case Start(_) => true
    case Thread(_, parent) => parent !in slots
    case Exit(slot) => slot !in slots
    case MapTask(slot, _, _, _) => slot !in slots
    case MapKernel(_, _, _) => false
  }

  /** Every run keeps the kernel's tables shared and conserves frames, and the tasks of other contexts
      do not reach the address space of directory `c`. */
  method Run(m: Machine, events: seq<Event>, ghost c: nat) returns (ok: bool)
    requires m.Valid() && m.Tame() && c in m.dirs
    modifies m`dirs, m`header, m`home, m.used, m.frames, m.tasks
    ensures m.Valid() && m.Tame() && (ok ==> m.Ledger() == old(m.Ledger()))
    ensures (forall e :: e in events ==> Aloof(e, old(m.SlotsOf(c)))) ==> m.Unchanged(c)
  {
    ok := true;
    ghost var slots := m.SlotsOf(c);
    ghost var aloof := forall e :: e in events ==> Aloof(e, slots);
    for i := 0 to |events|
      invariant m.Valid() && m.Tame() && m.Ledger() == old(m.Ledger())
      invariant aloof ==> m.SlotsOf(c) <= slots && m.Unchanged(c)
    {
      if aloof {
        assert events[i] in events;
        Fewer(events[i], m.SlotsOf(c), slots);
      }
      ok := Happen(m, events[i], if aloof then c else m.kernel);
      if !ok {
        return;
      }
    }
  }

  lemma Fewer(e: Event, some: set<nat>, more: set<nat>)
    requires some <= more && Aloof(e, more)
    ensures Aloof(e, some)
  {
  }

  /** A page that a task maps where the kernel has no table. */
  method MapFirst(m: Machine, task: nat, virt: nat, phys: nat) returns (before: nat)
    requires m.Valid() && task in m.dirs && task != m.kernel && m.FreeTables() >= 2
    requires virt < 0x1_0000_0000 && phys < 0x1_0000_0000 && virt % 4096 == phys % 4096 == 0
    requires !Present(m.At(m.kernel, DirIndex(virt)))
    modifies m`home, m.used, m.frames
    ensures m.Valid() && before == phys && m.FreeTables() >= 1 && !Present(m.At(m.kernel, DirIndex(virt)))
  {
    var status := m.MapPage(task, virt, phys, 1);
    before := m.Lookup(virt, task);
  }

  /** A page disappears from a task when the kernel gets a table for its directory index. */
  method Displace(m: Machine, slot: nat, virt: nat, other: nat) returns (after: nat)
    requires m.Valid() && slot < 32 && m.tasks[slot].active && m.FreeTables() >= 1
    requires virt < 0x1_0000_0000 && other < 0x1_0000_0000 && other % 4096 == 0
    requires virt / 4096 != other / 4096 && DirIndex(virt) == DirIndex(other)
    requires !Present(m.At(m.kernel, DirIndex(virt)))
    modifies m`home, m.used, m.frames
    ensures m.Valid() && after == 0
  {
    var task := m.tasks[slot].context;
    assert task in m.Receivers(32);
    var status := m.MapPage(m.kernel, other, 0, 1);
    assert m.Word(task, virt) == Some(0);
    after := m.Lookup(virt, task);
  }

  /** A task loses a page: it maps one, then the kernel gets a table for the same directory index. */
  method LosePage(m: Machine, slot: nat, virt: nat, phys: nat, other: nat) returns (before: nat, after: nat)
    requires m.Valid() && slot < 32 && m.tasks[slot].active && m.FreeTables() >= 2
    requires virt < 0x1_0000_0000 && phys < 0x1_0000_0000 && other < 0x1_0000_0000
    requires virt % 4096 == phys % 4096 == other % 4096 == 0 && virt != other && DirIndex(virt) == DirIndex(other)
    requires !Present(m.At(m.kernel, DirIndex(virt)))
    modifies m`home, m.used, m.frames
    ensures m.Valid() && before == phys && after == 0
  {
    before := MapFirst(m, m.tasks[slot].context, virt, phys);
    after := Displace(m, slot, virt, other);
  }

  /** A machine that starts with `n` free frames for paging structures, and one task. The last frame is
      in use and not kept for these. */
  method OneTask(n: nat) returns (m: Machine)
    requires 6 <= n < 0x10_0000
    ensures fresh(m) && fresh(m.frames) && fresh(m.used) && fresh(m.tasks)
    ensures m.Valid() && m.Tame() && m.tasks[0].active && !m.tasks[0].thread && m.FreeTables() == n - 4
    ensures |m.forTables| == n + 1 && !m.forTables[n]
    ensures forall i {:trigger m.At(m.kernel, i)} :: 0 <= i < 1024 ==> m.At(m.kernel, i) == 0
    ensures forall t {:trigger m.tasks[t]} :: 0 < t < 32 ==> !m.tasks[t].active
  {
    m := new Machine(seq(n + 1, i => i == n), seq(n + 1, i => i < n));
    FirstFree(m.used[..], m.forTables, n);
    var ok := m.Init();
    FirstTask(m);
  }

  method FirstTask(m: Machine)
    requires m.Valid() && m.dirs == {m.kernel} && m.FreeTables() >= 2
    requires forall i {:trigger m.At(m.kernel, i)} :: 0 <= i < 1024 ==> m.At(m.kernel, i) == 0
    requires forall t {:trigger m.tasks[t]} :: 0 <= t < 32 ==> !m.tasks[t].active
    modifies m`dirs, m`header, m`home, m.used, m.frames, m.tasks
    ensures m.Valid() && m.Tame() && m.tasks[0].active && !m.tasks[0].thread && m.FreeTables() == old(m.FreeTables()) - 2
    ensures forall i {:trigger m.At(m.kernel, i)} :: 0 <= i < 1024 ==> m.At(m.kernel, i) == 0
    ensures forall t {:trigger m.tasks[t]} :: 0 < t < 32 ==> !m.tasks[t].active
  {
    assert m.kernel in m.dirs;
    var ok := m.StartTask(0);
    assert forall i {:trigger m.At(m.kernel, i)} :: 0 <= i < 1024 ==> m.At(m.kernel, i) == old(m.At(m.kernel, i));
  }

  /** A task of it comes to that. */
  method LostPage(n: nat) returns (m: Machine, before: nat, after: nat)
    requires 6 <= n < 0x10_0000
    ensures m.Valid() && m.tasks[0].active && before == 0x5000 && after == 0
  {
    m := OneTask(n);
    assert m.At(m.kernel, DirIndex(0x40_0000)) == 0;
    before, after := LosePage(m, 0, 0x40_0000, 0x5000, 0x40_1000);
  }

  /** The condition on exits is needed: after a task ends before its thread, the thread's directory is
      a free frame. */
  method OrphanedThread(n: nat) returns (m: Machine)
    requires 6 <= n < 0x10_0000
    ensures m.tasks.Length == 32 && m.tasks[1].active && m.tasks[1].context < m.used.Length
    ensures !m.used[m.tasks[1].context] && !m.Valid()
  {
    m := OneTask(n);
    m.StartThread(1, 0);
    m.ExitTask(0);
  }

  /** When a task ends, a page that it shares with another is freed, and the other still maps it. */
  method FreeShared(m: Machine, a: nat, b: nat, virt: nat, phys: nat)
    requires m.Valid() && m.Tame() && a < 32 && b < 32 && m.tasks[a].active && m.tasks[b].active
    requires !m.tasks[a].thread && m.Alone(a) && a != b && virt < 0x1_0000_0000
    requires m.MapsOwn(m.tasks[a].context, virt, phys / 4096) && m.Translate(m.tasks[b].context, virt) == Some(phys)
    modifies m`dirs, m`header, m`home, m.used, m.tasks
    ensures m.Valid() && m.tasks[b].active && m.Translate(m.tasks[b].context, virt) == Some(phys)
    ensures phys / 4096 < m.used.Length && !m.used[phys / 4096]
  {
    OwnIsGivenBack(m, m.tasks[a].context, virt, phys / 4096);
    m.EndTask(a);
  }

  lemma OwnIsGivenBack(m: Machine, d: nat, virt: nat, f: nat)
    requires m.Valid() && m.Tame() && d in m.dirs && m.MapsOwn(d, virt, f)
    ensures f < m.used.Length && m.GivenBack(d, 1024, f)
  {
    assert m.Plain(m.Translate(d, virt));
    m.PagesGivenBack(d, f);
  }

  /** As sys_mmmap maps a page in two tasks. */
  method MapBoth(m: Machine, a: nat, b: nat, virt: nat, phys: nat)
    requires m.Valid() && m.Tame() && a < 32 && b < 32 && m.tasks[a].active && m.tasks[b].active
    requires m.tasks[a].context != m.tasks[b].context && m.FreeTables() >= 2
    requires virt < 0x1_0000_0000 && phys < 0x1_0000_0000 && virt % 4096 == phys % 4096 == 0
    requires phys / 4096 < |m.forTables| && !m.forTables[phys / 4096] && !Present(m.At(m.kernel, DirIndex(virt)))
    modifies m`home, m.used, m.frames
    ensures m.Valid() && m.Tame() && !Present(m.At(m.kernel, DirIndex(virt)))
    ensures m.Translate(m.tasks[a].context, virt) == m.Translate(m.tasks[b].context, virt) == Some(phys)
  {
    MapPlain(m, m.tasks[a].context, virt, phys);
    MapPlain(m, m.tasks[b].context, virt, phys);
  }

  method MapPlain(m: Machine, d: nat, virt: nat, phys: nat)
    requires m.Valid() && m.Tame() && d in m.dirs && d != m.kernel && m.FreeTables() >= 1
    requires virt < 0x1_0000_0000 && phys < 0x1_0000_0000 && virt % 4096 == phys % 4096 == 0
    requires phys / 4096 < |m.forTables| && !m.forTables[phys / 4096] && !Present(m.At(m.kernel, DirIndex(virt)))
    modifies m`home, m.used, m.frames
    ensures m.Valid() && m.Tame() && !Present(m.At(m.kernel, DirIndex(virt))) && m.FreeTables() >= old(m.FreeTables()) - 1
    ensures m.Translate(d, virt) == Some(phys)
    ensures forall c {:trigger m.Translate(c, virt)} :: c in m.dirs && c != d ==> m.Translate(c, virt) == old(m.Translate(c, virt))
  {
    var status := m.MapPage(d, virt, phys, 1);
    m.StaysTame(Mapping(status == Mapped, d, virt, phys, 1));
  }

  /** From boot a machine gets there: the second of two tasks maps a page that is free. */
  method SharedPageFreed(n: nat) returns (m: Machine)
    requires 8 <= n < 0xF_FFFF
    ensures m.Valid() && m.tasks[1].active && m.Translate(m.tasks[1].context, 0x40_0000) == Some(4096 * n)
    ensures n < m.used.Length && !m.used[n]
  {
    m := OneTask(n);
    SecondTask(m);
    MapBoth(m, 0, 1, 0x40_0000, 4096 * n);
    FreeShared(m, 0, 1, 0x40_0000, 4096 * n);
  }

  method SecondTask(m: Machine)
    requires m.Valid() && m.Tame() && m.tasks[0].active && !m.tasks[0].thread && m.FreeTables() >= 2
    requires forall i {:trigger m.At(m.kernel, i)} :: 0 <= i < 1024 ==> m.At(m.kernel, i) == 0
    requires forall t {:trigger m.tasks[t]} :: 0 < t < 32 ==> !m.tasks[t].active
    modifies m`dirs, m`header, m`home, m.used, m.frames, m.tasks
    ensures m.Valid() && m.Tame() && m.tasks[0].active && !m.tasks[0].thread && m.tasks[1].active && m.Alone(0)
    ensures m.tasks[0].context != m.tasks[1].context && m.FreeTables() == old(m.FreeTables()) - 2
    ensures forall i {:trigger m.At(m.kernel, i)} :: 0 <= i < 1024 ==> m.At(m.kernel, i) == 0
  {
    assert m.tasks[0].context in m.dirs && m.kernel in m.dirs;
    var ok := m.StartTask(1);
    m.FreshTame(m.tasks[1].context);
    assert forall i {:trigger m.At(m.kernel, i)} :: 0 <= i < 1024 ==> m.At(m.kernel, i) == old(m.At(m.kernel, i));
  }

  lemma InPageOf(phys: nat, o: nat)
    requires o < 4096
    ensures phys % 4096 == 0 ==> (phys + o) / 4096 == phys / 4096
  {
  }

  /** Bytes of a page, and flags below a frame address. */
  lemma InPage(base: nat, o: nat)
    requires base % 4096 == 0 && o < 4096
    ensures (base + o) / 4096 == base / 4096 && (base + o) % 4096 == o && 4096 * (base / 4096) == base
    ensures (base + o) % 2 == o % 2
    ensures base < 0x1_0000_0000 ==> base + o < 0x1_0000_0000
  {
  }

  /** Directory and table index together number the page. */
  lemma SamePage(a: nat, b: nat)
    ensures DirIndex(a) == DirIndex(b) && TableIndex(a) == TableIndex(b) <==> a / 4096 == b / 4096
  {
  }

  /** A directory entry for a table, always present. */
  function TableEntry(table: nat, flags: nat): (e: nat)
    ensures flags < 4096 ==> Present(e) && FrameOf(e) == table
  {
    4096 * table + if flags % 2 == 1 then flags else flags + 1
  }
}
