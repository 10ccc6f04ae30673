/** The cyclic search for the next task, and how soon a ready task is found. */
module Scheduler {
  /** A 32-bit signed number. */
  type i32 = x: int | -0x8000_0000 <= x < 0x8000_0000

  /** The value that is left of a number in 32 bits. */
  function Int32(x: int): i32 {
    (x + 0x8000_0000) % 0x1_0000_0000 - 0x8000_0000
  }

  datatype Task = Task(active: bool, wait: i32, pin: bool, term: int)

  type Table = t: seq<Task> | |t| == 32 witness seq(32, i => Task(false, 0, false, 0))

  /** The task may run now. */
  predicate Ready(t: Task) {
    t.active && t.wait <= 0
  }

  /** What the scan does to a task it passes: the time waited is taken off. */
  function Tick(t: Task, diff: i32): Task {
    if t.active && t.wait > 0 then t.(wait := Int32(t.wait - diff)) else t
  }

  predicate Taken(t: Task, diff: i32, ignore: bool) {
    if ignore then t.active else Ready(Tick(t, diff))
  }

  /** Every slot from `from` to `to - 1` was passed. */
  function Passed(t: Table, from: nat, to: nat, diff: i32, ignore: bool): (r: Table)
    requires from <= to <= 32
  {
    seq(32, i requires 0 <= i < 32 => if from <= i < to && !ignore then Tick(t[i], diff) else t[i])
  }

  /** `next` is the first slot from `from` on that is taken; 32 if there is none. */
  predicate FirstTaken(t: Table, from: nat, next: nat, diff: i32, ignore: bool) {
    && from <= next <= 32
    && (forall i :: from <= i < next ==> !Taken(t[i], diff, ignore))
    && (next < 32 ==> Taken(t[next], diff, ignore))
  }

  class Machine {
    const tasks: array<Task>
    var current: nat
    var lastTime: i32

    ghost predicate Valid()
      reads this
    {
      tasks.Length == 32 && current < 32
    }

    ghost function Slots(): Table
      reads this, tasks
      requires Valid()
    {
      tasks[..]
    }

    /** The table at boot: no task. */
    constructor ()
      ensures Valid() && fresh(tasks) && current == 0 && lastTime == 0 && NoneActive(Slots())
    {
      tasks := new Task[32](_ => Task(false, 0, false, 0));
      current, lastTime := 0, 0;
    }

    /** switch_to_next_task. */
    method SwitchToNextTask(from: nat, diff: i32, ignore: bool) returns (found: bool)
      requires Valid() && from <= 32
      modifies this`current, tasks
      ensures Valid()
      ensures if found then from <= current && FirstTaken(old(Slots()), from, current, diff, ignore)
              else FirstTaken(old(Slots()), from, 32, diff, ignore) && current == old(current)
      ensures Slots() == Passed(old(Slots()), from, if found then current + 1 else 32, diff, ignore)
    {
      for i := from to 32
        invariant current == old(current)
        invariant forall k :: from <= k < i ==> !Taken(old(tasks[k]), diff, ignore)
        invariant forall k :: 0 <= k < 32 ==>
          tasks[k] == if from <= k < i && !ignore then Tick(old(tasks[k]), diff) else old(tasks[k])
      {
        var waiting := false;
        if !ignore && tasks[i].active && tasks[i].wait > 0 {
          tasks[i] := tasks[i].(wait := Int32(tasks[i].wait - diff));
          waiting := tasks[i].wait > 0;
        }
        if !waiting && tasks[i].active {
          current := i;
          return true;
        }
      }
      return false;
    }

    /** schedule. `aborted` is the end of a machine on which every task is dead. */
    method Schedule(running: bool, bootCore: bool, shownTerm: int, now: int) returns (aborted: bool)
      requires Valid()
      modifies this, tasks
      ensures Valid()
      ensures var held := !running || !bootCore || Held(old(Slots())[old(current)], shownTerm);
        && (held ==> !aborted && Slots() == old(Slots()) && current == old(current) && lastTime == old(lastTime))
        && (!held ==>
              && lastTime == Int32(now)
              && (aborted <==> NoneActive(old(Slots())))
              && (!aborted ==> Round(old(Slots()), old(current), Int32(Int32(now) - old(lastTime)), current, Slots())))
    {
      aborted := false;
      if !running || !bootCore {
        return;
      }
      if tasks[current].pin && tasks[current].term == shownTerm {
        return;
      }
      var time := Int32(now);
      var diff := Int32(time - lastTime);
      lastTime := time;
      var found := Search(diff);
      aborted := !found;
    }

    /** init_task, as far as the task table goes: the first slot that is not active is taken. With
        all slots active its assertion fails and nothing changes. */
    method InitTask(term: int) returns (ok: bool, slot: nat)
      requires Valid()
      modifies tasks
      ensures Valid() && ok == exists i :: 0 <= i < 32 && !old(tasks[i].active)
      ensures ok ==> slot < 32 && !old(tasks[slot].active) && forall i :: 0 <= i < slot ==> old(tasks[i].active)
      ensures Slots() == if ok then old(Slots())[slot := Task(true, 0, false, term)] else old(Slots())
    {
      slot := 0;
      while slot < 32 && tasks[slot].active
        invariant slot <= 32 && forall i :: 0 <= i < slot ==> tasks[i].active
      {
        slot := slot + 1;
      }
      ok := slot < 32;
      if ok {
        tasks[slot] := Task(true, 0, false, term);
      }
    }

    /** exit_task, as far as the task table goes. */
    method ExitTask(slot: nat)
      requires Valid() && slot < 32
      modifies tasks
      ensures Slots() == old(Slots())[slot := old(Slots())[slot].(active := false, pin := false)]
    {
      tasks[slot] := tasks[slot].(active := false, pin := false);
    }

    /** The three passes: behind the current slot, from the start, and again regardless of waiting. */
    method Search(diff: i32) returns (found: bool)
      requires Valid()
      modifies this`current, tasks
      ensures Valid()
      ensures found <==> !NoneActive(old(Slots()))
      ensures found ==> Round(old(Slots()), old(current), diff, current, Slots())
    {
      ghost var t, cur := Slots(), current;
      ghost var once := Passed(t, cur + 1, 32, diff, false);
      PassingKeepsActive(t, cur + 1, diff);
      PassingKeepsActive(once, 0, diff);
      found := SwitchToNextTask(current + 1, diff, false);
      if found {
        SomeActive(t, current, diff);
        return;
      }
      found := SwitchToNextTask(0, diff, false);
      if found {
        SomeActive(once, current, diff);
        return;
      }
      found := SwitchToNextTask(0, diff, true);
    }
  }

  /** The clock may wrap: the time that passed is right as long as it is below 2^31 milliseconds, and a
      task that waited for it is not ready before. */
  lemma ClockWraps(before: int, now: int, t: Task)
    requires before <= now < before + 0x8000_0000
    ensures var diff := Int32(Int32(now) - Int32(before));
      && diff == now - before
      && (t.active && t.wait > 0 ==> (Ready(Tick(t, diff)) <==> t.wait <= now - before))
  {
    var k := (before + 0x8000_0000) / 0x1_0000_0000;
    var j := (now + 0x8000_0000) / 0x1_0000_0000;
    assert Int32(before) == before - 0x1_0000_0000 * k && Int32(now) == now - 0x1_0000_0000 * j;
  }

  predicate Held(t: Task, shownTerm: int) {
    t.pin && t.term == shownTerm
  }

  predicate NoneActive(t: Table) {
    forall i :: 0 <= i < 32 ==> !t[i].active
  }

  lemma SomeActive(t: Table, i: nat, diff: i32)
    requires i < 32 && Taken(t[i], diff, false)
    ensures !NoneActive(t)
  {
    assert t[i].active;
  }

  lemma PassingKeepsActive(t: Table, from: nat, diff: i32)
    requires from <= 32
    ensures NoneActive(Passed(t, from, 32, diff, false)) == NoneActive(t)
    ensures forall i :: 0 <= i < 32 ==> Passed(t, from, 32, diff, false)[i].active == t[i].active
  {
    var r := Passed(t, from, 32, diff, false);
    assert forall i :: 0 <= i < 32 ==> r[i].active == t[i].active;
  }

  /** A scheduling round from slot `cur`: it goes to the first ready slot after it, else to the first
      ready one, else to the first active one; waiting tasks passed on the way wait less. */
  ghost predicate Round(t: Table, cur: nat, diff: i32, next: nat, t': Table)
    requires cur < 32
  {
    var once := Passed(t, cur + 1, 32, diff, false);
    var twice := Passed(once, 0, 32, diff, false);
    next < 32 &&
    if !FirstTaken(t, cur + 1, 32, diff, false) then
      FirstTaken(t, cur + 1, next, diff, false) && t' == Passed(t, cur + 1, next + 1, diff, false)
    else if !FirstTaken(once, 0, 32, diff, false) then
      FirstTaken(once, 0, next, diff, false) && t' == Passed(once, 0, next + 1, diff, false)
    else
      FirstTaken(twice, 0, next, diff, true) && t' == twice
  }

  // ----- how soon a ready task is chosen -----

  /** Slots from `cur` forward to `s`, going round; a full circle if they are the same. */
  function Distance(cur: nat, s: nat): nat
    requires cur < 32 && s < 32
  {
    if s > cur then s - cur else s + 32 - cur
  }

  /** Every round goes to the ready slot `s` or comes nearer to it. */
  lemma Nearer(t: Table, cur: nat, diff: i32, next: nat, t': Table, s: nat)
    requires cur < 32 && s < 32 && Ready(t[s]) && Round(t, cur, diff, next, t')
    ensures next == s || Distance(next, s) < Distance(cur, s)
  {
    assert Taken(t[s], diff, false);
    var once := Passed(t, cur + 1, 32, diff, false);
    if FirstTaken(t, cur + 1, 32, diff, false) {
      assert s <= cur;
      assert once[s] == t[s];
      assert next <= s;
    }
  }

  /** A ready slot that is passed or not reached stays as it is. */
  lemma ReadyStays(t: Table, cur: nat, diff: i32, next: nat, t': Table, s: nat)
    requires cur < 32 && s < 32 && Ready(t[s]) && Round(t, cur, diff, next, t')
    ensures t'[s] == t[s]
  {
    var once := Passed(t, cur + 1, 32, diff, false);
    assert once[s] == t[s] && Passed(once, 0, 32, diff, false)[s] == t[s];
  }

  // ----- runs of the machine -----

  /** What may happen between and in the rounds: the timer, a start, an exit, and what a system call
      does to a slot, as sleeping and pinning. */
  datatype Event =
    | Timer(running: bool, bootCore: bool, shownTerm: int, now: int)
    | Start(term: int)
    | Exit(slot: nat)
    | Change(slot: nat, task: Task)

  datatype Snapshot = Snapshot(table: Table, current: nat, time: i32)

  /** The timer finds the scheduler at work and the current task not pinned to the shown terminal. */
  predicate Schedules(p: Snapshot, e: Event) {
    e.Timer? && e.running && e.bootCore && p.current < 32 && !Held(p.table[p.current], e.shownTerm)
  }

  /** What an event does, as long as there is an active task to go to. */
  ghost predicate Happens(p: Snapshot, e: Event, q: Snapshot) {
    && p.current < 32 && q.current < 32
    && match e
       case Timer(_, _, _, now) =>
         if Schedules(p, e)
         then q.time == Int32(now) && Round(p.table, p.current, Int32(Int32(now) - p.time), q.current, q.table)
         else q == p
       case Start(term) => q.current == p.current && q.time == p.time && Started(p.table, term, q.table)
       case Exit(slot) =>
         q == if slot < 32 then p.(table := p.table[slot := p.table[slot].(active := false, pin := false)]) else p
       case Change(slot, task) => q == if slot < 32 then p.(table := p.table[slot := task]) else p
  }

  /** A task takes the first slot that is not active, if there is one. */
  ghost predicate Started(t: Table, term: int, t': Table) {
    if forall i :: 0 <= i < 32 ==> t[i].active then t' == t
    else exists slot {:trigger t[slot]} ::
      && 0 <= slot < 32 && !t[slot].active && (forall i :: 0 <= i < slot ==> t[i].active)
      && t' == t[slot := Task(true, 0, false, term)]
  }

  ghost predicate Trace(states: seq<Snapshot>, events: seq<Event>) {
    && |states| == |events| + 1
    && forall k {:trigger Happens(states[k], events[k], states[k + 1])} :: 0 <= k < |events| ==>
         Happens(states[k], events[k], states[k + 1])
  }

  /** Rounds among the first `n` events. */
  ghost function Rounds(states: seq<Snapshot>, events: seq<Event>, n: nat): nat
    requires n <= |events| && n <= |states|
  {
    if n == 0 then 0 else Rounds(states, events, n - 1) + if Schedules(states[n - 1], events[n - 1]) then 1 else 0
  }

  /** The event leaves slot `s` to itself. */
  predicate Spares(e: Event, s: nat) {
    !((e.Exit? || e.Change?) && e.slot == s)
  }

  /** Round number `k` goes to slot `s`. */
  ghost predicate Chooses(states: seq<Snapshot>, events: seq<Event>, k: nat, s: nat)
    requires Trace(states, events) && k < |events|
  {
    Schedules(states[k], events[k]) && states[k + 1].current == s
  }

  /** One event that does not choose a ready slot leaves it ready, and a round brings it nearer. */
  lemma NearerStill(p: Snapshot, e: Event, q: Snapshot, s: nat)
    requires s < 32 && Happens(p, e, q) && Ready(p.table[s]) && Spares(e, s)
    requires !(Schedules(p, e) && q.current == s)
    ensures Ready(q.table[s])
    ensures Distance(q.current, s) + (if Schedules(p, e) then 1 else 0) <= Distance(p.current, s)
  {
    if Schedules(p, e) {
      var diff := Int32(Int32(e.now) - p.time);
      Nearer(p.table, p.current, diff, q.current, q.table, s);
      ReadyStays(p.table, p.current, diff, q.current, q.table, s);
    }
  }

  lemma {:induction false} TraceNearer(states: seq<Snapshot>, events: seq<Event>, s: nat, n: nat)
    requires Trace(states, events) && n <= |events| && s < 32 && states[0].current < 32 && Ready(states[0].table[s])
    requires forall k {:trigger Spares(events[k], s)} :: 0 <= k < n ==> Spares(events[k], s)
    requires forall k {:trigger Chooses(states, events, k, s)} :: 0 <= k < n ==> !Chooses(states, events, k, s)
    ensures states[n].current < 32 && Ready(states[n].table[s])
    ensures Distance(states[n].current, s) + Rounds(states, events, n) <= Distance(states[0].current, s)
  {
    if n > 0 {
      var m := n - 1;
      TraceNearer(states, events, s, m);
      assert Happens(states[m], events[m], states[m + 1]);
      assert Spares(events[m], s) && !Chooses(states, events, m, s);
      NearerStill(states[m], events[m], states[m + 1], s);
    }
  }

  /** In every trace with 32 rounds a slot that is ready at the start, and left to itself, is chosen. */
  lemma ChosenInTime(states: seq<Snapshot>, events: seq<Event>, s: nat)
    requires Trace(states, events) && s < 32 && states[0].current < 32 && Ready(states[0].table[s])
    requires forall k {:trigger Spares(events[k], s)} :: 0 <= k < |events| ==> Spares(events[k], s)
    requires Rounds(states, events, |events|) >= 32
    ensures exists k {:trigger Chooses(states, events, k, s)} :: 0 <= k < |events| && Chooses(states, events, k, s)
  {
    if forall k {:trigger Chooses(states, events, k, s)} :: 0 <= k < |events| ==> !Chooses(states, events, k, s) {
      TraceNearer(states, events, s, |events|);
    }
  }

  /** The event neither ends nor changes the task in slot `s`, and shows its terminal. */
  predicate Shows(e: Event, s: nat, term: int) {
    Spares(e, s) && (e.Timer? ==> e.shownTerm == term)
  }

  /** A pinned task keeps the processor as long as its terminal is shown. */
  lemma {:induction false} PinnedKeeps(states: seq<Snapshot>, events: seq<Event>, n: nat)
    requires Trace(states, events) && n <= |events| && states[0].current < 32
    requires var t := states[0].table[states[0].current];
      && t.active && t.pin
      && forall k {:trigger events[k]} :: 0 <= k < n ==> Shows(events[k], states[0].current, t.term)
    ensures states[n].current == states[0].current && states[n].time == states[0].time
    ensures states[n].table[states[n].current] == states[0].table[states[0].current]
  {
    if n > 0 {
      var m := n - 1;
      PinnedKeeps(states, events, m);
      assert Happens(states[m], events[m], states[m + 1]);
      assert Shows(events[m], states[0].current, states[0].table[states[0].current].term);
    }
  }

  ghost function View(m: Machine): Snapshot
    reads m, m.tasks
    requires m.Valid()
  {
    Snapshot(m.Slots(), m.current, m.lastTime)
  }

  /** One event on the machine; it ends where every task is dead. */
  method Handle(m: Machine, e: Event) returns (aborted: bool)
    requires m.Valid()
    modifies m, m.tasks
    ensures m.Valid() && (aborted ==> NoneActive(old(m.Slots())))
    ensures !aborted ==> Happens(old(View(m)), e, View(m))
  {
    aborted := false;
    match e
    case Timer(running, bootCore, shownTerm, now) =>
      aborted := m.Schedule(running, bootCore, shownTerm, now);
    case Start(term) =>
      var ok, slot := m.InitTask(term);
    case Exit(slot) =>
      if slot < 32 {
        m.ExitTask(slot);
      }
    case Change(slot, task) =>
      if slot < 32 {
        m.tasks[slot] := task;
      }
  }

  /** Every run of the machine is a trace, up to the end of the last task. */
  method Run(m: Machine, events: seq<Event>) returns (n: nat, ghost states: seq<Snapshot>)
    requires m.Valid()
    modifies m, m.tasks
    ensures m.Valid() && n <= |events| && Trace(states, events[..n]) && states[0] == old(View(m))
    ensures if n < |events| then NoneActive(states[n].table) else states[n] == View(m)
  {
    states := [View(m)];
    for i := 0 to |events|
      invariant m.Valid() && Trace(states, events[..i]) && states[0] == old(View(m)) && states[i] == View(m)
    {
      var aborted := Handle(m, events[i]);
      if aborted {
        return i, states;
      }
      TraceOn(states, events, i, View(m));
      states := states + [View(m)];
    }
    n := |events|;
  }

  lemma TraceOn(states: seq<Snapshot>, events: seq<Event>, n: nat, q: Snapshot)
    requires n < |events| && Trace(states, events[..n]) && Happens(states[n], events[n], q)
    ensures Trace(states + [q], events[..n + 1])
  {
    var states', events' := states + [q], events[..n + 1];
    forall k | 0 <= k < n + 1
      ensures Happens(states'[k], events'[k], states'[k + 1])
    {
      if k < n {
        assert Happens(states[k], events[..n][k], states[k + 1]);
      }
    }
  }
}
