/** schedule, pt_wakeup, wakeup_waiters, ksleep and the other queue moves of Kernel/kthread.c over the
    linked lists in memory. */
module Sched {
  import opened Folding
  import opened Words
  import opened Rings
  import opened Lists
  import opened Seqs
  import opened SchedSpec
  import opened SchedLaws

  lemma RingNoDup(m: Mem, h: int, s: seq<int>)
    requires Ring(m, NODE, h, s)
    ensures NoDup(s)
  {
    forall i, j | 0 <= i < j < |s| ensures s[i] != s[j] { Distinct(h, s, i + 1, j + 1); }
  }

  lemma FamilyPlaced(m: Mem, q: Queues)
    requires Family(m, q)
    ensures Placed(q)
  {
    forall h | h in q ensures NoDup(q[h]) { RingNoDup(m, h, q[h]); }
  }

  /** Deleting the k-th node of list g takes it out of the queues altogether. */
  lemma DroppedIsDetached(q: Queues, g: int, k: nat)
    requires Placed(q) && g in q && k < |q[g]|
    ensures Dropped(q, g, k) == Detach(q, q[g][k])
  {
    var x := q[g][k];
    forall h | h in q ensures Dropped(q, g, k)[h] == Without(q[h], x) {
      if h == g {
        WithoutAt(q[g], k);
      } else {
        assert x in q[g];
        WithoutAbsent(q[h], x);
      }
    }
  }

  /** list_del on a thread that is on some list. */
  method Unlink(m: Mem, x: int, ghost q: Queues) returns (m': Mem)
    requires Family(m, q) && OnSomeList(q, x)
    ensures Family(m', Detach(q, x)) && Loose(Detach(q, x), x)
  {
    ghost var g :| g in q && x in q[g];
    ghost var k :| 0 <= k < |q[g]| && q[g][k] == x;
    FamilyPlaced(m, q);
    DroppedIsDetached(q, g, k);
    m' := ListDel(m, x, q, g, k);
  }

  method PtWakeup(m: Mem, prio: map<int, int>, x: int, ghost q: Queues) returns (m': Mem)
    requires Family(m, q) && HasQueues(q) && OnSomeList(q, x) && x in prio && 0 <= prio[x] < PRIORITIES
    ensures Family(m', Woken(q, prio, x))
  {
    m' := Unlink(m, x, q);
    m' := ListAdd(m', RunQ(prio[x]), x, Detach(q, x));
  }

  /** Where wakeup_waiters stands: c are the queues so far, pos and n the next two nodes of the walk. The
      quantifier keeps the loop invariant folded; Token(0) opens it. */
  ghost predicate Walking(m: Mem, c: Queues, prio: map<int, int>, h: int, pos: int, n: int, target: Queues) {
    forall t :: Token(t) ==>
      && Family(m, c) && Waiting(c, prio, h)
      && pos == At(h, c[h], 1) && (pos != h ==> n == At(h, c[h], 2))
      && (forall x :: x in c[h] ==> x in prio && 0 <= prio[x] < PRIORITIES) && AllWoken(c, prio, c[h]) == target
  }

  /** One round: the waiter at pos is woken; the walk goes on at n, whose successor is read only now. */
  method WakeOne(m: Mem, prio: map<int, int>, h: int, pos: int, n: int, ghost c: Queues, ghost target: Queues)
    returns (m': Mem, n': int, ghost c': Queues)
    requires h in c && Walking(m, c, prio, h, pos, n, target) && pos != h
    ensures h in c' && Walking(m', c', prio, h, n, n', target) && |c'[h]| < |c[h]|
  {
    assert Token(0);
    assert c[h] != [] && pos == c[h][0] && pos in c[h];
    RestToWake(c, prio, h, target);
    c' := Woken(c, prio, pos);
    m' := PtWakeup(m, prio, pos, c);
    AtTail(h, c[h]);
    n' := Rd(m', n + 4);
    Successor(m', h, c'[h], n);
  }

  lemma AtTail(h: int, s: seq<int>)
    requires s != []
    ensures At(h, s[1..], 1) == At(h, s, 2)
  {
  }

  lemma Successor(m: Mem, h: int, s: seq<int>, n: int)
    requires Ring(m, NODE, h, s) && n == At(h, s, 1)
    ensures n != h ==> Rd(m, n + 4) == At(h, s, 2)
  {
    if |s| > 0 { assert Link(m, NODE, h, s, 1); }
  }

  lemma RestToWake(c: Queues, prio: map<int, int>, h: int, target: Queues)
    requires Waiting(c, prio, h) && c[h] != [] && (forall x :: x in c[h] ==> x in prio && 0 <= prio[x] < PRIORITIES)
    requires AllWoken(c, prio, c[h]) == target
    ensures var c' := Woken(c, prio, c[h][0]);
            && Waiting(c', prio, h) && c'[h] == c[h][1..]
            && (forall x :: x in c'[h] ==> x in prio && 0 <= prio[x] < PRIORITIES) && AllWoken(c', prio, c'[h]) == target
  {
    FirstWoken(c, prio, h);
    assert forall x :: x in c[h][1..] ==> x in c[h];
  }

  method WakeupWaiters(m: Mem, prio: map<int, int>, h: int, ghost q: Queues) returns (m': Mem)
    requires Family(m, q) && Waiting(q, prio, h)
    ensures (forall x :: x in q[h] ==> x in prio && 0 <= prio[x] < PRIORITIES) && Family(m', AllWoken(q, prio, q[h]))
  {
    var pos, n;
    ghost var target := AllWoken(q, prio, q[h]);
    pos, n := StartWalk(m, prio, h, q, target);
    m' := WalkOn(m, prio, h, pos, n, q, target);
  }

  method StartWalk(m: Mem, ghost prio: map<int, int>, h: int, ghost q: Queues, ghost target: Queues) returns (pos: int, n: int)
    requires Family(m, q) && Waiting(q, prio, h) && target == AllWoken(q, prio, q[h])
    ensures Walking(m, q, prio, h, pos, n, target)
  {
    assert Link(m, NODE, h, q[h], 0);
    pos := Rd(m, h + 4);
    assert |q[h]| > 0 ==> Link(m, NODE, h, q[h], 1);
    n := Rd(m, pos + 4);
  }

  method WalkOn(m: Mem, prio: map<int, int>, h: int, first: int, second: int, ghost q: Queues, ghost target: Queues) returns (m': Mem)
    requires h in q && Walking(m, q, prio, h, first, second, target)
    ensures Family(m', target)
  {
    m' := m;
    ghost var c := q;
    var pos, n := first, second;
    while pos != h
      invariant h in c && Walking(m', c, prio, h, pos, n, target)
      decreases |c[h]|
    {
      var next := n;
      m', n, c := WakeOne(m', prio, h, pos, n, c, target);
      pos := next;
    }
    WalkDone(m', c, prio, h, n, target);
  }

  lemma WalkDone(m: Mem, c: Queues, prio: map<int, int>, h: int, n: int, target: Queues)
    requires h in c && Walking(m, c, prio, h, h, n, target)
    ensures Family(m, target)
  {
    assert Token(0);
    assert c[h] == [];
  }

  /** The priority schedule picks from: the run queues are tested from the top down, the last one is
      not tested. */
  method FindTop(m: Mem, ghost q: Queues) returns (i: int)
    requires Family(m, q) && HasQueues(q)
    ensures i == Top(q)
  {
    i := PRIORITIES - 1;
    while i > 0 && Rd(m, RunQ(i) + 4) == RunQ(i)
      invariant 0 <= i < PRIORITIES && TopFrom(q, i) == Top(q)
    {
      EmptyRing(m, RunQ(i), q[RunQ(i)]);
      i := i - 1;
    }
    EmptyRing(m, RunQ(i), q[RunQ(i)]);
  }

  /** schedule: the first thread of that queue runs and goes to its tail. */
  method PickNext(m: Mem, ghost a: Sys) returns (m': Mem, next: int)
    requires Family(m, a.q) && HasQueues(a.q) && a.q[RunQ(0)] != []
    ensures Family(m', Scheduled(a).q) && next == Scheduled(a).current
  {
    var i := FindTop(m, a.q);
    TopIsHighest(a.q, PRIORITIES - 1);
    m', next := Rotate(m, RunQ(i), a.q);
  }

  method Rotate(m: Mem, h: int, ghost q: Queues) returns (m': Mem, x: int)
    requires Family(m, q) && h in q && q[h] != []
    ensures x == q[h][0] && Family(m', q[h := q[h][1..] + [x]])
  {
    ghost var s := q[h];
    assert Link(m, NODE, h, s, 0);
    x := Rd(m, h + 4);
    m' := ListDel(m, x, q, h, 0);
    m' := ListAddTail(m', h, x, Dropped(q, h, 0));
    assert RemoveAt(s, 0) == s[1..];
    assert Dropped(q, h, 0)[h := s[1..] + [x]] == q[h := s[1..] + [x]];
  }

  // ----- Each step, on values -----

  /** The lists in memory are the queues of an orderly state; folded. */
  ghost predicate Sound(m: Mem, a: Sys, idle: int) {
    forall t :: Token(t) ==> Family(m, a.q) && Inv(a, idle)
  }

  lemma Open(m: Mem, a: Sys, idle: int)
    requires Sound(m, a, idle)
    ensures Family(m, a.q) && Inv(a, idle)
  {
    assert Token(0);
  }

  /** What schedule may start from: orderly queues with the idle thread, whoever is running. */
  ghost predicate Pending(m: Mem, a: Sys, idle: int) {
    forall t :: Token(t) ==> Family(m, a.q) && Good(a.q, a.prio) && idle in a.q[RunQ(0)]
  }

  /** The state once the list moves of a step are done. */
  ghost function Between(a: Sys, idle: int, s: Step): Sys {
    if Inv(a, idle) && Enabled(a, idle, s) then a.(q := Moved(a, idle, s), prio := NewPrio(a, s)) else a
  }

  lemma Rescheduled(a: Sys, idle: int, s: Step)
    requires Inv(a, idle) && Enabled(a, idle, s)
    ensures HasQueues(Between(a, idle, s).q) && Between(a, idle, s).q[RunQ(0)] != []
    ensures After(a, idle, s) == if Reschedules(s) then Scheduled(Between(a, idle, s)) else Between(a, idle, s)
  {
    MovedGood(a, idle, s);
  }

  /** The list moves of a step that calls schedule next. */
  lemma NowPending(m: Mem, a: Sys, idle: int, s: Step)
    requires Inv(a, idle) && Enabled(a, idle, s) && Family(m, Moved(a, idle, s))
    ensures Pending(m, Between(a, idle, s), idle)
  {
    MovedGood(a, idle, s);
  }

  method Reschedule(m: Mem, ghost b: Sys, ghost idle: int) returns (m': Mem, next: int, ghost c: Sys)
    requires Pending(m, b, idle)
    ensures Sound(m', c, idle) && c.current == next && c.prio == b.prio && Runnable(b.q) && c == Scheduled(b)
  {
    assert Token(0);
    ScheduledGood(b, idle);
    c := Scheduled(b);
    m', next := PickNext(m, b);
  }

  /** What an enabled step does, list by list. */
  lemma Acts(m: Mem, a: Sys, idle: int, s: Step)
    requires Sound(m, a, idle) && (s == Yield || s == Step.Schedule || Enabled(a, idle, s))
    ensures Effect(a, After(a, idle, s), s)
  {
    Open(m, a, idle);
    StepEffect(a, idle, s);
  }

  method CreateStep(m: Mem, x: int, p: int, runnable: bool, ghost a: Sys, ghost idle: int) returns (m': Mem)
    requires Sound(m, a, idle) && Enabled(a, idle, Create(x, p, runnable))
    ensures var b := After(a, idle, Create(x, p, runnable)); Sound(m', b, idle) && b.prio == a.prio[x := p] && b.current == a.current
    ensures Effect(a, After(a, idle, Create(x, p, runnable)), Create(x, p, runnable))
  {
    Acts(m, a, idle, Create(x, p, runnable));
    Open(m, a, idle);
    StepKeepsInv(a, idle, Create(x, p, runnable));
    m' := ListAddTail(m, if runnable then RunQ(p) else WaitQ(p), x, a.q);
  }

  method WakeStep(m: Mem, x: int, prio: map<int, int>, ghost a: Sys, ghost idle: int) returns (m': Mem)
    requires Sound(m, a, idle) && prio == a.prio && Enabled(a, idle, Wake(x))
    ensures var b := After(a, idle, Wake(x)); Sound(m', b, idle) && b.prio == a.prio && b.current == a.current
    ensures Effect(a, After(a, idle, Wake(x)), Wake(x))
  {
    Acts(m, a, idle, Wake(x));
    Open(m, a, idle);
    StepKeepsInv(a, idle, Wake(x));
    m' := PtWakeup(m, prio, x, a.q);
  }

  method WakeAllStep(m: Mem, h: int, prio: map<int, int>, ghost a: Sys, ghost idle: int) returns (m': Mem)
    requires Sound(m, a, idle) && prio == a.prio && Enabled(a, idle, WakeAll(h))
    ensures var b := After(a, idle, WakeAll(h)); Sound(m', b, idle) && b.prio == a.prio && b.current == a.current
    ensures Effect(a, After(a, idle, WakeAll(h)), WakeAll(h))
  {
    Acts(m, a, idle, WakeAll(h));
    Open(m, a, idle);
    StepKeepsInv(a, idle, WakeAll(h));
    m' := WakeupWaiters(m, prio, h, a.q);
  }

  method OpenStep(m: Mem, h: int, ghost a: Sys, ghost idle: int) returns (m': Mem)
    requires Sound(m, a, idle) && Enabled(a, idle, OpenList(h))
    ensures var b := After(a, idle, OpenList(h)); Sound(m', b, idle) && b.prio == a.prio && b.current == a.current
    ensures Effect(a, After(a, idle, OpenList(h)), OpenList(h))
  {
    Acts(m, a, idle, OpenList(h));
    Open(m, a, idle);
    StepKeepsInv(a, idle, OpenList(h));
    m' := ListInit(m, h, a.q);
  }

  lemma CloseStep(m: Mem, a: Sys, idle: int, h: int)
    requires Sound(m, a, idle) && Enabled(a, idle, CloseList(h))
    ensures var b := After(a, idle, CloseList(h)); Sound(m, b, idle) && b.prio == a.prio && b.current == a.current
    ensures Effect(a, After(a, idle, CloseList(h)), CloseList(h))
  {
    Acts(m, a, idle, CloseList(h));
    Open(m, a, idle);
    StepKeepsInv(a, idle, CloseList(h));
  }

  /** The running thread moves to the front or the end of list h. */
  method MoveCurrent(m: Mem, h: int, front: bool, x: int, ghost a: Sys, ghost idle: int) returns (m': Mem)
    requires Family(m, a.q) && Inv(a, idle) && x == a.current && h in a.q
    ensures var q := Detach(a.q, x); Family(m', if front then Push(q, h, x) else Append(q, h, x))
  {
    m' := Unlink(m, x, a.q);
    if front {
      m' := ListAdd(m', h, x, Detach(a.q, x));
    } else {
      m' := ListAddTail(m', h, x, Detach(a.q, x));
    }
  }

  /** ksleep and the waits up to the call of schedule. */
  method SleepMoves(m: Mem, ms: int, x: int, prio: map<int, int>, ghost a: Sys, ghost idle: int) returns (m': Mem)
    requires Sound(m, a, idle) && x == a.current && prio == a.prio && ms >= 0 && (ms > 0 ==> x != idle)
    ensures Pending(m', Between(a, idle, if ms == 0 then Yield else Step.Sleep), idle)
  {
    Open(m, a, idle);
    var h := if ms == 0 then RunQ(prio[x]) else WaitQ(prio[x]);
    m' := MoveCurrent(m, h, false, x, a, idle);
    NowPending(m', a, idle, if ms == 0 then Yield else Step.Sleep);
  }

  method WaitMoves(m: Mem, h: int, front: bool, x: int, ghost a: Sys, ghost idle: int) returns (m': Mem)
    requires Sound(m, a, idle) && x == a.current && Enabled(a, idle, WaitOn(h, front))
    ensures Pending(m', Between(a, idle, WaitOn(h, front)), idle)
  {
    Open(m, a, idle);
    m' := MoveCurrent(m, h, front, x, a, idle);
    NowPending(m', a, idle, WaitOn(h, front));
  }

  method ExitMoves(m: Mem, h: int, x: int, prio: map<int, int>, ghost a: Sys, ghost idle: int) returns (m': Mem)
    requires Sound(m, a, idle) && x == a.current && prio == a.prio && Enabled(a, idle, Exit(h))
    ensures Pending(m', Between(a, idle, Exit(h)), idle)
  {
    Open(m, a, idle);
    ExitReady(a, idle, h);
    m' := Unlink(m, x, a.q);
    m' := WakeupWaiters(m', prio, h, Detach(a.q, x));
    NowPending(m', a, idle, Exit(h));
  }

  /** A step that calls schedule is its list moves and then schedule. */
  lemma EnabledStep(m: Mem, a: Sys, idle: int, s: Step)
    requires Sound(m, a, idle) && Reschedules(s) && (s == Yield || Enabled(a, idle, s))
    ensures var b := Between(a, idle, s);
            Runnable(b.q) && After(a, idle, s) == Scheduled(b) && b.prio == a.prio && b.current == a.current
  {
    Open(m, a, idle);
    Rescheduled(a, idle, s);
  }

  /** schedule after the list moves of step s. */
  method Complete(m: Mem, ghost m0: Mem, ghost a: Sys, ghost idle: int, ghost s: Step) returns (m': Mem, next: int, ghost c: Sys)
    requires Sound(m0, a, idle) && Reschedules(s) && (s == Yield || Enabled(a, idle, s)) && Pending(m, Between(a, idle, s), idle)
    ensures Sound(m', c, idle) && c == After(a, idle, s) && c.current == next && c.prio == a.prio
    ensures Effect(a, c, s)
  {
    Acts(m0, a, idle, s);
    EnabledStep(m0, a, idle, s);
    m', next, c := Reschedule(m, Between(a, idle, s), idle);
  }

  method ScheduleStep(m: Mem, ghost a: Sys, ghost idle: int) returns (m': Mem, next: int, ghost c: Sys)
    requires Sound(m, a, idle)
    ensures Sound(m', c, idle) && c == After(a, idle, Step.Schedule) && c.current == next && c.prio == a.prio
    ensures Effect(a, c, Step.Schedule)
  {
    Open(m, a, idle);
    NowPending(m, a, idle, Step.Schedule);
    m', next, c := Complete(m, m, a, idle, Step.Schedule);
  }

  method SleepStep(m: Mem, ms: int, x: int, prio: map<int, int>, ghost a: Sys, ghost idle: int) returns (m': Mem, next: int, ghost c: Sys)
    requires Sound(m, a, idle) && x == a.current && prio == a.prio && ms >= 0 && (ms > 0 ==> x != idle)
    ensures Sound(m', c, idle) && c == After(a, idle, if ms == 0 then Yield else Step.Sleep) && c.current == next && c.prio == a.prio
    ensures Effect(a, c, if ms == 0 then Yield else Step.Sleep)
  {
    m' := SleepMoves(m, ms, x, prio, a, idle);
    m', next, c := Complete(m', m, a, idle, if ms == 0 then Yield else Step.Sleep);
  }

  method WaitStep(m: Mem, h: int, front: bool, x: int, ghost a: Sys, ghost idle: int) returns (m': Mem, next: int, ghost c: Sys)
    requires Sound(m, a, idle) && x == a.current && Enabled(a, idle, WaitOn(h, front))
    ensures Sound(m', c, idle) && c == After(a, idle, WaitOn(h, front)) && c.current == next && c.prio == a.prio
    ensures Effect(a, c, WaitOn(h, front))
  {
    m' := WaitMoves(m, h, front, x, a, idle);
    m', next, c := Complete(m', m, a, idle, WaitOn(h, front));
  }

  method ExitStep(m: Mem, h: int, x: int, prio: map<int, int>, ghost a: Sys, ghost idle: int) returns (m': Mem, next: int, ghost c: Sys)
    requires Sound(m, a, idle) && x == a.current && prio == a.prio && Enabled(a, idle, Exit(h))
    ensures Sound(m', c, idle) && c == After(a, idle, Exit(h)) && c.current == next && c.prio == a.prio
    ensures Effect(a, c, Exit(h))
  {
    m' := ExitMoves(m, h, x, prio, a, idle);
    m', next, c := Complete(m', m, a, idle, Exit(h));
  }

  /** schedule_init: all queues are initialised, then the idle thread is created on queue zero. */
  method Initialise(m0: Mem, idle: int) returns (m: Mem)
    requires IsThread(idle)
    ensures Sound(m, Boot(idle), idle)
  {
    m := m0;
    var i := 0;
    while i < PRIORITIES
      invariant 0 <= i <= PRIORITIES && Family(m, EmptyQueues(i))
    {
      EmptyQueuesStep(i);
      FreshQueues(i);
      m := ListInit(m, RunQ(i), EmptyQueues(i));
      m := ListInit(m, WaitQ(i), EmptyQueues(i)[RunQ(i) := []]);
      i := i + 1;
    }
    IdleIsLoose(idle);
    m := ListAddTail(m, RunQ(0), idle, EmptyQueues(PRIORITIES));
    BootInv(idle);
  }

  lemma FreshQueues(i: int)
    requires 0 <= i < PRIORITIES
    ensures Loose(EmptyQueues(i), RunQ(i)) && Loose(EmptyQueues(i)[RunQ(i) := []], WaitQ(i))
  {
    EmptyQueuesStep(i);
  }

  lemma IdleIsLoose(idle: int)
    requires IsThread(idle)
    ensures var q := EmptyQueues(PRIORITIES); RunQ(0) in q && q[RunQ(0)] == [] && Loose(q, idle)
    ensures Append(EmptyQueues(PRIORITIES), RunQ(0), idle) == Boot(idle).q
  {
    assert RunQ(0) in QueueHeads(PRIORITIES);
    assert idle !in EmptyQueues(PRIORITIES);
    assert [] + [idle] == [idle];
  }

  lemma Restored(mem: Mem, m: Mem, b: Sys, c: Sys, idle: int)
    requires Sound(m, c, idle) && mem == m && b == c
    ensures Sound(mem, b, idle)
  {
  }

  class Scheduler {
    var mem: Mem
    var prio: map<int, int>
    var current: int
    const idle: int
    ghost var q: Queues

    ghost function View(): Sys
      reads this
    {
      Sys(q, prio, current)
    }

    ghost predicate Valid()
      reads this
    {
      Sound(mem, View(), idle)
    }

    /** schedule_init, and the jump into the idle thread that follows it. */
    constructor (m: Mem, idle: int)
      requires IsThread(idle)
      ensures Valid() && this.idle == idle && View() == Boot(idle)
      ensures Only(q, RunQ(0), idle) && (forall k :: 0 <= k < 5 ==> RunQ(k) in q && WaitQ(k) in q)
      ensures prio == map[idle := 0] && current == idle
    {
      BootQueues(idle);
      var m' := Initialise(m, idle);
      mem, prio, current, this.idle := m', map[idle := 0], idle, idle;
      q := Boot(idle).q;
    }

    method Schedule()
      requires Valid()
      modifies this
      ensures Valid() && View() == After(old(View()), idle, Step.Schedule)
      ensures Effect(old(View()), View(), Step.Schedule)
    {
      var m, next;
      ghost var c;
      m, next, c := ScheduleStep(mem, View(), idle);
      mem, current, q := m, next, c.q;
      Restored(mem, m, View(), c, idle);
    }

    method Create(x: int, p: int, runnable: bool)
      requires Valid() && Enabled(View(), idle, Step.Create(x, p, runnable))
      modifies this
      ensures Valid() && View() == After(old(View()), idle, Step.Create(x, p, runnable))
      ensures Effect(old(View()), View(), Step.Create(x, p, runnable))
    {
      ghost var a := View();
      var m := CreateStep(mem, x, p, runnable, a, idle);
      mem, prio, q := m, prio[x := p], After(a, idle, Step.Create(x, p, runnable)).q;
    }

    method Wakeup(x: int)
      requires Valid() && Enabled(View(), idle, Wake(x))
      modifies this
      ensures Valid() && View() == After(old(View()), idle, Wake(x))
      ensures Effect(old(View()), View(), Wake(x))
    {
      ghost var a := View();
      var m := WakeStep(mem, x, prio, a, idle);
      mem, q := m, After(a, idle, Wake(x)).q;
    }

    method WakeupAll(h: int)
      requires Valid() && Enabled(View(), idle, WakeAll(h))
      modifies this
      ensures Valid() && View() == After(old(View()), idle, WakeAll(h))
      ensures Effect(old(View()), View(), WakeAll(h))
    {
      ghost var a := View();
      var m := WakeAllStep(mem, h, prio, a, idle);
      mem, q := m, After(a, idle, WakeAll(h)).q;
    }

    /** A wait list is initialised. */
    method InitWaitList(h: int)
      requires Valid() && Enabled(View(), idle, OpenList(h))
      modifies this
      ensures Valid() && View() == After(old(View()), idle, OpenList(h))
      ensures Effect(old(View()), View(), OpenList(h))
    {
      ghost var a := View();
      var m := OpenStep(mem, h, a, idle);
      mem, q := m, After(a, idle, OpenList(h)).q;
    }

    /** An empty wait list goes out of use; nothing is written. */
    method DropWaitList(h: int)
      requires Valid() && Enabled(View(), idle, CloseList(h))
      modifies this
      ensures Valid() && View() == After(old(View()), idle, CloseList(h))
      ensures Effect(old(View()), View(), CloseList(h))
    {
      CloseStep(mem, View(), idle, h);
      q := After(View(), idle, CloseList(h)).q;
    }

    /** ksleep: to the wait queue for a positive time, to the end of the run queue for zero; negative
        times are refused. */
    method Sleep(ms: int) returns (ok: bool)
      requires Valid() && (ms > 0 ==> current != idle)
      modifies this
      ensures Valid() && (ok <==> ms >= 0)
      ensures View() == if ms < 0 then old(View()) else After(old(View()), idle, if ms == 0 then Yield else Step.Sleep)
      ensures ms >= 0 ==> Effect(old(View()), View(), if ms == 0 then Yield else Step.Sleep)
    {
      if ms < 0 { return false; }
      var m, next;
      ghost var c;
      m, next, c := SleepStep(mem, ms, current, prio, View(), idle);
      mem, current, q := m, next, c.q;
      Restored(mem, m, View(), c, idle);
      ok := true;
    }

    /** pt_wait_on and kwait_pid: the running thread joins a wait list, at its end or at its front. */
    method WaitOn(h: int, front: bool)
      requires Valid() && Enabled(View(), idle, Step.WaitOn(h, front))
      modifies this
      ensures Valid() && View() == After(old(View()), idle, Step.WaitOn(h, front))
      ensures Effect(old(View()), View(), Step.WaitOn(h, front))
    {
      var m, next;
      ghost var c;
      m, next, c := WaitStep(mem, h, front, current, View(), idle);
      mem, current, q := m, next, c.q;
      Restored(mem, m, View(), c, idle);
    }

    /** shutdown_thread: the running thread leaves the queues and wakes its waiters. */
    method Exit(h: int)
      requires Valid() && Enabled(View(), idle, Step.Exit(h))
      modifies this
      ensures Valid() && View() == After(old(View()), idle, Step.Exit(h))
      ensures Effect(old(View()), View(), Step.Exit(h))
    {
      var m, next;
      ghost var c;
      m, next, c := ExitStep(mem, h, current, prio, View(), idle);
      mem, current, q := m, next, c.q;
      Restored(mem, m, View(), c, idle);
    }
  }
}
