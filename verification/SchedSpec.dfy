/** The priority round-robin scheduler (Kernel/kthread.c) as a state machine over its queues. */
module SchedSpec {
  import opened Lists
  import opened Seqs

  const PRIORITIES := 5    // MAX_PRIORITY

  /** List heads run_queue[k] and wait_queue[k]. Heads of process wait lists come and go. */
  function RunQ(k: int): int { 16 * k + 8 }

  function WaitQ(k: int): int { 16 * (k + PRIORITIES) + 8 }

  /** q: which thread nodes are on which list; prio: the fixed priority of each thread ever created. */
  datatype Sys = Sys(q: Queues, prio: map<int, int>, current: int)

  ghost predicate NoDup(s: seq<int>) {
    forall i, j :: 0 <= i < j < |s| ==> s[i] != s[j]
  }

  /** No thread is on two lists, or twice on one, and no list head is on a list. */
  ghost predicate Placed(q: Queues) {
    && (forall h :: h in q ==> Aligned(h) && NoDup(q[h]))
    && (forall h, x :: h in q && x in q[h] ==> Aligned(x) && x !in q)
    && (forall h, g, x :: h in q && g in q && x in q[h] && x in q[g] ==> h == g)
  }

  ghost predicate HasQueues(q: Queues) {
    forall k :: 0 <= k < PRIORITIES ==> RunQ(k) in q && WaitQ(k) in q
  }

  ghost predicate IsRunQ(h: int) {
    exists k :: 0 <= k < PRIORITIES && h == RunQ(k)
  }

  ghost predicate Ranked(q: Queues, prio: map<int, int>)
    requires HasQueues(q)
  {
    && (forall h, x :: h in q && x in q[h] ==> x in prio && 0 <= prio[x] < PRIORITIES)
    && (forall k, x :: 0 <= k < PRIORITIES && x in q[RunQ(k)] ==> x in prio && prio[x] == k)
  }

  /** Runnable threads sit on the run queue of their priority; the idle thread always does, on queue
      zero; and so does the running thread. */
  ghost predicate Inv(a: Sys, idle: int) {
    && Placed(a.q) && HasQueues(a.q) && Ranked(a.q, a.prio) && idle in a.q[RunQ(0)]
    && a.current in a.prio && 0 <= a.prio[a.current] < PRIORITIES && a.current in a.q[RunQ(a.prio[a.current])]
  }

  // ----- Queue moves -----

  ghost function Detach(q: Queues, x: int): Queues {
    map h | h in q :: Without(q[h], x)
  }

  ghost function Push(q: Queues, h: int, x: int): Queues
    requires h in q
  {
    q[h := [x] + q[h]]
  }

  ghost function Append(q: Queues, h: int, x: int): Queues
    requires h in q
  {
    q[h := q[h] + [x]]
  }

  /** pt_wakeup: x goes to the front of its run queue, wherever it was. */
  ghost function Woken(q: Queues, prio: map<int, int>, x: int): Queues
    requires HasQueues(q) && x in prio && 0 <= prio[x] < PRIORITIES
  {
    Push(Detach(q, x), RunQ(prio[x]), x)
  }

  /** wakeup_waiters on the waiters ws, in list order. */
  ghost function AllWoken(q: Queues, prio: map<int, int>, ws: seq<int>): Queues
    requires HasQueues(q) && forall x :: x in ws ==> x in prio && 0 <= prio[x] < PRIORITIES
  {
    if ws == [] then q else AllWoken(Woken(q, prio, ws[0]), prio, ws[1..])
  }

  /** The highest priority not above i with a non-empty run queue; zero if there is none. */
  ghost function TopFrom(q: Queues, i: int): (r: int)
    requires HasQueues(q) && i < PRIORITIES
    ensures 0 <= r < PRIORITIES
  {
    if i <= 0 then 0 else if q[RunQ(i)] != [] then i else TopFrom(q, i - 1)
  }

  ghost function Top(q: Queues): int
    requires HasQueues(q)
  {
    TopFrom(q, PRIORITIES - 1)
  }

  lemma {:induction false} TopIsHighest(q: Queues, i: int)
    requires HasQueues(q) && 0 <= i < PRIORITIES && q[RunQ(0)] != []
    ensures 0 <= TopFrom(q, i) <= i && q[RunQ(TopFrom(q, i))] != []
    ensures forall k :: TopFrom(q, i) < k <= i ==> q[RunQ(k)] == []
  {
    if i > 0 && q[RunQ(i)] == [] { TopIsHighest(q, i - 1); }
  }

  /** schedule: the first thread of the highest non-empty run queue runs and goes to its end. */
  ghost function Scheduled(a: Sys): Sys
    requires HasQueues(a.q) && a.q[RunQ(0)] != []
  {
    TopIsHighest(a.q, PRIORITIES - 1);
    var h := RunQ(Top(a.q));
    var x := a.q[h][0];
    a.(q := a.q[h := a.q[h][1..] + [x]], current := x)
  }

  // ----- Steps -----

  datatype Step =
    | Create(x: int, p: int, runnable: bool)   // kcreate_thread
    | Wake(x: int)                             // pt_wakeup, from an interrupt or another thread
    | WakeAll(h: int)                          // wakeup_waiters
    | Sleep                                    // ksleep with a positive time
    | Yield                                    // ksleep(0)
    | WaitOn(h: int, front: bool)              // pt_wait_on, kwait_pid
    | Exit(h: int)                             // shutdown_thread: leave, wake the waiters, schedule
    | Schedule
    | OpenList(h: int)                         // list_init of a wait list
    | CloseList(h: int)                        // an empty wait list goes out of use

  /** The run and wait queues of the priorities, which are always there. */
  ghost predicate IsQueue(h: int) {
    exists k :: 0 <= k < PRIORITIES && (h == RunQ(k) || h == WaitQ(k))
  }

  ghost predicate OnSomeList(q: Queues, x: int) {
    exists h :: h in q && x in q[h]
  }

  ghost predicate Enabled(a: Sys, idle: int, s: Step) {
    match s
    case Create(x, p, _) => Loose(a.q, x) && 0 <= p < PRIORITIES
    case Wake(x) => OnSomeList(a.q, x)
    case WakeAll(h) => h in a.q && !IsRunQ(h)
    case Sleep => a.current != idle
    case Yield => true
    case WaitOn(h, _) => a.current != idle && h in a.q && !IsRunQ(h)
    case Exit(h) => a.current != idle && h in a.q && !IsRunQ(h)
    case Schedule => true
    case OpenList(h) => Loose(a.q, h)
    case CloseList(h) => h in a.q && a.q[h] == [] && !IsQueue(h)
  }

  /** The queues once the step's own list moves are done, before it calls schedule, if it does. */
  ghost function Moved(a: Sys, idle: int, s: Step): Queues
    requires Inv(a, idle) && Enabled(a, idle, s)
  {
    match s
    case Create(x, p, runnable) => Append(a.q, if runnable then RunQ(p) else WaitQ(p), x)
    case Wake(x) => Woken(a.q, a.prio, x)
    case WakeAll(h) => AllWoken(a.q, a.prio, a.q[h])
    case Sleep => Append(Detach(a.q, a.current), WaitQ(a.prio[a.current]), a.current)
    case Yield => Append(Detach(a.q, a.current), RunQ(a.prio[a.current]), a.current)
    case WaitOn(h, front) =>
      var q := Detach(a.q, a.current);
      if front then Push(q, h, a.current) else Append(q, h, a.current)
    case Exit(h) => AllWoken(Detach(a.q, a.current), a.prio, a.q[h])
    case Schedule => a.q
    case OpenList(h) => a.q[h := []]
    case CloseList(h) => a.q - {h}
  }

  ghost predicate Reschedules(s: Step) {
    s.Sleep? || s.Yield? || s.WaitOn? || s.Exit? || s.Schedule?
  }

  ghost function NewPrio(a: Sys, s: Step): map<int, int> {
    if s.Create? then a.prio[s.x := s.p] else a.prio
  }

  // ----- The moves keep the queues in order -----

  lemma {:induction false} WithoutNoDup(s: seq<int>, x: int)
    requires NoDup(s)
    ensures NoDup(Without(s, x))
  {
    if s != [] {
      WithoutNoDup(s[1..], x);
      WithoutIn(s[1..], x, s[0]);
    }
  }

  lemma DetachIn(q: Queues, x: int, h: int, y: int)
    requires h in q
    ensures y in Detach(q, x)[h] <==> y in q[h] && y != x
  {
    WithoutIn(q[h], x, y);
  }

  /** x may be moved to another list: it is a node, not a head. */
  ghost predicate Movable(q: Queues, x: int) {
    Aligned(x) && x !in q
  }

  lemma DetachPlaced(q: Queues, x: int)
    requires Placed(q) && Movable(q, x)
    ensures Placed(Detach(q, x)) && Loose(Detach(q, x), x)
  {
    var q' := Detach(q, x);
    forall h, y | h in q' ensures y in q'[h] <==> y in q[h] && y != x { DetachIn(q, x, h, y); }
    forall h | h in q' ensures NoDup(q'[h]) { WithoutNoDup(q[h], x); }
  }

  lemma PutPlaced(q: Queues, h: int, x: int)
    requires Placed(q) && Loose(q, x) && h in q
    ensures Placed(Push(q, h, x)) && Placed(Append(q, h, x))
  {
    assert forall y :: y in [x] + q[h] <==> y == x || y in q[h];
    assert forall y :: y in q[h] + [x] <==> y == x || y in q[h];
  }

  lemma DetachRanked(q: Queues, prio: map<int, int>, x: int)
    requires HasQueues(q) && Ranked(q, prio)
    ensures HasQueues(Detach(q, x)) && Ranked(Detach(q, x), prio)
  {
    var q' := Detach(q, x);
    forall h, y | h in q' ensures y in q'[h] <==> y in q[h] && y != x { DetachIn(q, x, h, y); }
  }

  /** A thread may join any list but the run queue of another priority. */
  lemma PutRanked(q: Queues, prio: map<int, int>, h: int, x: int)
    requires HasQueues(q) && Ranked(q, prio) && h in q && x in prio && 0 <= prio[x] < PRIORITIES
    requires IsRunQ(h) ==> h == RunQ(prio[x])
    ensures Ranked(Push(q, h, x), prio) && Ranked(Append(q, h, x), prio)
  {
    forall k | 0 <= k < PRIORITIES && h == RunQ(k) ensures k == prio[x] { assert IsRunQ(h); }
    assert forall y :: y in [x] + q[h] <==> y == x || y in q[h];
    assert forall y :: y in q[h] + [x] <==> y == x || y in q[h];
  }

  ghost predicate Good(q: Queues, prio: map<int, int>) {
    Placed(q) && HasQueues(q) && Ranked(q, prio)
  }

  lemma WokenGood(q: Queues, prio: map<int, int>, x: int)
    requires Good(q, prio) && Movable(q, x) && x in prio && 0 <= prio[x] < PRIORITIES
    ensures Good(Woken(q, prio, x), prio)
    ensures forall h, y :: h in q && y != x ==> (y in Woken(q, prio, x)[h] <==> y in q[h])
    ensures x in Woken(q, prio, x)[RunQ(prio[x])]
  {
    var q1, h0 := Detach(q, x), RunQ(prio[x]);
    DetachPlaced(q, x);
    DetachRanked(q, prio, x);
    PutPlaced(q1, h0, x);
    PutRanked(q1, prio, h0, x);
    forall h, y | h in q && y != x ensures y in Woken(q, prio, x)[h] <==> y in q[h] { DetachIn(q, x, h, y); }
  }

  lemma {:induction false} AllWokenGood(q: Queues, prio: map<int, int>, ws: seq<int>)
    requires Good(q, prio) && forall x :: x in ws ==> Movable(q, x) && x in prio && 0 <= prio[x] < PRIORITIES
    ensures Good(AllWoken(q, prio, ws), prio) && AllWoken(q, prio, ws).Keys == q.Keys
    ensures forall k, y :: 0 <= k < PRIORITIES && y in q[RunQ(k)] ==> y in AllWoken(q, prio, ws)[RunQ(k)]
  {
    if ws != [] {
      var q1 := Woken(q, prio, ws[0]);
      assert ws[0] in ws;
      WokenGood(q, prio, ws[0]);
      assert q1.Keys == q.Keys;
      forall x | x in ws[1..] ensures Movable(q1, x) && x in prio && 0 <= prio[x] < PRIORITIES { assert x in ws; }
      AllWokenGood(q1, prio, ws[1..]);
    }
  }

  lemma QueuesDiffer(k: int, p: int)
    requires 0 <= k < PRIORITIES && 0 <= p < PRIORITIES
    ensures !IsRunQ(WaitQ(p)) && (RunQ(k) == RunQ(p) <==> k == p) && IsRunQ(RunQ(k))
  {
  }

  lemma DetachGood(q: Queues, prio: map<int, int>, x: int)
    requires Good(q, prio) && Movable(q, x)
    ensures Good(Detach(q, x), prio) && Loose(Detach(q, x), x)
  {
    DetachPlaced(q, x);
    DetachRanked(q, prio, x);
  }

  lemma PutGood(q: Queues, prio: map<int, int>, h: int, x: int)
    requires Good(q, prio) && Loose(q, x) && h in q && x in prio && 0 <= prio[x] < PRIORITIES && (IsRunQ(h) ==> h == RunQ(prio[x]))
    ensures Good(Push(q, h, x), prio) && Good(Append(q, h, x), prio)
  {
    PutPlaced(q, h, x);
    PutRanked(q, prio, h, x);
  }

  lemma StillThere(q: Queues, h: int, x: int, y: int)
    requires HasQueues(q) && h in q && y in q[RunQ(0)]
    ensures y in Push(q, h, x)[RunQ(0)] && y in Append(q, h, x)[RunQ(0)]
  {
  }

  lemma CurrentMovable(a: Sys, idle: int)
    requires Inv(a, idle)
    ensures Good(a.q, a.prio) && Movable(a.q, a.current)
  {
  }

  /** Moving the current thread to list h, or dropping it. */
  lemma MoveGood(a: Sys, idle: int, h: int)
    requires Inv(a, idle) && a.current != idle && h in a.q && (IsRunQ(h) ==> h == RunQ(a.prio[a.current]))
    ensures var q := Detach(a.q, a.current);
            && Good(q, a.prio) && Good(Push(q, h, a.current), a.prio) && Good(Append(q, h, a.current), a.prio)
            && idle in q[RunQ(0)] && idle in Push(q, h, a.current)[RunQ(0)] && idle in Append(q, h, a.current)[RunQ(0)]
  {
    var x := a.current;
    var q := Detach(a.q, x);
    CurrentMovable(a, idle);
    DetachGood(a.q, a.prio, x);
    PutGood(q, a.prio, h, x);
    DetachIn(a.q, x, RunQ(0), idle);
    StillThere(q, h, x, idle);
  }

  lemma CreateGood(a: Sys, idle: int, x: int, p: int, h: int)
    requires Inv(a, idle) && Loose(a.q, x) && 0 <= p < PRIORITIES && h in a.q && (IsRunQ(h) ==> h == RunQ(p))
    ensures Good(Append(a.q, h, x), a.prio[x := p]) && idle in Append(a.q, h, x)[RunQ(0)]
  {
    PutPlaced(a.q, h, x);
    RankedNew(a.q, a.prio, x, p);
    PutRanked(a.q, a.prio[x := p], h, x);
  }

  lemma RankedNew(q: Queues, prio: map<int, int>, x: int, p: int)
    requires HasQueues(q) && Ranked(q, prio) && Loose(q, x)
    ensures Ranked(q, prio[x := p])
  {
  }

  ghost predicate GoodMove(a: Sys, idle: int, s: Step)
    requires Inv(a, idle) && Enabled(a, idle, s)
  {
    Good(Moved(a, idle, s), NewPrio(a, s)) && idle in Moved(a, idle, s)[RunQ(0)]
  }

  /** The moves of every step leave all queues in order, with the idle thread on queue zero. */
  lemma MovedGood(a: Sys, idle: int, s: Step)
    requires Inv(a, idle) && Enabled(a, idle, s)
    ensures GoodMove(a, idle, s)
  {
    match s
    case Create(x, p, runnable) => CreateMove(a, idle, s, x, p);
    case Wake(x) => WakeMove(a, idle, s, x);
    case WakeAll(h) => WakeAllMove(a, idle, s, h);
    case Sleep => SleepMove(a, idle, s);
    case Yield => YieldGood(a, idle);
    case WaitOn(h, front) => MoveGood(a, idle, h);
    case Exit(h) => ExitMove(a, idle, s, h);
    case Schedule =>
    case OpenList(h) => OpenGood(a.q, a.prio, h);
    case CloseList(h) => CloseGood(a.q, a.prio, h);
  }

  lemma OpenGood(q: Queues, prio: map<int, int>, h: int)
    requires Good(q, prio) && Loose(q, h)
    ensures Good(q[h := []], prio) && forall g :: g in q ==> q[h := []][g] == q[g]
  {
  }

  lemma CloseGood(q: Queues, prio: map<int, int>, h: int)
    requires Good(q, prio) && h in q && !IsQueue(h)
    ensures Good(q - {h}, prio) && forall k :: 0 <= k < PRIORITIES ==> (q - {h})[RunQ(k)] == q[RunQ(k)]
  {
    forall k | 0 <= k < PRIORITIES ensures RunQ(k) != h && WaitQ(k) != h { assert !IsQueue(h); }
  }

  lemma CreateMove(a: Sys, idle: int, s: Step, x: int, p: int)
    requires Inv(a, idle) && Enabled(a, idle, s) && s.Create? && s.x == x && s.p == p
    ensures GoodMove(a, idle, s)
  {
    QueuesDiffer(p, p);
    CreateGood(a, idle, x, p, if s.runnable then RunQ(p) else WaitQ(p));
  }

  lemma WakeMove(a: Sys, idle: int, s: Step, x: int)
    requires Inv(a, idle) && Enabled(a, idle, s) && s == Wake(x)
    ensures GoodMove(a, idle, s)
  {
    WokenGood(a.q, a.prio, x);
  }

  lemma WakeAllMove(a: Sys, idle: int, s: Step, h: int)
    requires Inv(a, idle) && Enabled(a, idle, s) && s == WakeAll(h)
    ensures GoodMove(a, idle, s)
  {
    AllWokenGood(a.q, a.prio, a.q[h]);
  }

  lemma SleepMove(a: Sys, idle: int, s: Step)
    requires Inv(a, idle) && Enabled(a, idle, s) && s.Sleep?
    ensures GoodMove(a, idle, s)
  {
    QueuesDiffer(0, a.prio[a.current]);
    MoveGood(a, idle, WaitQ(a.prio[a.current]));
  }

  lemma ExitMove(a: Sys, idle: int, s: Step, h: int)
    requires Inv(a, idle) && Enabled(a, idle, s) && s == Exit(h)
    ensures GoodMove(a, idle, s)
  {
    MoveGood(a, idle, h);
    var q, ws := Detach(a.q, a.current), a.q[h];
    assert q.Keys == a.q.Keys;
    WakeRest(a.q, q, a.prio, ws, h);
  }

  lemma WakeRest(q0: Queues, q: Queues, prio: map<int, int>, ws: seq<int>, h: int)
    requires Good(q0, prio) && h in q0 && ws == q0[h] && Good(q, prio) && q.Keys == q0.Keys
    ensures forall x :: x in ws ==> x in prio && 0 <= prio[x] < PRIORITIES
    ensures Good(AllWoken(q, prio, ws), prio)
    ensures forall k, y :: 0 <= k < PRIORITIES && y in q[RunQ(k)] ==> y in AllWoken(q, prio, ws)[RunQ(k)]
  {
    forall x | x in ws ensures Movable(q, x) && x in prio && 0 <= prio[x] < PRIORITIES { assert x !in q0; }
    AllWokenGood(q, prio, ws);
  }

  lemma YieldGood(a: Sys, idle: int)
    requires Inv(a, idle)
    ensures var q := Append(Detach(a.q, a.current), RunQ(a.prio[a.current]), a.current); Good(q, a.prio) && idle in q[RunQ(0)]
  {
    var x := a.current;
    var q, h := Detach(a.q, x), RunQ(a.prio[x]);
    CurrentMovable(a, idle);
    DetachGood(a.q, a.prio, x);
    PutGood(q, a.prio, h, x);
    DetachIn(a.q, x, RunQ(0), idle);
    if idle != x { StillThere(q, h, x, idle); }
  }

  ghost function Next(a: Sys, idle: int, s: Step): Sys
    requires Inv(a, idle) && Enabled(a, idle, s)
  {
    MovedGood(a, idle, s);
    var b := a.(q := Moved(a, idle, s), prio := NewPrio(a, s));
    if Reschedules(s) then Scheduled(b) else b
  }

  /** The same as a total function: a step that is not enabled in an orderly state does nothing. */
  ghost function After(a: Sys, idle: int, s: Step): Sys {
    if Inv(a, idle) && Enabled(a, idle, s) then Next(a, idle, s) else a
  }

  /** schedule only rotates the queue it picks from, and the thread it picks is on its run queue. */
  lemma ScheduledGood(b: Sys, idle: int)
    requires Good(b.q, b.prio) && idle in b.q[RunQ(0)]
    ensures Inv(Scheduled(b), idle)
  {
    TopIsHighest(b.q, PRIORITIES - 1);
    var k := Top(b.q);
    var s := b.q[RunQ(k)];
    RotateNoDup(s);
    RotateGood(b.q, b.prio, RunQ(k), s[1..] + [s[0]]);
    assert s[0] in s;
    assert (s[1..] + [s[0]])[|s| - 1] == s[0];
  }

  /** Reordering one list keeps the queues in order. */
  lemma RotateGood(q: Queues, prio: map<int, int>, h: int, s: seq<int>)
    requires Good(q, prio) && h in q && NoDup(s) && forall y :: y in s <==> y in q[h]
    ensures Good(q[h := s], prio) && forall g, y :: g in q ==> (y in q[h := s][g] <==> y in q[g])
  {
  }

  lemma RotateNoDup(s: seq<int>)
    requires s != [] && NoDup(s)
    ensures NoDup(s[1..] + [s[0]]) && forall y :: y in s[1..] + [s[0]] <==> y in s
  {
    assert s == [s[0]] + s[1..];
  }

  lemma StepKeepsInv(a: Sys, idle: int, s: Step)
    requires Inv(a, idle) && Enabled(a, idle, s)
    ensures Inv(Next(a, idle, s), idle)
  {
    MovedGood(a, idle, s);
    var b := a.(q := Moved(a, idle, s), prio := NewPrio(a, s));
    if Reschedules(s) {
      ScheduledGood(b, idle);
    } else {
      CurrentStays(a, idle, s);
    }
  }

  /** Steps that do not call schedule leave the running thread on its run queue. */
  lemma CurrentStays(a: Sys, idle: int, s: Step)
    requires Inv(a, idle) && Enabled(a, idle, s) && !Reschedules(s)
    ensures HasQueues(Moved(a, idle, s))
    ensures var p := NewPrio(a, s); a.current in p && 0 <= p[a.current] < PRIORITIES && a.current in Moved(a, idle, s)[RunQ(p[a.current])]
  {
    MovedGood(a, idle, s);
    match s
    case Create(x, p, runnable) =>
    case Wake(x) => WokenGood(a.q, a.prio, x);
    case WakeAll(h) => AllWokenGood(a.q, a.prio, a.q[h]);
    case OpenList(h) => OpenGood(a.q, a.prio, h);
    case CloseList(h) => CloseGood(a.q, a.prio, h);
  }

  /** A run: each state follows from the one before by an enabled step. */
  ghost predicate IsRun(states: seq<Sys>, steps: seq<Step>, idle: int) {
    && |states| == |steps| + 1
    && forall i :: 0 <= i < |steps| && Inv(states[i], idle) ==> Enabled(states[i], idle, steps[i]) && states[i + 1] == Next(states[i], idle, steps[i])
  }

  /** Whatever the interleaving of steps, every state of a run satisfies the invariant. */
  lemma {:induction false} RunsAreSafe(states: seq<Sys>, steps: seq<Step>, idle: int, n: nat)
    requires IsRun(states, steps, idle) && Inv(states[0], idle) && n < |states|
    ensures Inv(states[n], idle)
  {
    if n > 0 {
      RunsAreSafe(states, steps, idle, n - 1);
      StepKeepsInv(states[n - 1], idle, steps[n - 1]);
    }
  }

  // ----- The state that schedule_init leaves -----

  ghost function QueueHeads(k: int): set<int> {
    (set i | 0 <= i < k :: RunQ(i)) + (set i | 0 <= i < k :: WaitQ(i))
  }

  /** The queues of the priorities below k, all empty. */
  ghost function EmptyQueues(k: int): Queues {
    map h | h in QueueHeads(k) :: []
  }

  lemma EmptyQueuesStep(k: int)
    requires 0 <= k < PRIORITIES
    ensures EmptyQueues(k)[RunQ(k) := []][WaitQ(k) := []] == EmptyQueues(k + 1)
    ensures RunQ(k) !in EmptyQueues(k) && WaitQ(k) !in EmptyQueues(k)
  {
    assert QueueHeads(k + 1) == QueueHeads(k) + {RunQ(k), WaitQ(k)};
  }

  /** All queues empty but for the idle thread, which is the one running. */
  ghost function Boot(idle: int): Sys {
    Sys(EmptyQueues(PRIORITIES)[RunQ(0) := [idle]], map[idle := 0], idle)
  }

  ghost predicate IsThread(x: int) {
    Aligned(x) && !IsQueue(x)
  }

  lemma HeadIsQueue(h: int)
    ensures h in QueueHeads(PRIORITIES) <==> IsQueue(h)
  {
    if IsQueue(h) {
      var k :| 0 <= k < PRIORITIES && (h == RunQ(k) || h == WaitQ(k));
    }
  }

  /** Lists of which only r holds anything, namely x. */
  ghost predicate Only(q: Queues, r: int, x: int) {
    r in q && forall h :: h in q ==> q[h] == if h == r then [x] else []
  }

  lemma OnlyPlaced(q: Queues, r: int, x: int)
    requires Only(q, r, x) && Aligned(x) && x !in q && forall h :: h in q ==> Aligned(h)
    ensures Placed(q)
  {
  }

  lemma OnlyRanked(q: Queues, x: int)
    requires HasQueues(q) && Only(q, RunQ(0), x)
    ensures Ranked(q, map[x := 0])
  {
    forall k, y | 0 <= k < PRIORITIES && y in q[RunQ(k)] ensures k == 0 && y == x { QueuesDiffer(k, 0); }
  }

  lemma BootQueues(idle: int)
    ensures var q := Boot(idle).q; Only(q, RunQ(0), idle) && (forall h :: h in q <==> IsQueue(h)) && HasQueues(q)
  {
    var q := Boot(idle).q;
    forall h ensures h in q <==> IsQueue(h) { HeadIsQueue(h); QueuesDiffer(0, 0); }
    forall k | 0 <= k < PRIORITIES ensures IsQueue(RunQ(k)) && IsQueue(WaitQ(k)) {}
  }

  lemma QueueAligned(h: int)
    requires IsQueue(h)
    ensures Aligned(h)
  {
  }

  lemma BootInv(idle: int)
    requires IsThread(idle)
    ensures Inv(Boot(idle), idle)
  {
    var q := Boot(idle).q;
    BootQueues(idle);
    forall h | h in q ensures Aligned(h) { QueueAligned(h); }
    OnlyPlaced(q, RunQ(0), idle);
    OnlyRanked(q, idle);
  }

  /** Every state that any run from the start reaches satisfies the invariant. */
  lemma RunsFromBoot(states: seq<Sys>, steps: seq<Step>, idle: int, n: nat)
    requires IsThread(idle) && IsRun(states, steps, idle) && states[0] == Boot(idle) && n < |states|
    ensures Inv(states[n], idle)
  {
    BootInv(idle);
    RunsAreSafe(states, steps, idle, n);
  }

  // ----- Round robin -----

  ghost predicate Runnable(q: Queues) {
    HasQueues(q) && q[RunQ(0)] != []
  }

  /** n calls of schedule with nothing in between. */
  ghost function ScheduledN(a: Sys, n: nat): (b: Sys)
    requires Runnable(a.q)
    ensures Runnable(b.q)
  {
    if n == 0 then a else Scheduled(ScheduledN(a, n - 1))
  }

  /** The thread that the n-th of these calls picks. */
  ghost function RunsAt(a: Sys, n: nat): int
    requires Runnable(a.q)
  {
    ScheduledN(a, n).current
  }

  /** With no wake-up or sleep in between, the thread at position k of the top queue runs at the
      (k+1)-th call of schedule, and at none of the calls before. */
  lemma RoundRobin(a: Sys, s: seq<int>, k: nat)
    requires Runnable(a.q) && s == a.q[RunQ(Top(a.q))] && NoDup(s) && k < |s|
    ensures RunsAt(a, k + 1) == s[k]
    ensures forall n :: 1 <= n <= k ==> RunsAt(a, n) != s[k]
  {
    Rotation(a, s, k);
    forall n | 1 <= n <= k ensures RunsAt(a, n) != s[k] { Rotation(a, s, n - 1); }
  }

  /** A full round of calls brings every queue back. */
  lemma FullRound(a: Sys, s: seq<int>)
    requires Runnable(a.q) && s == a.q[RunQ(Top(a.q))]
    ensures ScheduledN(a, |s|).q == a.q
  {
    RotatedQueue(a, s, |s|);
    assert s[|s|..] + s[..|s|] == s;
    assert a.q[RunQ(Top(a.q)) := s] == a.q;
  }

  lemma {:induction false} RotatedQueue(a: Sys, s: seq<int>, n: nat)
    requires Runnable(a.q) && s == a.q[RunQ(Top(a.q))] && n <= |s|
    ensures ScheduledN(a, n).q == a.q[RunQ(Top(a.q)) := s[n..] + s[..n]]
  {
    if n == 0 {
      assert s[0..] + s[..0] == s;
      assert a.q[RunQ(Top(a.q)) := s] == a.q;
    } else {
      RotatedQueue(a, s, n - 1);
      RotateOnce(a.q, ScheduledN(a, n - 1), s, n - 1);
    }
  }

  lemma RotateOnce(q: Queues, b: Sys, s: seq<int>, n: nat)
    requires Runnable(q) && Runnable(b.q) && n < |s| && s == q[RunQ(Top(q))] && b.q == q[RunQ(Top(q)) := s[n..] + s[..n]]
    ensures Scheduled(b).q == q[RunQ(Top(q)) := s[n + 1..] + s[..n + 1]] && Scheduled(b).current == s[n]
  {
    SameTop(q, b.q, PRIORITIES - 1);
    var r := s[n..] + s[..n];
    assert r[0] == s[n] && r[1..] + [r[0]] == s[n + 1..] + s[..n + 1];
  }

  lemma Rotation(a: Sys, s: seq<int>, k: nat)
    requires Runnable(a.q) && s == a.q[RunQ(Top(a.q))] && k < |s|
    ensures RunsAt(a, k + 1) == s[k]
  {
    RotatedQueue(a, s, k);
    RotateOnce(a.q, ScheduledN(a, k), s, k);
  }

  lemma {:induction false} SameTop(q: Queues, q': Queues, i: int)
    requires HasQueues(q) && HasQueues(q') && i < PRIORITIES
    requires forall k :: 0 <= k < PRIORITIES ==> (q[RunQ(k)] == [] <==> q'[RunQ(k)] == [])
    ensures TopFrom(q, i) == TopFrom(q', i)
    decreases i
  {
    if i > 0 && q[RunQ(i)] == [] { SameTop(q, q', i - 1); }
  }

  // ----- What wakeup_waiters leaves behind -----

  /** The waiters of priority k, last one first. */
  ghost function LastFirst(ws: seq<int>, prio: map<int, int>, k: int): seq<int> {
    if ws == [] then [] else LastFirst(ws[1..], prio, k) + (if ws[0] in prio && prio[ws[0]] == k then [ws[0]] else [])
  }

  ghost predicate Waiting(q: Queues, prio: map<int, int>, h: int) {
    Good(q, prio) && h in q && !IsRunQ(h)
  }

  /** wakeup_waiters empties the wait list, puts the waiters of each priority, last one first, in front
      of what was on their run queue, and touches no other list. */
  lemma WakeAllResult(q: Queues, prio: map<int, int>, h: int)
    requires Waiting(q, prio, h)
    ensures forall x :: x in q[h] ==> x in prio && 0 <= prio[x] < PRIORITIES
    ensures var q' := AllWoken(q, prio, q[h]);
            && q'.Keys == q.Keys && q'[h] == []
            && (forall k :: 0 <= k < PRIORITIES ==> q'[RunQ(k)] == LastFirst(q[h], prio, k) + q[RunQ(k)])
            && (forall g :: g in q && g != h && !IsRunQ(g) ==> q'[g] == q[g])
  {
    WakeAllOne(q, prio, h, h, 0);
    forall k | 0 <= k < PRIORITIES ensures AllWoken(q, prio, q[h])[RunQ(k)] == LastFirst(q[h], prio, k) + q[RunQ(k)] {
      QueuesDiffer(k, k);
      WakeAllOne(q, prio, h, RunQ(k), k);
    }
    forall g | g in q && g != h && !IsRunQ(g) ensures AllWoken(q, prio, q[h])[g] == q[g] { WakeAllOne(q, prio, h, g, 0); }
  }

  /** The effect on the list g. */
  lemma {:induction false} WakeAllOne(q: Queues, prio: map<int, int>, h: int, g: int, k: int)
    requires Waiting(q, prio, h) && g in q && 0 <= k < PRIORITIES && (IsRunQ(g) ==> g == RunQ(k))
    ensures forall x :: x in q[h] ==> x in prio && 0 <= prio[x] < PRIORITIES
    ensures var q' := AllWoken(q, prio, q[h]);
            && q'.Keys == q.Keys && q'[g] == if g == h then [] else if IsRunQ(g) then LastFirst(q[h], prio, k) + q[g] else q[g]
    decreases |q[h]|
  {
    var ws := q[h];
    if ws == [] {
      assert [] + q[g] == q[g];
    } else {
      var x := ws[0];
      FirstWoken(q, prio, h);
      var q1 := Woken(q, prio, x);
      assert q1.Keys == q.Keys;
      WakeAllOne(q1, prio, h, g, k);
      if IsRunQ(g) {
        var mine := if prio[x] == k then [x] else [];
        Assoc(LastFirst(ws[1..], prio, k), mine, q[g]);
      }
    }
  }

  lemma Assoc(s: seq<int>, t: seq<int>, u: seq<int>)
    ensures s + (t + u) == (s + t) + u
  {
  }

  /** Waking the first node of list h moves it to the front of its run queue and touches no other list. */
  lemma WokenLists(q: Queues, prio: map<int, int>, h: int, g: int)
    requires Placed(q) && HasQueues(q) && h in q && q[h] != [] && g in q
    requires q[h][0] in prio && 0 <= prio[q[h][0]] < PRIORITIES && h != RunQ(prio[q[h][0]])
    ensures var x := q[h][0];
            Woken(q, prio, x)[g] == if g == h then q[h][1..] else if g == RunQ(prio[x]) then [x] + q[g] else q[g]
  {
    var x := q[h][0];
    assert x in q[h];
    if g == h {
      WithoutAt(q[h], 0);
      assert RemoveAt(q[h], 0) == q[h][1..];
    } else {
      WithoutAbsent(q[g], x);
    }
  }

  lemma FirstWoken(q: Queues, prio: map<int, int>, h: int)
    requires Waiting(q, prio, h) && q[h] != []
    ensures var x := q[h][0];
            && x in prio && 0 <= prio[x] < PRIORITIES
            && var q1 := Woken(q, prio, x);
               && Waiting(q1, prio, h) && q1[h] == q[h][1..]
               && (forall k :: 0 <= k < PRIORITIES ==> q1[RunQ(k)] == (if k == prio[x] then [x] else []) + q[RunQ(k)])
               && (forall g :: g in q && g != h && !IsRunQ(g) ==> q1[g] == q[g])
  {
    var x := q[h][0];
    assert x in q[h];
    WokenGood(q, prio, x);
    QueuesDiffer(prio[x], prio[x]);
    WokenLists(q, prio, h, h);
    forall k | 0 <= k < PRIORITIES ensures Woken(q, prio, x)[RunQ(k)] == (if k == prio[x] then [x] else []) + q[RunQ(k)] {
      QueuesDiffer(k, prio[x]);
      WokenLists(q, prio, h, RunQ(k));
    }
    forall g | g in q && g != h && !IsRunQ(g) ensures Woken(q, prio, x)[g] == q[g] { WokenLists(q, prio, h, g); }
  }
}
