/** What each scheduler step does to the queues, said list by list. The predicates here appear in
    contracts only. */
module SchedLaws {
  import opened Folding
  import opened Seqs
  import opened Lists
  import opened SchedSpec

  /** m is q with x taken out of list g, the others as they were. */
  ghost predicate Takes(q: Queues, m: Queues, x: int, g: int) {
    && m.Keys == q.Keys && g in q
    && (exists i :: 0 <= i < |q[g]| && q[g][i] == x && m[g] == q[g][..i] + q[g][i + 1..])
    && (forall h :: h in m ==> x !in m[h] && (h != g ==> m[h] == q[h]))
  }

  /** x goes from list g to the front or the end of list h. */
  ghost predicate Moves(q: Queues, q': Queues, x: int, g: int, h: int, front: bool) {
    exists m :: Takes(q, m, x, g) && h in m && q' == m[h := if front then [x] + m[h] else m[h] + [x]]
  }

  /** x is first on run queue k, the highest one that is not empty, and goes to its end. */
  ghost predicate Picks(q: Queues, q': Queues, x: int, k: int) {
    && 0 <= k < 5 && RunQ(k) in q && q[RunQ(k)] != [] && x == q[RunQ(k)][0]
    && (forall j :: k < j < 5 ==> RunQ(j) in q && q[RunQ(j)] == [])
    && q' == q[RunQ(k) := q[RunQ(k)][1..] + [x]]
  }

  /** Queue s' is s behind the waiters of ws with priority k, the last of them first: pos tells where they
      stood. */
  ghost predicate Before(ws: seq<int>, prio: map<int, int>, k: int, s: seq<int>, s': seq<int>, pos: seq<int>) {
    && |s'| == |pos| + |s| && s'[|pos|..] == s
    && (forall a :: 0 <= a < |pos| ==> 0 <= pos[a] < |ws| && s'[a] == ws[pos[a]] && ws[pos[a]] in prio && prio[ws[pos[a]]] == k)
    && (forall a, b :: 0 <= a < b < |pos| ==> pos[a] > pos[b])
    && (forall i :: 0 <= i < |ws| && ws[i] in prio && prio[ws[i]] == k ==> i in pos)
  }

  /** List h is emptied, each waiter on the run queue of its priority. */
  ghost predicate Releases(q: Queues, q': Queues, prio: map<int, int>, h: int) {
    && q'.Keys == q.Keys && h in q && q'[h] == []
    && (forall k :: 0 <= k < 5 ==> RunQ(k) in q && exists pos :: Before(q[h], prio, k, q[RunQ(k)], q'[RunQ(k)], pos))
    && (forall g :: g in q && g != h && (forall k :: 0 <= k < 5 ==> g != RunQ(k)) ==> q'[g] == q[g])
  }

  /** A new thread is last on the run queue or the wait queue of its priority and on no other list. */
  ghost predicate Created(q: Queues, q': Queues, x: int, p: int, runnable: bool) {
    var h := if runnable then RunQ(p) else WaitQ(p);
    && h in q && q' == q[h := q[h] + [x]]
    && (forall g :: g in q' ==> (x in q'[g] <==> g == h)) && RunQ(p) in q' && (x in q'[RunQ(p)] <==> runnable)
  }

  /** The running thread moves to list h, and then schedule picks. */
  ghost predicate Parks(a: Sys, b: Sys, h: int, front: bool) {
    && b.prio == a.prio && a.current in a.prio
    && exists w, k :: Moves(a.q, w, a.current, RunQ(a.prio[a.current]), h, front) && Picks(w, b.q, b.current, k)
  }

  /** c is at the end or the front of list h and on no other. */
  ghost predicate ParkedOn(q: Queues, q': Queues, c: int, h: int, front: bool) {
    && h in q && h in q' && q'[h] == (if front then [c] + q[h] else q[h] + [c])
    && (forall g :: g in q' && g != h ==> c !in q'[g])
  }

  /** The running thread leaves, the waiters of h are released, and then schedule picks. */
  ghost predicate Leaves(a: Sys, b: Sys, h: int) {
    && b.prio == a.prio && a.current in a.prio
    && (exists m, w, k :: Takes(a.q, m, a.current, RunQ(a.prio[a.current])) && Releases(m, w, a.prio, h) && Picks(w, b.q, b.current, k))
    && (forall g :: g in b.q ==> a.current !in b.q[g])
  }

  ghost predicate SameThreads(a: Sys, b: Sys) {
    b.prio == a.prio && b.current == a.current
  }

  /** What each step does to the state; folded, Token(0) opens it. */
  ghost predicate Effect(a: Sys, b: Sys, s: Step) {
    forall t :: Token(t) ==>
      match s
      case Create(x, p, runnable) => Created(a.q, b.q, x, p, runnable) && b.prio == a.prio[x := p] && b.current == a.current
      case Wake(x) => x in a.prio && (exists g :: Moves(a.q, b.q, x, g, RunQ(a.prio[x]), true)) && SameThreads(a, b)
      case WakeAll(h) => Releases(a.q, b.q, a.prio, h) && SameThreads(a, b)
      case Sleep =>
        && a.current in a.prio && Parks(a, b, WaitQ(a.prio[a.current]), false) && ParkedOn(a.q, b.q, a.current, WaitQ(a.prio[a.current]), false)
      case Yield => a.current in a.prio && Parks(a, b, RunQ(a.prio[a.current]), false)
      case WaitOn(h, front) => Parks(a, b, h, front) && ParkedOn(a.q, b.q, a.current, h, front)
      case Exit(h) => Leaves(a, b, h)
      case Schedule => b.prio == a.prio && exists k :: Picks(a.q, b.q, b.current, k)
      case OpenList(h) => b.q == a.q[h := []] && SameThreads(a, b)
      case CloseList(h) => b.q == a.q - {h} && SameThreads(a, b)
  }

  // ----- The moves -----

  lemma ScheduledPicks(b: Sys)
    requires Runnable(b.q)
    ensures exists k :: Picks(b.q, Scheduled(b).q, Scheduled(b).current, k)
  {
    TopIsHighest(b.q, PRIORITIES - 1);
    assert Picks(b.q, Scheduled(b).q, Scheduled(b).current, Top(b.q));
  }

  lemma DetachTakes(q: Queues, x: int, g: int)
    requires Placed(q) && g in q && x in q[g]
    ensures Takes(q, Detach(q, x), x, g)
  {
    var i :| 0 <= i < |q[g]| && q[g][i] == x;
    WithoutAt(q[g], i);
    assert Detach(q, x)[g] == q[g][..i] + q[g][i + 1..];
    forall h | h in q ensures x !in Detach(q, x)[h] && (h != g ==> Detach(q, x)[h] == q[h]) {
      WithoutIn(q[h], x, x);
      if h != g { WithoutAbsent(q[h], x); }
    }
  }

  lemma {:induction false} WaitersBefore(ws: seq<int>, prio: map<int, int>, k: int, n: nat) returns (pos: seq<int>)
    requires n <= |ws|
    ensures |LastFirst(ws[n..], prio, k)| == |pos|
    ensures forall a :: 0 <= a < |pos| ==> n <= pos[a] < |ws| && LastFirst(ws[n..], prio, k)[a] == ws[pos[a]] && ws[pos[a]] in prio && prio[ws[pos[a]]] == k
    ensures forall a, b :: 0 <= a < b < |pos| ==> pos[a] > pos[b]
    ensures forall i :: n <= i < |ws| && ws[i] in prio && prio[ws[i]] == k ==> i in pos
    decreases |ws| - n
  {
    pos := [];
    if n < |ws| {
      var rest := WaitersBefore(ws, prio, k, n + 1);
      assert ws[n..][1..] == ws[n + 1..];
      if ws[n] in prio && prio[ws[n]] == k {
        assert LastFirst(ws[n..], prio, k) == LastFirst(ws[n + 1..], prio, k) + [ws[n]];
        pos := rest + [n];
      } else {
        assert LastFirst(ws[n..], prio, k) == LastFirst(ws[n + 1..], prio, k);
        pos := rest;
      }
    }
  }

  lemma AllWokenReleases(q: Queues, prio: map<int, int>, h: int)
    requires Waiting(q, prio, h)
    ensures forall x :: x in q[h] ==> x in prio && 0 <= prio[x] < PRIORITIES
    ensures Releases(q, AllWoken(q, prio, q[h]), prio, h)
  {
    WakeAllResult(q, prio, h);
    var q' := AllWoken(q, prio, q[h]);
    forall k | 0 <= k < 5 ensures RunQ(k) in q && exists pos :: Before(q[h], prio, k, q[RunQ(k)], q'[RunQ(k)], pos) {
      var pos := WaitersBefore(q[h], prio, k, 0);
      assert q[h][0..] == q[h];
      assert Before(q[h], prio, k, q[RunQ(k)], q'[RunQ(k)], pos);
    }
  }

  // ----- The steps -----

  lemma CreateLaw(a: Sys, idle: int, x: int, p: int, runnable: bool)
    requires Inv(a, idle) && Enabled(a, idle, Create(x, p, runnable))
    ensures Effect(a, After(a, idle, Create(x, p, runnable)), Create(x, p, runnable))
  {
    QueuesDiffer(p, p);
    assert Created(a.q, After(a, idle, Create(x, p, runnable)).q, x, p, runnable);
  }

  lemma WakeLaw(a: Sys, idle: int, x: int)
    requires Inv(a, idle) && Enabled(a, idle, Wake(x))
    ensures Effect(a, After(a, idle, Wake(x)), Wake(x))
  {
    var g :| g in a.q && x in a.q[g];
    DetachTakes(a.q, x, g);
    assert Moves(a.q, After(a, idle, Wake(x)).q, x, g, RunQ(a.prio[x]), true);
  }

  lemma WakeAllLaw(a: Sys, b: Sys, h: int)
    requires Waiting(a.q, a.prio, h) && SameThreads(a, b)
    requires (forall x :: x in a.q[h] ==> x in a.prio && 0 <= a.prio[x] < PRIORITIES) && b.q == AllWoken(a.q, a.prio, a.q[h])
    ensures Effect(a, b, WakeAll(h))
  {
    AllWokenReleases(a.q, a.prio, h);
    ReleaseEffect(a, b, h);
  }

  lemma ReleaseEffect(a: Sys, b: Sys, h: int)
    requires Releases(a.q, b.q, a.prio, h) && SameThreads(a, b)
    ensures Effect(a, b, WakeAll(h))
  {
  }

  lemma ScheduleLaw(a: Sys, idle: int)
    requires Inv(a, idle)
    ensures Effect(a, After(a, idle, Step.Schedule), Step.Schedule)
  {
    ScheduledPicks(a);
    assert After(a, idle, Step.Schedule) == Scheduled(a);
  }

  lemma ParkLaw(a: Sys, idle: int, s: Step, h: int, front: bool)
    requires Inv(a, idle) && Enabled(a, idle, s) && Reschedules(s) && h in a.q
    requires Moved(a, idle, s) == var q := Detach(a.q, a.current); if front then Push(q, h, a.current) else Append(q, h, a.current)
    ensures Parks(a, After(a, idle, s), h, front)
  {
    var w := Moved(a, idle, s);
    MovedGood(a, idle, s);
    DetachTakes(a.q, a.current, RunQ(a.prio[a.current]));
    assert Moves(a.q, w, a.current, RunQ(a.prio[a.current]), h, front);
    ScheduledPicks(a.(q := w));
  }

  /** A thread parked off the run queues is at the end or the front of its list and on no other. */
  lemma ParkedThere(a: Sys, b: Sys, h: int, front: bool)
    requires Parks(a, b, h, front) && !IsRunQ(h) && 0 <= a.prio[a.current] < 5
    ensures ParkedOn(a.q, b.q, a.current, h, front)
  {
    var w, k :| Moves(a.q, w, a.current, RunQ(a.prio[a.current]), h, front) && Picks(w, b.q, b.current, k);
    QueuesDiffer(k, a.prio[a.current]);
    PickedKeeps(w, b.q, b.current, k);
  }

  lemma PickedKeeps(w: Queues, q': Queues, next: int, k: int)
    requires Picks(w, q', next, k)
    ensures q'.Keys == w.Keys && forall g, y :: g in w ==> (y in q'[g] <==> y in w[g])
  {
    RotatedSame(w[RunQ(k)]);
  }

  lemma RotatedSame(s: seq<int>)
    requires s != []
    ensures forall y :: y in s[1..] + [s[0]] <==> y in s
  {
    assert s == [s[0]] + s[1..];
  }

  lemma SleepLaw(a: Sys, idle: int)
    requires Inv(a, idle) && Enabled(a, idle, Step.Sleep)
    ensures Effect(a, After(a, idle, Step.Sleep), Step.Sleep)
  {
    var h := WaitQ(a.prio[a.current]);
    ParkLaw(a, idle, Step.Sleep, h, false);
    QueuesDiffer(a.prio[a.current], a.prio[a.current]);
    ParkedThere(a, After(a, idle, Step.Sleep), h, false);
  }

  lemma YieldLaw(a: Sys, idle: int)
    requires Inv(a, idle)
    ensures Effect(a, After(a, idle, Yield), Yield)
  {
    ParkLaw(a, idle, Yield, RunQ(a.prio[a.current]), false);
  }

  lemma WaitLaw(a: Sys, idle: int, h: int, front: bool)
    requires Inv(a, idle) && Enabled(a, idle, WaitOn(h, front))
    ensures Effect(a, After(a, idle, WaitOn(h, front)), WaitOn(h, front))
  {
    ParkLaw(a, idle, WaitOn(h, front), h, front);
    ParkedThere(a, After(a, idle, WaitOn(h, front)), h, front);
  }

  /** Taking the running thread off the queues leaves the waiters of h. */
  lemma ExitReady(a: Sys, idle: int, h: int)
    requires Inv(a, idle) && Enabled(a, idle, Step.Exit(h))
    ensures var q := Detach(a.q, a.current); Waiting(q, a.prio, h) && q[h] == a.q[h]
  {
    MoveGood(a, idle, h);
    QueuesDiffer(a.prio[a.current], 0);
    WithoutAbsent(a.q[h], a.current);
  }

  lemma BeforeAddsNone(ws: seq<int>, prio: map<int, int>, k: int, s: seq<int>, s': seq<int>, pos: seq<int>, c: int)
    requires Before(ws, prio, k, s, s', pos) && c !in ws && c !in s
    ensures c !in s'
  {
    assert s' == s'[..|pos|] + s;
  }

  lemma ReleaseAddsNone(m: Queues, w: Queues, prio: map<int, int>, h: int, c: int, g: int)
    requires Releases(m, w, prio, h) && c !in m[h] && g in m && c !in m[g]
    ensures c !in w[g]
  {
    if k :| 0 <= k < 5 && g == RunQ(k) {
      var pos :| Before(m[h], prio, k, m[g], w[g], pos);
      BeforeAddsNone(m[h], prio, k, m[g], w[g], pos, c);
    }
  }

  lemma LeftAll(q: Queues, m: Queues, w: Queues, q': Queues, prio: map<int, int>, c: int, g: int, h: int, next: int, k: int)
    requires Takes(q, m, c, g) && Releases(m, w, prio, h) && Picks(w, q', next, k)
    ensures forall f :: f in q' ==> c !in q'[f]
  {
    forall f | f in m ensures c !in w[f] { ReleaseAddsNone(m, w, prio, h, c, f); }
    PickedKeeps(w, q', next, k);
  }

  lemma LeaveEffect(a: Sys, m: Queues, w: Queues, b: Sys, h: int, k: int)
    requires b.prio == a.prio && a.current in a.prio
    requires Takes(a.q, m, a.current, RunQ(a.prio[a.current])) && Releases(m, w, a.prio, h) && Picks(w, b.q, b.current, k)
    ensures Effect(a, b, Step.Exit(h))
  {
    LeftAll(a.q, m, w, b.q, a.prio, a.current, RunQ(a.prio[a.current]), h, b.current, k);
  }

  lemma ExitLaw(a: Sys, idle: int, h: int)
    requires Inv(a, idle) && Enabled(a, idle, Step.Exit(h))
    ensures Effect(a, After(a, idle, Step.Exit(h)), Step.Exit(h))
  {
    var m, w, b := Detach(a.q, a.current), Moved(a, idle, Step.Exit(h)), After(a, idle, Step.Exit(h));
    ExitReady(a, idle, h);
    MovedGood(a, idle, Step.Exit(h));
    DetachTakes(a.q, a.current, RunQ(a.prio[a.current]));
    AllWokenReleases(m, a.prio, h);
    ScheduledPicks(a.(q := w));
    var k :| Picks(w, b.q, b.current, k);
    LeaveEffect(a, m, w, b, h, k);
  }

  /** Every enabled step does to the lists what Effect says. */
  lemma StepEffect(a: Sys, idle: int, s: Step)
    requires Inv(a, idle) && Enabled(a, idle, s)
    ensures Effect(a, Next(a, idle, s), s)
  {
    match s
    case Create(x, p, runnable) => CreateLaw(a, idle, x, p, runnable);
    case Wake(x) => WakeLaw(a, idle, x);
    case WakeAll(h) => WakeAllLaw(a, Next(a, idle, s), h);
    case Sleep => SleepLaw(a, idle);
    case Yield => YieldLaw(a, idle);
    case WaitOn(h, front) => WaitLaw(a, idle, h, front);
    case Exit(h) => ExitLaw(a, idle, h);
    case Schedule => ScheduleLaw(a, idle);
    case OpenList(h) =>
    case CloseList(h) =>
  }
}
