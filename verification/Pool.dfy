/** The asynchronous request queue and its worker pool (src/async.c), as steps that are atomic
    under the queue lock or a request's own lock. Requests are numbered in the order they are
    accepted. */
module Pool {
  import opened Wrappers

  /** Where a worker is in its loop. `Running` holds a request it has dequeued, `Ran` one whose
      operation has finished but is not published; `Retiring` holds none. */
  datatype Worker = Awake | Asleep | Running(r: nat) | Ran(r: nat) | Retiring | Exited

  /** `next` is the link field of every request still allocated, so its domain is the live
      list. `started`, `executed`, `done` and `freed` are history. */
  datatype State = State(
    accepted: nat, next: map<nat, Option<nat>>, qh: Option<nat>, qt: Option<nat>,
    stop: bool, inflight: int, workers: seq<Worker>, closed: bool,
    started: seq<nat>, executed: seq<nat>, done: set<nat>, freed: set<nat>)

  datatype Step =
    | Submit(woken: Option<nat>)
    | Reject
    | Sleep(w: nat)
    | Wake(w: nat)
    | Take(w: nat)
    | Execute(w: nat)
    | Publish(w: nat)
    | Retire(w: nat)
    | Exit(w: nat)
    | Wait(r: nat)
    | Stop
    | Release

  predicate At(s: State, w: nat, x: Worker) { w < |s.workers| && s.workers[w] == x }

  /** cond_broadcast. */
  function WakeAll(ws: seq<Worker>): seq<Worker> {
    seq(|ws|, i requires 0 <= i < |ws| => if ws[i].Asleep? then Awake else ws[i])
  }

  predicate Can(s: State, step: Step) {
    match step
    case Submit(woken) =>
      && !s.stop && (s.qt.Some? ==> s.qt.value in s.next)
      && (match woken
          case Some(w) => At(s, w, Asleep)
          case None => forall w | 0 <= w < |s.workers| :: !s.workers[w].Asleep?)
    case Reject => s.stop
    case Sleep(w) => At(s, w, Awake) && s.qh.None? && !s.stop
    case Wake(w) => At(s, w, Asleep)
    case Take(w) => At(s, w, Awake) && s.qh.Some? && s.qh.value in s.next
    case Execute(w) => w < |s.workers| && s.workers[w].Running?
    case Publish(w) => w < |s.workers| && s.workers[w].Ran?
    case Retire(w) => At(s, w, Retiring)
    case Exit(w) => At(s, w, Awake) && s.qh.None? && s.stop
    case Wait(r) => !s.closed && r in s.done && r in s.next
    case Stop => !s.stop
    case Release => s.stop && !s.closed && forall w | 0 <= w < |s.workers| :: s.workers[w].Exited?
  }

  /** One step (submit 130-146, worker 34-57, ls_wait 168-176, ls_pool_stop 90-103). */
  function Go(s: State, step: Step): State
    requires Can(s, step)
  {
    match step
    case Submit(woken) =>
      var r := s.accepted;
      var linked := if s.qt.Some? then s.next[s.qt.value := Some(r)] else s.next;
      s.(accepted := r + 1,
         next := linked[r := None],
         qh := if s.qt.Some? then s.qh else Some(r),
         qt := Some(r),
         inflight := s.inflight + 1,
         workers := if woken.Some? then s.workers[woken.value := Awake] else s.workers)
    case Reject => s
    case Sleep(w) => s.(workers := s.workers[w := Asleep])
    case Wake(w) => s.(workers := s.workers[w := Awake])
    case Take(w) =>
      var r := s.qh.value;
      s.(qh := s.next[r], qt := if s.next[r].None? then None else s.qt,
         workers := s.workers[w := Running(r)], started := s.started + [r])
    case Execute(w) =>
      var r := s.workers[w].r;
      s.(workers := s.workers[w := Ran(r)], executed := s.executed + [r])
    case Publish(w) =>
      s.(workers := s.workers[w := Retiring], done := s.done + {s.workers[w].r})
    case Retire(w) =>
      s.(workers := WakeAll(s.workers[w := Awake]), inflight := s.inflight - 1)
    case Exit(w) => s.(workers := s.workers[w := Exited])
    case Wait(r) => s.(next := s.next - {r}, freed := s.freed + {r})
    case Stop => s.(stop := true, workers := WakeAll(s.workers))
    case Release => s.(next := map[], freed := s.freed + s.next.Keys, closed := true)
  }

  ghost predicate Init(s: State) {
    && s.accepted == 0 && s.next == map[] && s.qh == None && s.qt == None && !s.stop && s.inflight == 0
    && |s.workers| > 0 && (forall w | 0 <= w < |s.workers| :: s.workers[w] == Awake)
    && !s.closed && s.started == [] && s.executed == [] && s.done == {} && s.freed == {}
  }

  // ---------------------------------------------------------------- invariant

  predicate Holds(x: Worker, r: nat) {
    (x.Running? || x.Ran?) && x.r == r
  }

  /** Requests start in the order they were accepted, and the queue is exactly the rest: linked
      head to tail, with `qt` the last of it. */
  ghost predicate Queue(s: State) {
    && |s.started| <= s.accepted
    && (forall i | 0 <= i < |s.started| :: s.started[i] == i)
    && s.qh == (if |s.started| < s.accepted then Some(|s.started|) else None)
    && s.qt == (if |s.started| < s.accepted then Some(s.accepted - 1) else None)
    && (forall r: nat | |s.started| <= r < s.accepted ::
          r in s.next && s.next[r] == if r + 1 < s.accepted then Some(r + 1) else None)
  }

  /** What a worker holds is started, not done, and held by no other worker. */
  ghost predicate Holdings(s: State) {
    && (forall w | 0 <= w < |s.workers| && (s.workers[w].Running? || s.workers[w].Ran?) ::
          && s.workers[w].r < |s.started| && s.workers[w].r !in s.done
          && (s.workers[w].Ran? <==> s.workers[w].r in s.executed))
    && (forall v, w | 0 <= v < w < |s.workers| && (s.workers[w].Running? || s.workers[w].Ran?) ::
          !Holds(s.workers[v], s.workers[w].r))
  }

  /** Every started request that is not done is held by some worker. */
  ghost predicate Held(s: State, r: nat) {
    exists w | 0 <= w < |s.workers| :: Holds(s.workers[w], r)
  }

  ghost predicate Progressing(s: State) {
    forall r: nat | r < |s.started| && r !in s.done :: Held(s, r)
  }

  /** Each request is executed at most once, and only executed ones are done. */
  ghost predicate Once(s: State) {
    && (forall i, j | 0 <= i < j < |s.executed| :: s.executed[i] != s.executed[j])
    && (forall r | r in s.executed :: r < |s.started|)
    && (forall r | r in s.done :: r in s.executed)
  }

  /** Nothing is freed before it is done; what is not freed is allocated. */
  ghost predicate Memory(s: State) {
    && (forall r: nat :: r in s.next <==> r < s.accepted && r !in s.freed)
    && (forall r | r in s.freed :: r in s.done)
  }

  /** Nobody sleeps or leaves while there is work nobody else can pick up. */
  ghost predicate Lively(s: State) {
    && |s.workers| > 0
    && (s.stop ==> forall w | 0 <= w < |s.workers| :: !s.workers[w].Asleep?)
    && (forall w | 0 <= w < |s.workers| && s.workers[w].Exited? :: s.stop && s.qh.None?)
    && (s.qh.Some? ==> exists w | 0 <= w < |s.workers| :: Ready(s.workers[w]))
    && (s.closed ==> s.stop && forall w | 0 <= w < |s.workers| :: s.workers[w].Exited?)
  }

  predicate Ready(x: Worker) { !x.Asleep? && !x.Exited? }

  predicate Busy(x: Worker) { x.Running? || x.Ran? || x.Retiring? }

  function BusyCount(ws: seq<Worker>): nat {
    if ws == [] then 0 else BusyCount(ws[..|ws| - 1]) + if Busy(ws[|ws| - 1]) then 1 else 0
  }

  /** `inflight` is what is queued plus what workers are busy with. */
  ghost predicate Accounted(s: State) {
    s.inflight == s.accepted - |s.started| + BusyCount(s.workers)
  }

  ghost predicate Inv(s: State) {
    Queue(s) && Holdings(s) && Progressing(s) && Once(s) && Memory(s) && Lively(s) && Accounted(s)
  }

  // ---------------------------------------------------------------- each part

  lemma {:induction false} BusyUpdate(ws: seq<Worker>, w: nat, x: Worker)
    requires w < |ws|
    ensures BusyCount(ws[w := x]) + (if Busy(ws[w]) then 1 else 0) == BusyCount(ws) + if Busy(x) then 1 else 0
  {
    var n := |ws| - 1;
    if w == n {
      assert ws[w := x][..n] == ws[..n];
    } else {
      BusyUpdate(ws[..n], w, x);
      assert ws[w := x][..n] == ws[..n][w := x];
    }
  }

  lemma {:induction false} BusyWakeAll(ws: seq<Worker>)
    ensures BusyCount(WakeAll(ws)) == BusyCount(ws)
  {
    if ws == [] {
      assert WakeAll(ws) == [];
    } else {
      var n := |ws| - 1;
      assert WakeAll(ws)[..n] == WakeAll(ws[..n]);
      assert Busy(WakeAll(ws)[n]) == Busy(ws[n]);
      BusyWakeAll(ws[..|ws| - 1]);
    }
  }

  lemma {:induction false} BusyNone(ws: seq<Worker>)
    requires forall w | 0 <= w < |ws| :: !Busy(ws[w])
    ensures BusyCount(ws) == 0
  {
    if ws != [] {
      BusyNone(ws[..|ws| - 1]);
    }
  }

  lemma QueueKept(s: State, step: Step)
    requires Queue(s) && Memory(s) && Once(s) && Lively(s) && Can(s, step)
    ensures Queue(Go(s, step))
  {
    hide WakeAll;
    if step.Release? {
      assert s.workers[0].Exited?;
    }
  }

  lemma MemoryKept(s: State, step: Step)
    requires Queue(s) && Memory(s) && Once(s) && Lively(s) && Progressing(s) && Can(s, step)
    ensures Memory(Go(s, step))
  {
    hide WakeAll;
    if step.Release? {
      AllDone(s);
    }
  }

  /** Once every worker has left, every accepted request is done. */
  lemma AllDone(s: State)
    requires Queue(s) && Lively(s) && Progressing(s)
    requires s.stop && forall w | 0 <= w < |s.workers| :: s.workers[w].Exited?
    ensures s.qh.None? && |s.started| == s.accepted && forall r: nat | r < s.accepted :: r in s.done
  {
    assert s.workers[0].Exited?;
    forall r: nat | r < s.accepted ensures r in s.done {
      assert !Held(s, r);
    }
  }

  lemma OnceKept(s: State, step: Step)
    requires Holdings(s) && Once(s) && Can(s, step)
    ensures Once(Go(s, step))
  {
    hide WakeAll;
  }

  lemma AccountedKept(s: State, step: Step)
    requires Queue(s) && Accounted(s) && Can(s, step)
    ensures Accounted(Go(s, step))
  {
    hide WakeAll, BusyCount;
    match step
    case Submit(woken) => if woken.Some? { BusyUpdate(s.workers, woken.value, Awake); }
    case Sleep(w) => BusyUpdate(s.workers, w, Asleep);
    case Wake(w) => BusyUpdate(s.workers, w, Awake);
    case Take(w) => BusyUpdate(s.workers, w, Running(s.qh.value));
    case Execute(w) => BusyUpdate(s.workers, w, Ran(s.workers[w].r));
    case Publish(w) => BusyUpdate(s.workers, w, Retiring);
    case Retire(w) =>
      BusyUpdate(s.workers, w, Awake);
      BusyWakeAll(s.workers[w := Awake]);
    case Exit(w) => BusyUpdate(s.workers, w, Exited);
    case Stop => BusyWakeAll(s.workers);
    case _ =>
  }

  lemma HoldingsKept(s: State, step: Step)
    requires Queue(s) && Holdings(s) && Once(s) && Can(s, step)
    ensures Holdings(Go(s, step))
  {
    hide WakeAll;
    var t := Go(s, step);
    match step
    case Submit(woken) => if woken.Some? { HoldsLess(s, t, woken.value, Awake); }
    case Sleep(w) => HoldsLess(s, t, w, Asleep);
    case Wake(w) => HoldsLess(s, t, w, Awake);
    case Take(w) => HoldsTaken(s, t, w);
    case Execute(w) => HoldsRan(s, t, w);
    case Publish(w) => HoldsLess(s, t, w, Retiring);
    case Retire(w) =>
      HoldsLess(s, t.(workers := s.workers[w := Awake]), w, Awake);
      HoldsAwake(t.(workers := s.workers[w := Awake]), t);
    case Exit(w) => HoldsLess(s, t, w, Exited);
    case Stop => HoldsAwake(s, t);
    case _ =>
  }

  /** A worker lets go, of a request that is then done if it held one. */
  lemma HoldsLess(s: State, t: State, w: nat, x: Worker)
    requires Holdings(s) && w < |s.workers| && !x.Running? && !x.Ran?
    requires t.workers == s.workers[w := x] && t.started == s.started && t.executed == s.executed
    requires t.done == s.done || (s.workers[w].Ran? && t.done == s.done + {s.workers[w].r})
    ensures Holdings(t)
  {
    forall v | 0 <= v < |t.workers| && (t.workers[v].Running? || t.workers[v].Ran?)
      ensures t.workers[v].r < |t.started| && t.workers[v].r !in t.done
      ensures t.workers[v].Ran? <==> t.workers[v].r in t.executed
    {
      assert t.workers[v] == s.workers[v];
      if s.workers[w].Ran? {
        assert v < w ==> !Holds(s.workers[v], s.workers[w].r);
        assert w < v ==> !Holds(s.workers[w], s.workers[v].r);
      }
    }
  }

  lemma HoldsTaken(s: State, t: State, w: nat)
    requires Queue(s) && Holdings(s) && Once(s) && Can(s, Take(w)) && t == Go(s, Take(w))
    ensures Holdings(t)
  {
    var r := |s.started|;
    assert t.workers[w] == Running(r) && r !in s.executed && r !in s.done;
    assert forall v | 0 <= v < |t.workers| && v != w :: t.workers[v] == s.workers[v] && !Holds(s.workers[v], r);
  }

  lemma HoldsRan(s: State, t: State, w: nat)
    requires Holdings(s) && Can(s, Execute(w)) && t == Go(s, Execute(w))
    ensures Holdings(t)
  {
    var r := s.workers[w].r;
    assert forall x :: x in t.executed <==> x in s.executed || x == r;
    forall v | 0 <= v < |s.workers| && v != w ensures t.workers[v] == s.workers[v] && !Holds(s.workers[v], r) {
      assert v < w ==> !Holds(s.workers[v], s.workers[w].r);
      assert w < v && Holds(s.workers[v], r) ==> !Holds(s.workers[w], s.workers[v].r);
    }
  }

  lemma HoldsAwake(s: State, t: State)
    requires Holdings(s) && t.workers == WakeAll(s.workers)
    requires t.started == s.started && t.executed == s.executed && t.done == s.done
    ensures Holdings(t)
  {
    assert forall v, r: nat | 0 <= v < |t.workers| :: Holds(t.workers[v], r) <==> Holds(s.workers[v], r);
  }

  lemma HeldStill(s: State, step: Step, r: nat)
    requires Held(s, r) && Can(s, step) && r !in Go(s, step).done
    ensures Held(Go(s, step), r)
  {
    var t := Go(s, step);
    var w :| 0 <= w < |s.workers| && Holds(s.workers[w], r);
    assert Holds(t.workers[w], r);
  }

  lemma ProgressKept(s: State, step: Step)
    requires Queue(s) && Progressing(s) && Can(s, step)
    ensures Progressing(Go(s, step))
  {
    hide Go, Held;
    var t := Go(s, step);
    forall r: nat | r < |t.started| && r !in t.done ensures Held(t, r) {
      StartedOne(s, step);
      if r < |s.started| {
        HeldStill(s, step, r);
      } else {
        TakenHeld(s, step);
      }
    }
  }

  lemma StartedOne(s: State, step: Step)
    requires Can(s, step)
    ensures s.done <= Go(s, step).done
    ensures |Go(s, step).started| == |s.started| + if step.Take? then 1 else 0
  {
  }

  lemma TakenHeld(s: State, step: Step)
    requires Queue(s) && Can(s, step) && step.Take?
    ensures Held(Go(s, step), |s.started|)
  {
    assert Holds(Go(s, step).workers[step.w], |s.started|);
  }

  lemma LivelyKept(s: State, step: Step)
    requires Queue(s) && Lively(s) && Can(s, step)
    ensures Lively(Go(s, step))
  {
    var t := Go(s, step);
    if t.qh.Some? {
      match step
      case Submit(woken) =>
        var w := if woken.Some? then woken.value else 0;
        assert Ready(t.workers[w]);
      case Reject =>
      case Wait(_) =>
      case Release =>
      case Sleep(_) =>
      case Exit(_) =>
      case Stop =>
        var w :| 0 <= w < |s.workers| && Ready(s.workers[w]);
        assert Ready(t.workers[w]);
      case _ =>
        assert Ready(t.workers[step.w]);
    }
  }

  /** Every step keeps the invariant. */
  lemma StepKeeps(s: State, step: Step)
    requires Inv(s) && Can(s, step)
    ensures Inv(Go(s, step))
  {
    hide Can, Go, Queue, Holdings, Progressing, Once, Memory, Lively, Accounted;
    QueueKept(s, step);
    HoldingsKept(s, step);
    ProgressKept(s, step);
    OnceKept(s, step);
    MemoryKept(s, step);
    LivelyKept(s, step);
    AccountedKept(s, step);
  }

  // --------------------------------------------------------------------- runs

  ghost predicate IsRun(run: seq<State>, steps: seq<Step>) {
    && |run| == |steps| + 1 && Init(run[0])
    && forall i | 0 <= i < |steps| :: Can(run[i], steps[i]) && run[i + 1] == Go(run[i], steps[i])
  }

  /** A pool of any number of workers starts as a run of no steps, and any step that can be made makes a
      run longer. */
  lemma RunExtends(n: nat, run: seq<State>, steps: seq<Step>, step: Step)
    ensures n > 0 ==>
              IsRun([State(0, map[], None, None, false, 0, seq(n, _ => Awake), false, [], [], {}, {})], [])
    ensures IsRun(run, steps) && Can(run[|steps|], step) ==> IsRun(run + [Go(run[|steps|], step)], steps + [step])
  {
    hide Can, Go;
    if IsRun(run, steps) && Can(run[|steps|], step) {
      var run1, steps1 := run + [Go(run[|steps|], step)], steps + [step];
      forall i | 0 <= i < |steps1| ensures Can(run1[i], steps1[i]) && run1[i + 1] == Go(run1[i], steps1[i]) {
        if i < |steps| {
          assert Can(run[i], steps[i]) && run[i + 1] == Go(run[i], steps[i]);
        }
      }
    }
  }

  lemma InitHolds(s: State)
    requires Init(s)
    ensures Inv(s)
  {
    BusyNone(s.workers);
  }

  /** The invariant holds in every reachable state. */
  lemma {:induction false} RunKeeps(run: seq<State>, steps: seq<Step>)
    requires IsRun(run, steps)
    ensures Inv(run[|steps|])
  {
    hide Inv, Can, Go, Init;
    if steps == [] {
      InitHolds(run[0]);
    } else {
      var n := |steps| - 1;
      RunKeeps(run[..n + 1], steps[..n]);
      StepKeeps(run[n], steps[n]);
    }
  }

  /** A closed pool has drained: every accepted request was executed exactly once and is done,
      the queue and the live list are empty, and nothing is in flight. */
  lemma PoolDrains(run: seq<State>, steps: seq<Step>)
    requires IsRun(run, steps) && run[|steps|].closed
    ensures var s := run[|steps|];
            && (forall i | 0 <= i < |s.started| :: s.started[i] == i) && |s.started| == s.accepted
            && (forall r: nat | r < s.accepted :: r in s.done && r in s.executed)
            && (forall i, j | 0 <= i < j < |s.executed| :: s.executed[i] != s.executed[j])
            && s.qh.None? && s.qt.None? && s.next == map[] && s.inflight == 0
  {
    RunKeeps(run, steps);
    var s := run[|steps|];
    AllDone(s);
    BusyNone(s.workers);
    ClosedEmpty(run, steps);
  }

  /** Releasing empties the live list, and nothing is added to it after. */
  lemma {:induction false} ClosedEmpty(run: seq<State>, steps: seq<Step>)
    requires IsRun(run, steps)
    ensures run[|steps|].closed ==> run[|steps|].stop && run[|steps|].next == map[]
  {
    hide Init;
    if steps == [] {
      InitOpen(run[0]);
    } else {
      var n := |steps| - 1;
      ClosedEmpty(run[..n + 1], steps[..n]);
    }
  }

  lemma InitOpen(s: State)
    requires Init(s)
    ensures !s.closed
  {
  }

  /** Nothing is accepted once the pool is stopping. */
  lemma NothingAfterStop(s: State, step: Step)
    requires s.stop && Can(s, step)
    ensures Go(s, step).stop && Go(s, step).accepted == s.accepted
  {
  }

  /** No request is touched after it is freed: what workers hold, and what the queue's two
      pointers name, is allocated; and each undone request has exactly one owner. */
  lemma NoUseAfterFree(run: seq<State>, steps: seq<Step>)
    requires IsRun(run, steps)
    ensures var s := run[|steps|];
            && (forall w | 0 <= w < |s.workers| && (s.workers[w].Running? || s.workers[w].Ran?) ::
                  s.workers[w].r in s.next && s.workers[w].r !in s.freed)
            && (s.qh.Some? ==> s.qh.value in s.next) && (s.qt.Some? ==> s.qt.value in s.next && s.qt.value >= |s.started|)
            && (forall r: nat | r < s.accepted && r !in s.done ::
                  if r < |s.started|
                  then exists w | 0 <= w < |s.workers| :: Holds(s.workers[w], r)
                         && forall v | 0 <= v < |s.workers| && v != w :: !Holds(s.workers[v], r)
                  else forall w | 0 <= w < |s.workers| :: !Holds(s.workers[w], r))
  {
    RunKeeps(run, steps);
    var s := run[|steps|];
    forall r: nat | r < |s.started| && r !in s.done
      ensures exists w | 0 <= w < |s.workers| :: Holds(s.workers[w], r)
                && forall v | 0 <= v < |s.workers| && v != w :: !Holds(s.workers[v], r)
    {
      assert Held(s, r);
      var w :| 0 <= w < |s.workers| && Holds(s.workers[w], r);
      assert forall v | 0 <= v < |s.workers| && v != w :: !Holds(s.workers[v], r);
    }
  }

  // ------------------------------------------------------------ enabled steps

  /** A worker that is awake takes the oldest request queued, stopping or not. */
  lemma CanTake(s: State, w: nat)
    requires Inv(s) && w < |s.workers| && s.workers[w] == Awake && |s.started| < s.accepted
    ensures var r := |s.started|;
            && Can(s, Take(w))
            && Go(s, Take(w)) == s.(qh := if r + 1 < s.accepted then Some(r + 1) else None,
                                    qt := if r + 1 < s.accepted then Some(s.accepted - 1) else None,
                                    workers := s.workers[w := Running(r)], started := s.started + [r])
  {
    hide Holdings, Progressing, Once, Memory, Lively, Accounted;
  }

  /** What it took it carries out, reports and puts behind it, and then it looks for more. */
  lemma CanServe(s: State, w: nat)
    requires w < |s.workers|
    ensures s.workers[w].Running? ==>
              && Can(s, Execute(w))
              && Go(s, Execute(w)) == s.(workers := s.workers[w := Ran(s.workers[w].r)],
                                         executed := s.executed + [s.workers[w].r])
    ensures s.workers[w].Ran? ==>
              && Can(s, Publish(w))
              && Go(s, Publish(w)) == s.(workers := s.workers[w := Retiring], done := s.done + {s.workers[w].r})
    ensures s.workers[w].Retiring? ==>
              && Can(s, Retire(w)) && Go(s, Retire(w)).inflight == s.inflight - 1
              && Go(s, Retire(w)).workers[w] == Awake
              && forall v | 0 <= v < |s.workers| && v != w ::
                   Go(s, Retire(w)).workers[v] == if s.workers[v] == Asleep then Awake else s.workers[v]
  {
  }

  /** Until the pool stops, a request is accepted and goes to the end of the queue; a sleeping worker
      is woken for it, if there is one. */
  lemma CanSubmit(s: State) returns (woken: Option<nat>)
    requires Inv(s) && !s.stop
    ensures Can(s, Submit(woken)) && (woken.None? ==> forall w | 0 <= w < |s.workers| :: s.workers[w] != Asleep)
    ensures woken.Some? ==> woken.value < |s.workers| && s.workers[woken.value] == Asleep
                            && Go(s, Submit(woken)).workers == s.workers[woken.value := Awake]
    ensures var t := Go(s, Submit(woken));
            && t.accepted == s.accepted + 1 && t.qh.Some? && t.qt == Some(s.accepted)
            && s.accepted in t.next && t.next[s.accepted] == None && t.started == s.started && t.done == s.done
  {
    hide Holdings, Progressing, Once, Memory, Lively, Accounted;
    if w: nat :| w < |s.workers| && s.workers[w] == Asleep {
      woken := Some(w);
    } else {
      woken := None;
    }
  }

  /** A worker with nothing queued sleeps, or leaves if the pool is stopping; a sleeping one may wake of
      itself; a finished request may be waited for; and the pool may be stopped, and released once every
      worker has left. */
  lemma CanRest(s: State, w: nat, r: nat)
    requires w < |s.workers|
    ensures s.workers[w] == Awake && s.qh == None && !s.stop ==>
              Can(s, Sleep(w)) && Go(s, Sleep(w)) == s.(workers := s.workers[w := Asleep])
    ensures s.workers[w] == Awake && s.qh == None && s.stop ==>
              Can(s, Exit(w)) && Go(s, Exit(w)) == s.(workers := s.workers[w := Exited])
    ensures s.workers[w] == Asleep ==>
              Can(s, Wake(w)) && Go(s, Wake(w)) == s.(workers := s.workers[w := Awake])
    ensures !s.closed && r in s.done && r in s.next ==>
              Can(s, Wait(r)) && Go(s, Wait(r)) == s.(next := s.next - {r}, freed := s.freed + {r})
    ensures !s.stop ==> Can(s, Stop) && Go(s, Stop).stop && forall v | 0 <= v < |s.workers| ::
                          Go(s, Stop).workers[v] == if s.workers[v] == Asleep then Awake else s.workers[v]
    ensures s.stop ==> Can(s, Reject) && Go(s, Reject) == s
    ensures s.stop && !s.closed && (forall v | 0 <= v < |s.workers| :: s.workers[v] == Exited) ==>
              Can(s, Release) && Go(s, Release).closed && Go(s, Release).next == map[]
  {
  }

  // ----------------------------------------------------------------- progress

  /** What each worker has left to do with what it holds. */
  function Weight(x: Worker): nat {
    match x
    case Running(_) => 4
    case Ran(_) => 3
    case Retiring => 2
    case Awake => 1
    case Asleep => 1
    case Exited => 0
  }

  function Weights(ws: seq<Worker>): nat {
    if ws == [] then 0 else Weights(ws[..|ws| - 1]) + Weight(ws[|ws| - 1])
  }

  ghost function Remaining(s: State): int {
    4 * (s.accepted - |s.started|) + Weights(s.workers)
  }

  predicate ByWorker(step: Step) {
    step.Take? || step.Execute? || step.Publish? || step.Retire? || step.Exit?
  }

  lemma {:induction false} WeightUpdate(ws: seq<Worker>, w: nat, x: Worker)
    requires w < |ws|
    ensures Weights(ws[w := x]) + Weight(ws[w]) == Weights(ws) + Weight(x)
  {
    var n := |ws| - 1;
    if w == n {
      assert ws[w := x][..n] == ws[..n];
    } else {
      WeightUpdate(ws[..n], w, x);
      assert ws[w := x][..n] == ws[..n][w := x];
    }
  }

  lemma {:induction false} WeightWakeAll(ws: seq<Worker>)
    ensures Weights(WakeAll(ws)) == Weights(ws)
  {
    if ws == [] {
      assert WakeAll(ws) == [];
    } else {
      var n := |ws| - 1;
      assert WakeAll(ws)[..n] == WakeAll(ws[..n]);
      assert Weight(WakeAll(ws)[n]) == Weight(ws[n]);
      WeightWakeAll(ws[..n]);
    }
  }

  /** Each worker step brings the end of what is accepted nearer by one; submitting moves it away by
      four, and nothing else moves it at all. */
  lemma WorkAdvances(s: State, step: Step)
    requires Inv(s) && Can(s, step)
    ensures Remaining(s) >= 0
    ensures Remaining(Go(s, step)) == Remaining(s) + if ByWorker(step) then -1 else if step.Submit? then 4 else 0
  {
    hide Weights, Queue, Progressing, Holdings, Once, Memory, WakeAll, Lively, Accounted;
    QueueBounds(s);
    match step
    case Submit(woken) => if woken.Some? { WeightUpdate(s.workers, woken.value, Awake); }
    case Sleep(w) => WeightUpdate(s.workers, w, Asleep);
    case Wake(w) => WeightUpdate(s.workers, w, Awake);
    case Take(w) => WeightUpdate(s.workers, w, Running(s.qh.value));
    case Execute(w) => WeightUpdate(s.workers, w, Ran(s.workers[w].r));
    case Publish(w) => WeightUpdate(s.workers, w, Retiring);
    case Retire(w) =>
      WeightUpdate(s.workers, w, Awake);
      WeightWakeAll(s.workers[w := Awake]);
    case Exit(w) => WeightUpdate(s.workers, w, Exited);
    case Stop => WeightWakeAll(s.workers);
    case _ =>
  }

  lemma QueueBounds(s: State)
    requires Queue(s)
    ensures |s.started| <= s.accepted
  {
  }

  /** While an accepted request is not done some worker can bring it nearer, stopping or not. */
  lemma WorkEnabled(s: State, r: nat) returns (step: Step)
    requires Inv(s) && r < s.accepted && r !in s.done
    ensures ByWorker(step) && !step.Exit? && Can(s, step)
  {
    hide Holdings, Once, Memory, Accounted;
    var w: nat;
    if r < |s.started| {
      assert Held(s, r);
      w :| w < |s.workers| && Holds(s.workers[w], r);
    } else {
      w :| w < |s.workers| && Ready(s.workers[w]);
    }
    var x := s.workers[w];
    step := if x.Awake? then Take(w) else if x.Running? then Execute(w) else if x.Ran? then Publish(w) else Retire(w);
  }

  /** No wakeup is lost: in every state a run can reach, while an accepted request is not done some
      worker can take, carry out, report or finish with one; while anything is queued some worker is
      neither asleep nor gone; and after stop nobody sleeps. */
  lemma QueueServed(run: seq<State>, steps: seq<Step>)
    requires IsRun(run, steps)
    ensures var s := run[|steps|];
            && (forall r: nat | r < s.accepted && r !in s.done ::
                  exists step: Step :: (step.Take? || step.Execute? || step.Publish? || step.Retire?) && Can(s, step))
            && (s.qh.Some? ==> exists w | 0 <= w < |s.workers| :: Ready(s.workers[w]))
            && (s.stop ==> forall w | 0 <= w < |s.workers| :: !s.workers[w].Asleep?)
  {
    hide Can, Queue, Holdings, Progressing, Once, Memory, Accounted;
    RunKeeps(run, steps);
    var s := run[|steps|];
    forall r: nat | r < s.accepted && r !in s.done
      ensures exists step: Step :: (step.Take? || step.Execute? || step.Publish? || step.Retire?) && Can(s, step)
    {
      var step := WorkEnabled(s, r);
    }
  }

  /** While stopping, until every worker has left one of them can step: with `WorkAdvances`,
      `ls_pool_stop` returns. */
  lemma DrainEnabled(s: State)
    requires Inv(s) && s.stop && !forall w | 0 <= w < |s.workers| :: s.workers[w].Exited?
    ensures exists step :: ByWorker(step) && Can(s, step)
  {
    var w: nat :| w < |s.workers| && !s.workers[w].Exited?;
    var x := s.workers[w];
    var step := if x.Awake? then (if s.qh.Some? then Take(w) else Exit(w))
                else if x.Running? then Execute(w)
                else if x.Ran? then Publish(w)
                else Retire(w);
    assert ByWorker(step) && Can(s, step);
  }

  /** The run goes on from `s` to `t` by `steps`. */
  ghost predicate Continues(s: State, steps: seq<Step>, t: State)
    decreases |steps|
  {
    if steps == [] then t == s else Can(s, steps[0]) && Continues(Go(s, steps[0]), steps[1..], t)
  }

  /** Whatever has been accepted gets done, without the pool being stopped: the workers alone, in a
      number of steps bounded beforehand, lead to a state where every accepted request is done. */
  lemma {:induction false} AllServed(s: State) returns (steps: seq<Step>, t: State)
    requires Inv(s) && Remaining(s) >= 0
    ensures Continues(s, steps, t) && Inv(t) && |steps| <= Remaining(s)
    ensures forall i | 0 <= i < |steps| :: ByWorker(steps[i]) && !steps[i].Exit?
    ensures t.accepted == s.accepted && t.stop == s.stop && forall r: nat | r < t.accepted :: r in t.done
    decreases Remaining(s)
  {
    hide Inv, Can, Go, Remaining;
    steps, t := [], s;
    if r: nat :| r < s.accepted && r !in s.done {
      var step := WorkEnabled(s, r);
      WorkAdvances(s, step);
      StepKeeps(s, step);
      WorkersAccept(s, step);
      RemainingNat(Go(s, step));
      var rest;
      rest, t := AllServed(Go(s, step));
      steps := [step] + rest;
      assert steps[1..] == rest;
    }
  }

  lemma WorkersAccept(s: State, step: Step)
    requires Can(s, step) && ByWorker(step)
    ensures Go(s, step).accepted == s.accepted && Go(s, step).stop == s.stop
  {
  }

  /** How many of the steps satisfy what `ByWorker` says, and how many submit. */
  function WorkSteps(steps: seq<Step>): nat {
    if steps == [] then 0 else WorkSteps(steps[..|steps| - 1]) + if ByWorker(steps[|steps| - 1]) then 1 else 0
  }

  function Submits(steps: seq<Step>): nat {
    if steps == [] then 0 else Submits(steps[..|steps| - 1]) + if steps[|steps| - 1].Submit? then 1 else 0
  }

  /** No run spins: the workers take at most four steps for each request, and one each to leave. */
  lemma {:induction false} WorkBounded(run: seq<State>, steps: seq<Step>)
    requires IsRun(run, steps)
    ensures Remaining(run[|steps|]) >= 0
    ensures WorkSteps(steps) + Remaining(run[|steps|]) == 4 * Submits(steps) + |run[0].workers|
  {
    hide Inv, Can, Go, Remaining, Init;
    if steps == [] {
      InitRemaining(run[0]);
    } else {
      var n := |steps| - 1;
      WorkBounded(run[..n + 1], steps[..n]);
      RunKeeps(run[..n + 1], steps[..n]);
      RunKeeps(run, steps);
      WorkAdvances(run[n], steps[n]);
      RemainingNat(run[n + 1]);
    }
  }

  lemma RemainingNat(s: State)
    requires Inv(s)
    ensures Remaining(s) >= 0
  {
    QueueBounds(s);
  }

  lemma InitRemaining(s: State)
    requires Init(s)
    ensures Remaining(s) == |s.workers|
  {
    AwakeWeights(s.workers);
  }

  lemma {:induction false} AwakeWeights(ws: seq<Worker>)
    requires forall w | 0 <= w < |ws| :: ws[w] == Awake
    ensures Weights(ws) == |ws|
  {
    if ws != [] {
      AwakeWeights(ws[..|ws| - 1]);
    }
  }
}
