/** What the destructor of the thread pool achieves, and when it cannot get through. */
module ThreadPoolShutdown {
  import opened ThreadPool

  // ---------- If it finishes ----------

  lemma {:induction false} AllExited(ws: seq<Worker>)
    requires forall w :: 0 <= w < |ws| ==> ws[w] == Exited
    ensures Stopped(ws) == |ws|
    ensures forall x :: Running(ws, x) == 0
  {
    if ws == [] {
    } else {
      AllExited(ws[1..]);
    }
  }

  /** With at least one worker, a finished destructor has had every task popped that was pushed
      before it began; every popped task has been run, as often as it was pushed, and no stop
      is left over. */
  lemma ShutdownRunsAll(n: nat, eager: bool, acts: seq<Action>, t: State)
    requires Exec(Init(n, eager), acts) == To(t) && t.main == Done && n >= 1
    ensures t.before <= |t.popped| && t.popped <= t.pushed
    ensures forall x :: t.finished[x] == Count(t.popped, x)
    ensures Stop !in t.queue
  {
    Reached(n, eager, acts, t);
    AllExited(t.workers);
    forall x ensures t.finished[x] == Count(t.popped, x) {
      assert RunInv(t, x);
    }
    StopsCat(t.popped, t.queue);
    StopIn(t.queue);
    assert t.pushed == t.popped + t.queue;
    if |t.popped| < t.before {
      var rest := t.pushed[..t.before][|t.popped|..];
      assert t.pushed[..t.before] == t.popped + rest;
      StopsCat(t.popped, rest);
      assert false;
    }
  }

  /** One step after a run. */
  lemma More(s0: State, acts: seq<Action>, s: State, a: Action) returns (acts': seq<Action>, s': State)
    requires Exec(s0, acts) == To(s) && Enabled(s, a)
    ensures acts' == acts + [a] && s' == Apply(s, a) && Exec(s0, acts') == To(s')
  {
    acts', s' := acts + [a], Apply(s, a);
    ExecCat(s0, acts, [a], s);
  }

  lemma NoWorkersQueue(eager: bool, id: nat) returns (acts: seq<Action>, t: State)
    ensures Exec(Init(0, eager), acts) == To(t)
    ensures t == State(0, eager, [], [Execute(id)], Free, Live, [Execute(id)], [], multiset{}, 0)
  {
    var s := Init(0, eager);
    acts, t := [], s;
    acts, t := More(s, acts, t, Built);
    acts, t := More(s, acts, t, ClientLock(id));
    acts, t := More(s, acts, t, Enqueue);
    acts, t := More(s, acts, t, NotifyNone);
    acts, t := More(s, acts, t, Unlock);
  }

  /** With no worker it finishes at once and runs nothing: a pool built for n - 1 threads on a
      machine with one hardware thread is such a pool. */
  lemma NoWorkersRunNothing(eager: bool, id: nat) returns (acts: seq<Action>, t: State)
    ensures Exec(Init(0, eager), acts) == To(t) && t.main == Done
    ensures t.before == 1 && t.pushed == t.queue == [Execute(id)] && t.finished == multiset{}
  {
    acts, t := NoWorkersQueue(eager, id);
    acts, t := More(Init(0, eager), acts, t, BeginClose);
    acts, t := More(Init(0, eager), acts, t, Return);
  }

  lemma {:induction false} ExecCat(s: State, a: seq<Action>, b: seq<Action>, t: State)
    requires Exec(s, a) == To(t)
    ensures Exec(s, a + b) == Exec(t, b)
    decreases |a|
  {
    if a == [] {
      assert a + b == b;
    } else {
      ExecCat(Apply(s, a[0]), a[1..], b, t);
      assert (a + b)[1..] == a[1..] + b;
    }
  }

  // ---------- When it cannot finish ----------

  /** The destructor is joining a worker that will never see a stop: none is queued or on its
      way, and that worker has not taken one. */
  ghost predicate Doomed(s: State) {
    && s.main.Closing? && !PushNext(s) && s.main.joins < s.n && s.main.joins < |s.workers|
    && Stop !in s.queue && !(s.lock.ByPush? && s.lock.task == Stop)
    && s.workers[s.main.joins] != Exited && s.workers[s.main.joins] != Busy(Stop)
  }

  lemma DoomedStep(s: State, a: Action)
    requires Doomed(s) && Enabled(s, a)
    ensures Doomed(Apply(s, a))
  {
  }

  /** Nothing that happens afterwards, pushes and spurious wake-ups included, gets it through. */
  lemma {:induction false} DoomedForever(s: State, acts: seq<Action>, t: State)
    requires Doomed(s) && Exec(s, acts) == To(t)
    ensures Doomed(t) && t.main != Done
    decreases |acts|
  {
    if acts == [] {
    } else {
      DoomedStep(s, acts[0]);
      DoomedForever(Apply(s, acts[0]), acts[1..], t);
    }
  }

  lemma {:induction false} FewStopped(ws: seq<Worker>, j: nat)
    requires j < |ws| && StoppedOne(ws[j]) == 0
    ensures Stopped(ws) < |ws|
  {
    StoppedAtMost(ws[1..]);
    if j == 0 {
    } else {
      FewStopped(ws[1..], j - 1);
    }
  }

  lemma {:induction false} StoppedAtMost(ws: seq<Worker>)
    ensures Stopped(ws) <= |ws|
  {
    if ws == [] {
    } else {
      StoppedAtMost(ws[1..]);
    }
  }

  /** If all stops are pushed first, or there is one worker, no reachable state is doomed. */
  lemma NeverDoomed(n: nat, eager: bool, acts: seq<Action>, t: State)
    requires Exec(Init(n, eager), acts) == To(t) && (eager || n <= 1)
    ensures !Doomed(t)
  {
    Reached(n, eager, acts, t);
    if Doomed(t) {
      StopsCat(t.popped, t.queue);
      StopIn(t.queue);
      FewStopped(t.workers, t.main.joins);
    }
  }

  function Spawned(n: nat, eager: bool, k: nat): State {
    Init(n, eager).(workers := seq(k, _ => Locking))
  }

  lemma {:induction false} SpawnRun(n: nat, eager: bool, k: nat) returns (acts: seq<Action>)
    requires k <= n
    ensures Exec(Init(n, eager), acts) == To(Spawned(n, eager, k))
  {
    if k == 0 {
      acts := [];
      assert Spawned(n, eager, 0) == Init(n, eager);
    } else {
      acts := SpawnRun(n, eager, k - 1);
      var s := Spawned(n, eager, k - 1);
      assert s.workers + [Locking] == Spawned(n, eager, k).workers;
      acts, s := More(Init(n, eager), acts, s, Spawn);
    }
  }

  /** The destructor has pushed its first stop, and every worker is awake. */
  lemma FirstStop(n: nat) returns (acts: seq<Action>, t: State)
    requires n >= 1
    ensures Exec(Init(n, false), acts) == To(t)
    ensures t == Spawned(n, false, n).(queue := [Stop], pushed := [Stop], main := Closing(1, 0))
  {
    acts := SpawnRun(n, false, n);
    t := Spawned(n, false, n);
    var s := Init(n, false);
    acts, t := More(s, acts, t, Built);
    acts, t := More(s, acts, t, BeginClose);
    acts, t := More(s, acts, t, StopLock);
    assert t == Spawned(n, false, n).(lock := ByPush(Stop, Locked, true), main := Closing(1, 0));
    acts, t := More(s, acts, t, Enqueue);
    acts, t := More(s, acts, t, NotifyNone);
    acts, t := More(s, acts, t, Unlock);
  }

  /** As written, with two or more workers: the second worker takes the first stop while the
      destructor waits for the first worker. */
  lemma DoomReachable(n: nat) returns (acts: seq<Action>, t: State)
    requires n >= 2
    ensures Exec(Init(n, false), acts) == To(t) && Doomed(t)
  {
    acts, t := FirstStop(n);
    acts, t := More(Init(n, false), acts, t, WorkerLock(1));
    acts, t := More(Init(n, false), acts, t, Take(1));
  }

  /** Exactly when a doomed state can be reached. */
  lemma DoomedIff(n: nat, eager: bool)
    ensures (exists acts, t :: Exec(Init(n, eager), acts) == To(t) && Doomed(t)) <==> !eager && n >= 2
  {
    if !eager && n >= 2 {
      var acts, t := DoomReachable(n);
    } else {
      forall acts, t | Exec(Init(n, eager), acts) == To(t) ensures !Doomed(t) {
        NeverDoomed(n, eager, acts, t);
      }
    }
  }

  // ---------- Progress ----------

  /** The steps the pool makes by itself: no new push by a client, no spurious wake-up. */
  predicate Own(a: Action) {
    !a.ClientLock? && !a.Wake?
  }

  function WorkOne(w: Worker): nat {
    match w
    case Locking => 2
    case Holding => 1
    case Asleep => 0
    case Busy(_) => 3
    case Exited => 0
  }

  function LockWork(l: Lock): nat {
    match l
    case ByPush(_, Locked, _) => 8
    case ByPush(_, Enqueued, _) => 4
    case ByPush(_, Notified, _) => 1
    case _ => 0
  }

  /** What is left to do once the destructor has begun. */
  function Work(s: State): nat
    requires s.main.Closing? ==> s.main.joins <= s.main.pushes <= s.n
  {
    (if s.main.Closing? then 10 * (s.n - s.main.pushes) + (s.n - s.main.joins) + 1 else 0)
    + 3 * |s.queue| + LockWork(s.lock) + Sum(s.workers, WorkOne)
  }

  lemma WorkMove(s: State, a: Action)
    requires LockInv(s) && MainInv(s) && s.main.Closing? && Enabled(s, a) && Own(a) && Moves(a)
    ensures Apply(s, a).main == s.main && Work(Apply(s, a)) < Work(s)
  {
    MovedWork(s, a);
    MovedRest(s, a);
  }

  /** Apart from the worker itself, a move leaves the work as it is or takes from it. */
  lemma MovedRest(s: State, a: Action)
    requires LockInv(s) && Enabled(s, a) && Own(a) && Moves(a)
    ensures var t := Apply(s, a);
      && t.main == s.main && t.n == s.n
      && 3 * |t.queue| + LockWork(t.lock) + WorkOne(t.workers[a.w]) < 3 * |s.queue| + LockWork(s.lock) + WorkOne(s.workers[a.w])
  {
  }

  lemma MovedWork(s: State, a: Action)
    requires Enabled(s, a) && Moves(a)
    ensures Sum(Apply(s, a).workers, WorkOne) + WorkOne(s.workers[a.w])
         == Sum(s.workers, WorkOne) + WorkOne(Apply(s, a).workers[a.w])
  {
    Moved(s, a);
    SumUpdate(s.workers, a.w, Apply(s, a).workers[a.w], WorkOne);
  }

  lemma OwnStep(s: State, a: Action)
    requires Inv(s) && s.main.Closing? && Enabled(s, a) && Own(a)
    ensures Inv(Apply(s, a)) && (Apply(s, a).main.Closing? || Apply(s, a).main.Done?)
    ensures Work(Apply(s, a)) < Work(s)
  {
    Step(s, a);
    WorkStep(s, a);
  }

  lemma WorkStep(s: State, a: Action)
    requires LockInv(s) && MainInv(s) && s.main.Closing? && Enabled(s, a) && Own(a)
    ensures Apply(s, a).main.Closing? ==> Apply(s, a).main.joins <= Apply(s, a).main.pushes <= s.n
    ensures Apply(s, a).main.Closing? || Apply(s, a).main.Done?
    ensures Work(Apply(s, a)) < Work(s)
  {
    if Moves(a) {
      WorkMove(s, a);
    }
  }

  lemma {:induction false} NoneAwake(ws: seq<Worker>)
    requires forall w :: 0 <= w < |ws| ==> ws[w] != Locking && ws[w] != Holding
    ensures Awake(ws) == 0
  {
    if ws == [] {
    } else {
      NoneAwake(ws[1..]);
    }
  }

  /** While the destructor runs and is not doomed, the pool can make a step of its own. */
  lemma OwnEnabled(s: State) returns (a: Action)
    requires Inv(s) && s.main.Closing? && !Doomed(s)
    ensures Enabled(s, a) && Own(a)
  {
    if s.lock.ByPush? {
      if s.lock.stage == Locked {
        a := Enqueue;
      } else if s.lock.stage == Notified {
        a := Unlock;
      } else if w :| 0 <= w < |s.workers| && s.workers[w] == Asleep {
        a := Notify(w);
      } else {
        a := NotifyNone;
      }
    } else if s.lock.ByWorker? {
      a := if s.queue == [] then Sleep(s.lock.w) else Take(s.lock.w);
    } else if w :| 0 <= w < |s.workers| && s.workers[w] == Locking {
      a := WorkerLock(w);
    } else if w :| 0 <= w < |s.workers| && s.workers[w].Busy? {
      a := Finish(w);
    } else if PushNext(s) {
      a := StopLock;
    } else if s.main.joins == s.n {
      a := Return;
    } else {
      a := Join;
      NoneAwake(s.workers);
      assert s.workers[s.main.joins] != Exited ==> AnyAsleep(s);
    }
  }

  /** From any reachable state in which the destructor runs and cannot become doomed, the pool
      by itself brings it to its end, in at most `Work` steps. */
  lemma {:induction false} Finishes(s: State) returns (acts: seq<Action>, t: State)
    requires Inv(s) && s.main.Closing? && (s.eager || s.n <= 1)
    ensures Exec(s, acts) == To(t) && t.main == Done && |acts| <= Work(s)
    ensures forall a :: a in acts ==> Own(a)
    decreases Work(s)
  {
    SafeNotDoomed(s);
    var a := OwnEnabled(s);
    OwnStep(s, a);
    var u := Apply(s, a);
    if u.main == Done {
      acts, t := [a], u;
    } else {
      var rest;
      rest, t := Finishes(u);
      acts := [a] + rest;
      assert acts[1..] == rest;
    }
  }

  /** However its own steps are interleaved, no run of them is longer than `Work`. */
  lemma {:induction false} OwnRunsAreShort(s: State, acts: seq<Action>, t: State)
    requires Inv(s) && s.main.Closing? && Exec(s, acts) == To(t) && (forall a :: a in acts ==> Own(a))
    requires t.main.Closing?
    ensures Inv(t) && |acts| + Work(t) <= Work(s)
    decreases |acts|
  {
    if acts == [] {
    } else {
      OwnStep(s, acts[0]);
      if Apply(s, acts[0]).main == Done {
        StaysDone(Apply(s, acts[0]), acts[1..], t);
      } else {
        OwnRunsAreShort(Apply(s, acts[0]), acts[1..], t);
      }
    }
  }

  lemma {:induction false} StaysDone(s: State, acts: seq<Action>, t: State)
    requires s.main == Done && Exec(s, acts) == To(t)
    ensures t.main == Done
    decreases |acts|
  {
    if acts == [] {
    } else {
      StaysDone(Apply(s, acts[0]), acts[1..], t);
    }
  }

  lemma SafeNotDoomed(s: State)
    requires Inv(s) && (s.eager || s.n <= 1)
    ensures !Doomed(s)
  {
    if Doomed(s) {
      StopsCat(s.popped, s.queue);
      StopIn(s.queue);
      FewStopped(s.workers, s.main.joins);
    }
  }

  /** Some run from here brings the destructor to its end. */
  ghost predicate CanFinish(s: State) {
    exists acts, t :: Exec(s, acts) == To(t) && t.main == Done
  }

  /** The destructor can always still get through, whatever has happened, exactly if the stops
      are all pushed first or there is at most one worker. */
  lemma GetsThroughIff(n: nat, eager: bool)
    ensures (forall acts, t :: Exec(Init(n, eager), acts) == To(t) && t.main.Closing? ==> CanFinish(t))
            <==> eager || n <= 1
  {
    if eager || n <= 1 {
      forall acts, t | Exec(Init(n, eager), acts) == To(t) && t.main.Closing? ensures CanFinish(t) {
        Reached(n, eager, acts, t);
        var more, u := Finishes(t);
      }
    } else {
      var acts, t := DoomReachable(n);
      forall more, u | Exec(t, more) == To(u) ensures u.main != Done {
        DoomedForever(t, more, u);
      }
      assert !CanFinish(t);
    }
  }

  /** A finished destructor has always left no earlier task behind, exactly if there is a worker. */
  lemma LeavesNothingIff(n: nat, eager: bool)
    ensures (forall acts, t :: Exec(Init(n, eager), acts) == To(t) && t.main == Done ==> t.before <= |t.popped|)
            <==> n >= 1
  {
    if n >= 1 {
      forall acts, t | Exec(Init(n, eager), acts) == To(t) && t.main == Done ensures t.before <= |t.popped| {
        ShutdownRunsAll(n, eager, acts, t);
      }
    } else {
      var acts, t := NoWorkersRunNothing(eager, 0);
      Conserved(n, eager, acts, t);
    }
  }
}
