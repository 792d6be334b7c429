/** A live pool that is left to itself: it runs what was pushed, and then rests. */
module ThreadPoolProgress {
  import opened ThreadPool
  import opened ThreadPoolShutdown

  /** The steps of pushes under way and of the workers: nothing new is pushed, no worker wakes up
      without being notified, and the owner does nothing. */
  ghost predicate Quiet(a: Action) {
    Own(a) && (Moves(a) || a.Enqueue? || a.NotifyNone? || a.Unlock?)
  }

  /** No task is queued, being pushed or being executed. */
  ghost predicate Drained(s: State) {
    s.queue == [] && !s.lock.ByPush? && forall id :: Running(s.workers, id) == 0
  }

  /** No quiet step is possible. */
  ghost predicate Resting(s: State) {
    forall a :: Quiet(a) ==> !Enabled(s, a)
  }

  lemma QuietStep(s: State, a: Action)
    requires Inv(s) && s.main == Live && Enabled(s, a) && Quiet(a)
    ensures Inv(Apply(s, a)) && Apply(s, a).main == Live
    ensures Work(Apply(s, a)) < Work(s)
  {
    Step(s, a);
    if Moves(a) {
      MovedWork(s, a);
      MovedRest(s, a);
    }
  }

  /** However the quiet steps are interleaved, no run of them is longer than the work to do. */
  lemma {:induction false} QuietRunsAreShort(s: State, acts: seq<Action>, t: State)
    requires Inv(s) && s.main == Live && Exec(s, acts) == To(t) && (forall a :: a in acts ==> Quiet(a))
    ensures Inv(t) && t.main == Live && t.n == s.n && |acts| + Work(t) <= Work(s)
    decreases |acts|
  {
    if acts == [] {
    } else {
      QuietStep(s, acts[0]);
      QuietRunsAreShort(Apply(s, acts[0]), acts[1..], t);
    }
  }

  /** Before any stop was pushed no worker has exited. */
  lemma {:induction false} NoneStopped(ws: seq<Worker>)
    requires Stopped(ws) == 0
    ensures forall w :: 0 <= w < |ws| ==> ws[w] != Exited && ws[w] != Busy(Stop)
  {
    if ws == [] {
    } else {
      NoneStopped(ws[1..]);
    }
  }

  /** Unless it is drained, a live pool with a worker can make a quiet step. */
  lemma QuietEnabled(s: State) returns (a: Action)
    requires Inv(s) && s.main == Live && s.n >= 1 && !Drained(s)
    ensures Enabled(s, a) && Quiet(a)
  {
    if s.lock.ByPush? {
      a := PushGoesOn(s);
    } else if s.lock.ByWorker? {
      a := if s.queue == [] then Sleep(s.lock.w) else Take(s.lock.w);
    } else if w :| 0 <= w < |s.workers| && s.workers[w] == Locking {
      a := WorkerLock(w);
    } else if w :| 0 <= w < |s.workers| && s.workers[w].Busy? {
      a := Finish(w);
    } else {
      AllAsleep(s);
      assert false;
    }
  }

  lemma PushGoesOn(s: State) returns (a: Action)
    requires s.lock.ByPush?
    ensures Enabled(s, a) && Quiet(a) && (a.Enqueue? || a.Notify? || a.NotifyNone? || a.Unlock?)
  {
    if s.lock.stage == Locked {
      a := Enqueue;
    } else if s.lock.stage == Notified {
      a := Unlock;
    } else if w :| 0 <= w < |s.workers| && s.workers[w] == Asleep {
      a := Notify(w);
    } else {
      a := NotifyNone;
    }
  }

  lemma {:induction false} NoneRunning(ws: seq<Worker>)
    requires forall w :: 0 <= w < |ws| ==> !ws[w].Busy?
    ensures forall id :: Running(ws, id) == 0
  {
    if ws == [] {
    } else {
      NoneRunning(ws[1..]);
    }
  }

  /** When all workers sleep nothing is queued: no wake-up was lost. */
  lemma AllAsleep(s: State)
    requires Inv(s) && s.main == Live && s.n >= 1 && s.lock == Free
    requires forall w :: 0 <= w < |s.workers| ==> s.workers[w] != Locking && !s.workers[w].Busy?
    ensures Drained(s)
  {
    NoneRunning(s.workers);
    StopsCat(s.popped, s.queue);
    NoneStopped(s.workers);
    NoneAwake(s.workers);
    assert s.workers[0] == Asleep;
  }

  /** A live pool with a worker rests exactly when it is drained and its workers sleep. */
  lemma RestingIff(s: State)
    requires Inv(s) && s.main == Live && s.n >= 1
    ensures Resting(s) <==> Drained(s) && forall w :: 0 <= w < |s.workers| ==> s.workers[w] == Asleep
  {
    if Resting(s) {
      if !Drained(s) {
        var a := QuietEnabled(s);
      }
      StopsCat(s.popped, s.queue);
      NoneStopped(s.workers);
      forall w | 0 <= w < |s.workers| ensures s.workers[w] == Asleep {
        RestingWorker(s, w);
      }
    }
  }

  lemma RestingWorker(s: State, w: nat)
    requires LockInv(s) && Resting(s) && Drained(s) && w < |s.workers| && s.workers[w] != Exited && s.workers[w] != Busy(Stop)
    ensures s.workers[w] == Asleep
  {
    if s.workers[w].Busy? {
      RunningOne(s.workers, w, s.workers[w].task.id);
    } else if s.workers[w] == Holding {
      assert Quiet(Sleep(w)) && Enabled(s, Sleep(w));
    } else if s.workers[w] == Locking {
      if s.lock == Free {
        assert Quiet(WorkerLock(w)) && Enabled(s, WorkerLock(w));
      } else {
        assert Quiet(Sleep(s.lock.w)) && Enabled(s, Sleep(s.lock.w));
      }
    }
  }

  /** Left to itself the pool drains, within the work there is. */
  lemma {:induction false} Drains(s: State) returns (acts: seq<Action>, t: State)
    requires Inv(s) && s.main == Live && s.n >= 1
    ensures Exec(s, acts) == To(t) && Drained(t) && |acts| <= Work(s)
    ensures forall a :: a in acts ==> Quiet(a)
    decreases Work(s)
  {
    if Drained(s) {
      acts, t := [], s;
    } else {
      var a := QuietEnabled(s);
      QuietStep(s, a);
      var rest;
      rest, t := Drains(Apply(s, a));
      acts := [a] + rest;
      assert acts[1..] == rest;
    }
  }

  ghost predicate CanDrain(s: State) {
    exists acts, t :: Exec(s, acts) == To(t) && Drained(t) && forall a :: a in acts ==> Quiet(a)
  }

  lemma RestsForGood(s: State, acts: seq<Action>, t: State)
    requires Resting(s) && Exec(s, acts) == To(t) && (forall a :: a in acts ==> Quiet(a))
    ensures t == s
  {
    forall a | a in acts ensures !Enabled(s, a) {
    }
  }

  /** A live pool can always drain by itself exactly if it has a worker. */
  lemma DrainsIff(n: nat, eager: bool)
    ensures (forall acts, s :: Exec(Init(n, eager), acts) == To(s) && s.main == Live ==> CanDrain(s)) <==> n >= 1
  {
    if n >= 1 {
      forall acts, s | Exec(Init(n, eager), acts) == To(s) && s.main == Live ensures CanDrain(s) {
        Reached(n, eager, acts, s);
        var more, t := Drains(s);
      }
    } else {
      var acts, s := NoWorkersQueue(eager, 0);
      forall more, t | Exec(s, more) == To(t) && (forall a :: a in more ==> Quiet(a)) ensures t == s {
        RestsForGood(s, more, t);
      }
      assert !CanDrain(s);
    }
  }
}
