/** What clients can count on: a pool that has not been destroyed takes every task, at any time. */
module ThreadPoolClients {
  import opened ThreadPool
  import opened ThreadPoolShutdown
  import opened ThreadPoolProgress

  lemma Then(s: State, a: seq<Action>, t: State, b: seq<Action>, u: State)
    requires Exec(s, a) == To(t) && Exec(t, b) == To(u)
    ensures Exec(s, a + b) == To(u)
  {
    ExecCat(s, a, b, t);
  }

  // ---------- Pushing ----------

  /** The mutex is always given up again, by the steps of its holder alone. */
  lemma {:induction false} FreeLock(s: State) returns (acts: seq<Action>, t: State)
    requires LockInv(s)
    ensures Exec(s, acts) == To(t) && t.lock == Free && (forall a :: a in acts ==> Quiet(a))
    ensures t.main == s.main && t.n == s.n && t.eager == s.eager && t.finished == s.finished && s.pushed <= t.pushed
    decreases LockWork(s.lock), if s.lock.ByWorker? then 1 else 0
  {
    if s.lock == Free {
      acts, t := [], s;
    } else {
      var a := HolderStep(s);
      LockStep(s, a);
      var rest;
      rest, t := FreeLock(Apply(s, a));
      acts := [a] + rest;
      assert acts[1..] == rest;
    }
  }

  lemma HolderStep(s: State) returns (a: Action)
    requires LockInv(s) && s.lock != Free
    ensures Enabled(s, a) && Quiet(a)
    ensures var t := Apply(s, a);
      && LockWork(t.lock) <= LockWork(s.lock) && (s.lock.ByPush? ==> LockWork(t.lock) < LockWork(s.lock))
      && (s.lock.ByWorker? ==> t.lock == Free)
      && t.main == s.main && t.n == s.n && t.eager == s.eager && t.finished == s.finished && s.pushed <= t.pushed
  {
    if s.lock.ByPush? {
      a := PushGoesOn(s);
    } else {
      a := if s.queue == [] then Sleep(s.lock.w) else Take(s.lock.w);
    }
  }

  /** The first half of a push. */
  lemma Appended(s: State, id: nat) returns (acts: seq<Action>, t: State)
    requires (s.main == Live || s.main.Closing?) && s.lock == Free
    ensures Exec(s, acts) == To(t) && acts == [ClientLock(id), Enqueue]
    ensures t == s.(lock := ByPush(Execute(id), Enqueued, false), queue := s.queue + [Execute(id)], pushed := s.pushed + [Execute(id)])
  {
    acts, t := More(s, [], s, ClientLock(id));
    acts, t := More(s, acts, t, Enqueue);
  }

  /** One whole push on a free mutex: the task is appended and nothing else changes, but that a
      sleeping worker may have been woken. */
  lemma PushRun(s: State, id: nat) returns (acts: seq<Action>, t: State)
    requires (s.main == Live || s.main.Closing?) && s.lock == Free
    ensures Exec(s, acts) == To(t)
    ensures t == s.(workers := t.workers, queue := s.queue + [Execute(id)], pushed := s.pushed + [Execute(id)])
    ensures !AnyAsleep(s) ==> t.workers == s.workers
    ensures forall a :: a in acts ==> a == ClientLock(id) || Quiet(a)
  {
    acts, t := Appended(s, id);
    if w :| 0 <= w < |t.workers| && t.workers[w] == Asleep {
      acts, t := More(s, acts, t, Notify(w));
    } else {
      acts, t := More(s, acts, t, NotifyNone);
    }
    acts, t := More(s, acts, t, Unlock);
  }

  /** In every reachable state before the destructor is through, whoever holds the mutex and
      whatever is queued, a client can push any task. */
  lemma CanPush(s: State, id: nat) returns (acts: seq<Action>, t: State)
    requires Inv(s) && (s.main == Live || s.main.Closing?)
    ensures Exec(s, acts) == To(t) && t.main == s.main
    ensures s.pushed < t.pushed && t.pushed[|t.pushed| - 1] == Execute(id)
    ensures forall a :: a in acts ==> a == ClientLock(id) || Quiet(a)
  {
    var first, u := FreeLock(s);
    var more;
    more, t := PushRun(u, id);
    Then(s, first, u, more, t);
    acts := first + more;
  }

  /** A spurious wake-up, possible for every sleeping worker, finds the queue empty and leaves no
      trace. */
  lemma SpuriousWakeUp(s: State, w: nat)
    requires Is(s, w, Asleep) && s.lock == Free && s.queue == []
    ensures Exec(s, [Wake(w), WorkerLock(w), Sleep(w)]) == To(s)
  {
    var acts, t := More(s, [], s, Wake(w));
    acts, t := More(s, acts, t, WorkerLock(w));
    acts, t := More(s, acts, t, Sleep(w));
    assert t.workers == s.workers;
  }

  // ---------- A whole life ----------

  function Tasks(ids: seq<nat>): seq<Task> {
    seq(|ids|, k requires 0 <= k < |ids| => Execute(ids[k]))
  }

  /** Any tasks, in any number, can be pushed one after another and queue up in that order. */
  lemma {:induction false} Accepts(n: nat, eager: bool, ids: seq<nat>) returns (acts: seq<Action>, t: State)
    ensures Exec(Init(n, eager), acts) == To(t) && t.main == Live && t.lock == Free
    ensures t.n == n && t.eager == eager && t.popped == [] && t.finished == multiset{}
    ensures t.queue == t.pushed == Tasks(ids) && t.workers == seq(n, _ => Locking)
  {
    if ids == [] {
      acts := SpawnRun(n, eager, n);
      acts, t := More(Init(n, eager), acts, Spawned(n, eager, n), Built);
    } else {
      var last := |ids| - 1;
      var first, u := Accepts(n, eager, ids[..last]);
      var more;
      more, t := PushRun(u, ids[last]);
      Then(Init(n, eager), first, u, more, t);
      acts := first + more;
      assert Tasks(ids) == Tasks(ids[..last]) + [Execute(ids[last])];
    }
  }

  /** All workers can execute at the same time: the first `k` have taken a task each. */
  lemma {:induction false} Parallel(n: nat, eager: bool, ids: seq<nat>, k: nat) returns (acts: seq<Action>, t: State)
    requires k <= n && k <= |ids|
    ensures Exec(Init(n, eager), acts) == To(t) && t.main == Live && t.lock == Free && |t.workers| == n
    ensures forall w :: 0 <= w < n ==> t.workers[w] == if w < k then Busy(Execute(ids[w])) else Locking
    ensures t.queue == Tasks(ids)[k..]
  {
    if k == 0 {
      acts, t := Accepts(n, eager, ids);
    } else {
      acts, t := Parallel(n, eager, ids, k - 1);
      acts, t := More(Init(n, eager), acts, t, WorkerLock(k - 1));
      acts, t := More(Init(n, eager), acts, t, Take(k - 1));
    }
  }

  // ---------- Without the mutex ----------

  /** A task ends, and its worker goes on or exits, whoever holds the mutex. */
  lemma EndsAnyTime(s: State, w: nat)
    requires w < |s.workers| && s.workers[w].Busy?
    ensures Exec(s, [Finish(w)]) == To(
      match s.workers[w].task
      case Stop => s.(workers := s.workers[w := Exited])
      case Execute(id) => s.(workers := s.workers[w := Locking], finished := s.finished + multiset{id}))
  {
  }

  /** So does a spurious wake-up. */
  lemma WakesAnyTime(s: State, w: nat)
    requires Is(s, w, Asleep)
    ensures Exec(s, [Wake(w)]) == To(s.(workers := s.workers[w := Locking]))
  {
  }

  /** The destructor can begin at any time, in the middle of a push and whatever is queued. */
  lemma ClosesAnyTime(s: State)
    requires s.main == Live
    ensures Exec(s, [BeginClose]) == To(s.(main := Closing(0, 0), before := |s.pushed|))
  {
  }

  /** Having pushed its stop, it joins an exited worker whoever holds the mutex. */
  lemma JoinsAnyTime(s: State)
    requires Inv(s) && s.main.Closing? && s.main.joins < s.main.pushes && (s.eager ==> s.main.pushes == s.n)
    requires Is(s, s.main.joins, Exited) && !(s.lock.ByPush? && s.lock.task == Stop)
    ensures Exec(s, [Join]) == To(s.(main := Closing(s.main.pushes, s.main.joins + 1)))
  {
  }

  // ---------- The destructor ----------

  /** The destructor can begin whatever is queued. */
  lemma Closes(n: nat, eager: bool, ids: seq<nat>) returns (acts: seq<Action>, t: State)
    ensures Exec(Init(n, eager), acts) == To(t) && t.main == Closing(0, 0) && t.lock == Free
    ensures t.n == n && t.eager == eager && t.before == |ids| && t.queue == t.pushed == Tasks(ids)
  {
    acts, t := Accepts(n, eager, ids);
    acts, t := More(Init(n, eager), acts, t, BeginClose);
  }

  /** Without new clients only stops are pushed. */
  ghost predicate OnlyStops(s: State) {
    s.lock.ByPush? ==> s.lock.task == Stop
  }

  lemma {:induction false} StopsFollow(s: State, acts: seq<Action>, t: State)
    requires Exec(s, acts) == To(t) && (forall a :: a in acts ==> Own(a)) && OnlyStops(s) && !s.main.Building? && !s.main.Live?
    ensures t.before == s.before && s.pushed <= t.pushed
    ensures forall x :: Count(t.pushed[|s.pushed|..], x) == 0
    decreases |acts|
  {
    if acts == [] {
    } else {
      assert acts[0] in acts;
      var u := Apply(s, acts[0]);
      StopsFollow(u, acts[1..], t);
      var tail := t.pushed[|u.pushed|..];
      assert t.pushed[|s.pushed|..] == u.pushed[|s.pushed|..] + tail;
      forall x ensures Count(t.pushed[|s.pushed|..], x) == 0 {
        CountCat(u.pushed[|s.pushed|..], tail, x);
      }
    }
  }

  lemma {:induction false} TasksCount(ids: seq<nat>, x: nat)
    ensures Count(Tasks(ids), x) == multiset(ids)[x]
  {
    if ids == [] {
    } else {
      TasksCount(ids[1..], x);
      assert Tasks(ids)[1..] == Tasks(ids[1..]);
      assert ids == [ids[0]] + ids[1..];
    }
  }

  /** Where the destructor gets through, a whole life of the pool with these tasks runs each of
      them as often as it was pushed. */
  lemma RunsAll(n: nat, eager: bool, ids: seq<nat>) returns (acts: seq<Action>, t: State)
    requires n >= 1 && (eager || n == 1)
    ensures Exec(Init(n, eager), acts) == To(t) && t.main == Done
    ensures t.before == |ids| && Tasks(ids) <= t.pushed && t.finished == multiset(ids)
  {
    var first, s := Closes(n, eager, ids);
    Reached(n, eager, first, s);
    var more;
    more, t := Finishes(s);
    Then(Init(n, eager), first, s, more, t);
    acts := first + more;
    StopsFollow(s, more, t);
    RanAll(n, eager, ids, acts, t);
  }

  /** Whatever run it was, a destructor that got through has run exactly the tasks, if no task
      was pushed after it began. */
  lemma RanAll(n: nat, eager: bool, ids: seq<nat>, acts: seq<Action>, t: State)
    requires n >= 1 && Exec(Init(n, eager), acts) == To(t) && t.main == Done
    requires t.before == |ids| && Tasks(ids) <= t.pushed && forall x :: Count(t.pushed[|ids|..], x) == 0
    ensures t.finished == multiset(ids)
  {
    ShutdownRunsAll(n, eager, acts, t);
    forall x ensures t.finished[x] == multiset(ids)[x] {
      PoppedCount(ids, t.popped, t.pushed, x);
    }
  }

  /** Of what was pushed after the tasks nothing is a task. */
  lemma PoppedCount(ids: seq<nat>, popped: seq<Task>, pushed: seq<Task>, x: nat)
    requires Tasks(ids) <= pushed && |ids| <= |popped| && popped <= pushed && Count(pushed[|ids|..], x) == 0
    ensures Count(popped, x) == multiset(ids)[x]
  {
    var rest, tail := popped[|ids|..], pushed[|ids|..];
    assert popped == Tasks(ids) + rest;
    CountCat(Tasks(ids), rest, x);
    assert tail == rest + tail[|rest|..];
    CountCat(rest, tail[|rest|..], x);
    TasksCount(ids, x);
  }
}
