/**
 The thread pool over its blocking queue, as interleaved steps of the workers, of clients that
 push, and of the constructor and destructor. The mutex is explicit: a push holds it through
 its three statements, and a worker that finds the queue empty gives it up and falls asleep in
 one step, as a condition variable's wait does.
 */
module ThreadPool {

  datatype Task = Execute(id: nat) | Stop

  /** `Locking` wants the mutex inside pop, `Holding` has it and is about to test the queue,
      `Asleep` waits un-notified, `Busy` has left pop with a task. */
  datatype Worker = Locking | Holding | Asleep | Busy(task: Task) | Exited

  datatype Stage = Locked | Enqueued | Notified

  /** Who holds the mutex; for a push, how far it is and whether it is the destructor's. */
  datatype Lock = Free | ByWorker(w: nat) | ByPush(task: Task, stage: Stage, closing: bool)

  /** The owner of the pool: constructing, using it, destroying it (with the number of stop
      pushes begun and of joins done), or through. */
  datatype Main = Building | Live | Closing(pushes: nat, joins: nat) | Done

  /** `n` is the number of threads asked for. `eager` chooses the order of the destructor: false
      is the code as written, a push and a join in turn; true pushes all stops first. The last
      four fields only record what happened: the tasks in push order and in pop order, the
      tasks run, and how many tasks had been pushed when the destructor began. */
  datatype State = State(n: nat, eager: bool, workers: seq<Worker>, queue: seq<Task>, lock: Lock, main: Main,
                         pushed: seq<Task>, popped: seq<Task>, finished: multiset<nat>, before: nat)

  datatype Action =
    | Spawn | Built | BeginClose | StopLock | Join | Return
    | ClientLock(id: nat) | Enqueue | Notify(w: nat) | NotifyNone | Unlock
    | WorkerLock(w: nat) | Sleep(w: nat) | Take(w: nat) | Finish(w: nat) | Wake(w: nat)

  function Init(n: nat, eager: bool): State {
    State(n, eager, [], [], Free, Building, [], [], multiset{}, 0)
  }

  predicate Is(s: State, w: nat, k: Worker) {
    w < |s.workers| && s.workers[w] == k
  }

  predicate AnyAsleep(s: State) {
    exists w :: 0 <= w < |s.workers| && s.workers[w] == Asleep
  }

  /** The destructor's next move is a push rather than a join. */
  predicate PushNext(s: State) {
    s.main.Closing? && s.main.pushes < s.n && (s.eager || s.main.pushes == s.main.joins)
  }

  predicate Enabled(s: State, a: Action) {
    match a
    case Spawn => s.main == Building && |s.workers| < s.n
    case Built => s.main == Building && |s.workers| == s.n
    case BeginClose => s.main == Live
    case StopLock => PushNext(s) && s.lock == Free
    case Join =>
      && s.main.Closing? && !PushNext(s) && s.main.joins < s.n
      && !(s.lock.ByPush? && s.lock.closing) && Is(s, s.main.joins, Exited)
    case Return => s.main.Closing? && s.main.joins == s.n
    case ClientLock(_) => (s.main == Live || s.main.Closing?) && s.lock == Free
    case Enqueue => s.lock.ByPush? && s.lock.stage == Locked
    case Notify(w) => s.lock.ByPush? && s.lock.stage == Enqueued && Is(s, w, Asleep)
    case NotifyNone => s.lock.ByPush? && s.lock.stage == Enqueued && !AnyAsleep(s)
    case Unlock => s.lock.ByPush? && s.lock.stage == Notified
    case WorkerLock(w) => Is(s, w, Locking) && s.lock == Free
    case Sleep(w) => Is(s, w, Holding) && s.queue == []
    case Take(w) => Is(s, w, Holding) && s.queue != []
    case Finish(w) => w < |s.workers| && s.workers[w].Busy?
    case Wake(w) => Is(s, w, Asleep)
  }

  function Apply(s: State, a: Action): State
    requires Enabled(s, a)
  {
    match a
    case Spawn => s.(workers := s.workers + [Locking])
    case Built => s.(main := Live)
    case BeginClose => s.(main := Closing(0, 0), before := |s.pushed|)
    case StopLock => s.(main := Closing(s.main.pushes + 1, s.main.joins), lock := ByPush(Stop, Locked, true))
    case Join => s.(main := Closing(s.main.pushes, s.main.joins + 1))
    case Return => s.(main := Done)
    case ClientLock(id) => s.(lock := ByPush(Execute(id), Locked, false))
    case Enqueue => s.(queue := s.queue + [s.lock.task], pushed := s.pushed + [s.lock.task], lock := s.lock.(stage := Enqueued))
    case Notify(w) => s.(workers := s.workers[w := Locking], lock := s.lock.(stage := Notified))
    case NotifyNone => s.(lock := s.lock.(stage := Notified))
    case Unlock => s.(lock := Free)
    case WorkerLock(w) => s.(workers := s.workers[w := Holding], lock := ByWorker(w))
    case Sleep(w) => s.(workers := s.workers[w := Asleep], lock := Free)
    case Take(w) =>
      s.(workers := s.workers[w := Busy(s.queue[0])], queue := s.queue[1..],
         popped := s.popped + [s.queue[0]], lock := Free)
    case Finish(w) =>
      if s.workers[w].task == Stop then s.(workers := s.workers[w := Exited])
      else s.(workers := s.workers[w := Locking], finished := s.finished + multiset{s.workers[w].task.id})
    case Wake(w) => s.(workers := s.workers[w := Locking])
  }

  /** The state after a list of steps, if each of them was possible when its turn came. */
  datatype Outcome = Impossible | To(state: State)

  function Exec(s: State, acts: seq<Action>): Outcome
    decreases |acts|
  {
    if acts == [] then To(s)
    else if Enabled(s, acts[0]) then Exec(Apply(s, acts[0]), acts[1..])
    else Impossible
  }

  // ---------- Counting ----------

  function Sum(ws: seq<Worker>, f: Worker -> nat): nat {
    if ws == [] then 0 else f(ws[0]) + Sum(ws[1..], f)
  }

  lemma {:induction false} SumUpdate(ws: seq<Worker>, i: nat, w: Worker, f: Worker -> nat)
    requires i < |ws|
    ensures Sum(ws[i := w], f) + f(ws[i]) == Sum(ws, f) + f(w)
  {
    if i > 0 {
      SumUpdate(ws[1..], i - 1, w, f);
      assert ws[i := w][1..] == ws[1..][i - 1 := w];
    } else {
      assert ws[0 := w][1..] == ws[1..];
    }
  }

  lemma {:induction false} SumAppend(ws: seq<Worker>, w: Worker, f: Worker -> nat)
    ensures Sum(ws + [w], f) == Sum(ws, f) + f(w)
  {
    if ws == [] {
    } else {
      SumAppend(ws[1..], w, f);
      assert (ws + [w])[1..] == ws[1..] + [w];
    }
  }

  /** A worker that is awake and not executing. */
  function AwakeOne(w: Worker): nat {
    if w == Locking || w == Holding then 1 else 0
  }

  /** A worker that has taken a stop. */
  function StoppedOne(w: Worker): nat {
    if w == Exited || w == Busy(Stop) then 1 else 0
  }

  function Awake(ws: seq<Worker>): nat { Sum(ws, AwakeOne) }

  function Stopped(ws: seq<Worker>): nat { Sum(ws, StoppedOne) }

  function Stops(q: seq<Task>): nat {
    if q == [] then 0 else (if q[0] == Stop then 1 else 0) + Stops(q[1..])
  }

  lemma {:induction false} StopsCat(p: seq<Task>, q: seq<Task>)
    ensures Stops(p + q) == Stops(p) + Stops(q)
  {
    if p == [] {
      assert p + q == q;
    } else {
      StopsCat(p[1..], q);
      assert (p + q)[1..] == p[1..] + q;
    }
  }

  lemma {:induction false} StopIn(q: seq<Task>)
    ensures Stops(q) == 0 <==> Stop !in q
  {
    if q == [] {
    } else {
      StopIn(q[1..]);
    }
  }

  /** How often the task `x` is among some tasks, and among those some workers execute. */
  function Count(q: seq<Task>, x: nat): nat {
    if q == [] then 0 else (if q[0] == Execute(x) then 1 else 0) + Count(q[1..], x)
  }

  function Running(ws: seq<Worker>, x: nat): nat {
    if ws == [] then 0 else (if ws[0] == Busy(Execute(x)) then 1 else 0) + Running(ws[1..], x)
  }

  lemma {:induction false} CountCat(p: seq<Task>, q: seq<Task>, x: nat)
    ensures Count(p + q, x) == Count(p, x) + Count(q, x)
  {
    if p == [] {
      assert p + q == q;
    } else {
      CountCat(p[1..], q, x);
      assert (p + q)[1..] == p[1..] + q;
    }
  }

  lemma {:induction false} RunningUpdate(ws: seq<Worker>, i: nat, w: Worker, x: nat)
    requires i < |ws|
    ensures Running(ws[i := w], x) + (if ws[i] == Busy(Execute(x)) then 1 else 0)
         == Running(ws, x) + (if w == Busy(Execute(x)) then 1 else 0)
  {
    if i > 0 {
      RunningUpdate(ws[1..], i - 1, w, x);
      assert ws[i := w][1..] == ws[1..][i - 1 := w];
    } else {
      assert ws[0 := w][1..] == ws[1..];
    }
  }

  lemma {:induction false} RunningOne(ws: seq<Worker>, w: nat, x: nat)
    requires w < |ws| && ws[w] == Busy(Execute(x))
    ensures Running(ws, x) >= 1
  {
    if w == 0 {
    } else {
      RunningOne(ws[1..], w - 1, x);
    }
  }

  lemma {:induction false} RunningAppend(ws: seq<Worker>, w: Worker, x: nat)
    ensures Running(ws + [w], x) == Running(ws, x) + (if w == Busy(Execute(x)) then 1 else 0)
  {
    if ws == [] {
    } else {
      RunningAppend(ws[1..], w, x);
      assert (ws + [w])[1..] == ws[1..] + [w];
    }
  }

  // ---------- What holds in every reachable state ----------

  /** The mutex has one holder, and its holder knows it. */
  ghost predicate LockInv(s: State) {
    && (forall w :: 0 <= w < |s.workers| ==> (s.workers[w] == Holding <==> s.lock == ByWorker(w)))
    && (s.lock.ByWorker? ==> s.lock.w < |s.workers|)
  }

  /** Everything pushed was popped or is queued, in order; a popped stop is with the worker
      that took it. */
  ghost predicate LogInv(s: State) {
    s.popped + s.queue == s.pushed && Stopped(s.workers) == Stops(s.popped)
  }

  /** The task `x` was run or is being executed as often as it was popped. */
  ghost predicate RunInv(s: State, x: nat) {
    s.finished[x] + Running(s.workers, x) == Count(s.popped, x)
  }

  /** A push between its two statements has enqueued but not yet notified. */
  function Unannounced(s: State): nat {
    if s.lock.ByPush? && s.lock.stage == Enqueued then 1 else 0
  }

  /** No lost wake-up. */
  ghost predicate WakeInv(s: State) {
    AnyAsleep(s) ==> |s.queue| <= Awake(s.workers) + Unannounced(s)
  }

  /** A stop push of the destructor that has not enqueued yet. */
  function Pending(s: State): nat {
    if s.lock.ByPush? && s.lock.closing && s.lock.stage == Locked then 1 else 0
  }

  /** Where the owner is, and how many stops it has pushed. */
  ghost predicate MainInv(s: State) {
    && (s.lock.ByPush? ==> (s.lock.task == Stop <==> s.lock.closing))
    && (match s.main
        case Building => |s.workers| <= s.n && Stops(s.pushed) == 0 && !s.lock.ByPush?
        case Live => |s.workers| == s.n && Stops(s.pushed) == 0 && (s.lock.ByPush? ==> !s.lock.closing)
        case Closing(p, j) =>
          && |s.workers| == s.n && j <= p <= s.n && Stops(s.pushed) + Pending(s) == p
          && (s.lock.ByPush? && s.lock.closing ==> j < p)
          && (if s.eager then j > 0 ==> p == s.n else p <= j + 1)
          && (forall w :: 0 <= w < j ==> s.workers[w] == Exited)
        case Done =>
          && |s.workers| == s.n && Stops(s.pushed) == s.n && (s.lock.ByPush? ==> !s.lock.closing)
          && forall w :: 0 <= w < s.n ==> s.workers[w] == Exited)
    && (s.main.Closing? || s.main.Done? ==> s.before <= |s.pushed| && Stops(s.pushed[..s.before]) == 0)
  }

  ghost predicate Inv(s: State) {
    LockInv(s) && LogInv(s) && WakeInv(s) && MainInv(s) && forall x :: RunInv(s, x)
  }

  lemma LockStep(s: State, a: Action)
    requires LockInv(s) && Enabled(s, a)
    ensures LockInv(Apply(s, a))
  {
  }

  /** The steps that change one worker without touching the queue or the records. */
  ghost predicate Shifts(a: Action) {
    a.Notify? || a.WorkerLock? || a.Sleep? || a.Wake?
  }

  /** The steps that change one worker. */
  ghost predicate Moves(a: Action) {
    Shifts(a) || a.Finish? || a.Take?
  }

  lemma Moved(s: State, a: Action)
    requires Enabled(s, a) && Moves(a)
    ensures a.w < |s.workers| == |Apply(s, a).workers|
    ensures Apply(s, a).workers == s.workers[a.w := Apply(s, a).workers[a.w]]
  {
  }

  /** Taking a task is the one move that changes how many workers have taken a stop. */
  lemma MovedStopped(s: State, a: Action)
    requires Enabled(s, a) && Moves(a)
    ensures Stopped(Apply(s, a).workers) == Stopped(s.workers) + if a.Take? && s.queue[0] == Stop then 1 else 0
  {
    Moved(s, a);
    SumUpdate(s.workers, a.w, Apply(s, a).workers[a.w], StoppedOne);
  }

  lemma LogMove(s: State, a: Action)
    requires LogInv(s) && Enabled(s, a) && Moves(a)
    ensures LogInv(Apply(s, a))
  {
    MovedStopped(s, a);
    if a.Take? {
      StopsCat(s.popped, [s.queue[0]]);
      assert s.popped + [s.queue[0]] + s.queue[1..] == s.popped + s.queue;
    }
  }

  lemma LogStep(s: State, a: Action)
    requires LogInv(s) && Enabled(s, a)
    ensures LogInv(Apply(s, a))
  {
    if Moves(a) {
      LogMove(s, a);
    } else if a.Spawn? {
      SumAppend(s.workers, Locking, StoppedOne);
    } else if a.Enqueue? {
      assert s.popped + (s.queue + [s.lock.task]) == s.pushed + [s.lock.task];
    }
  }

  lemma RunStep(s: State, a: Action, x: nat)
    requires RunInv(s, x) && Enabled(s, a)
    ensures RunInv(Apply(s, a), x)
  {
    if Moves(a) {
      Moved(s, a);
      RunningUpdate(s.workers, a.w, Apply(s, a).workers[a.w], x);
      if a.Take? {
        CountCat(s.popped, [s.queue[0]], x);
      }
    } else if a.Spawn? {
      RunningAppend(s.workers, Locking, x);
    }
  }

  /** Only the end of a wait's test puts a worker to sleep. */
  lemma SleepsBefore(s: State, a: Action)
    requires Enabled(s, a) && !a.Sleep?
    ensures AnyAsleep(Apply(s, a)) ==> AnyAsleep(s)
  {
    var t := Apply(s, a);
    if w :| 0 <= w < |t.workers| && t.workers[w] == Asleep {
      assert w < |s.workers| && s.workers[w] == Asleep;
    }
  }

  lemma MovedAwake(s: State, a: Action)
    requires Enabled(s, a) && Moves(a)
    ensures Awake(Apply(s, a).workers) + AwakeOne(s.workers[a.w]) == Awake(s.workers) + AwakeOne(Apply(s, a).workers[a.w])
  {
    Moved(s, a);
    SumUpdate(s.workers, a.w, Apply(s, a).workers[a.w], AwakeOne);
  }

  lemma WakeMove(s: State, a: Action)
    requires LockInv(s) && WakeInv(s) && Enabled(s, a) && Moves(a)
    ensures WakeInv(Apply(s, a))
  {
    MovedAwake(s, a);
    if !a.Sleep? {
      SleepsBefore(s, a);
    }
  }

  lemma WakeStep(s: State, a: Action)
    requires LockInv(s) && WakeInv(s) && Enabled(s, a)
    ensures WakeInv(Apply(s, a))
  {
    if Moves(a) {
      WakeMove(s, a);
    } else {
      SleepsBefore(s, a);
      if a.Spawn? {
        SumAppend(s.workers, Locking, AwakeOne);
      }
    }
  }

  lemma MainEnqueue(s: State)
    requires LockInv(s) && MainInv(s) && Enabled(s, Enqueue)
    ensures MainInv(Apply(s, Enqueue))
  {
    StopsCat(s.pushed, [s.lock.task]);
    if s.main.Closing? || s.main.Done? {
      assert (s.pushed + [s.lock.task])[..s.before] == s.pushed[..s.before];
    }
  }

  /** A worker's move does not begin or end a push, and an exited worker makes none. */
  lemma MovedLock(s: State, a: Action)
    requires LockInv(s) && Enabled(s, a) && Moves(a)
    ensures var t := Apply(s, a);
      && t.lock.ByPush? == s.lock.ByPush? && Pending(t) == Pending(s)
      && (t.lock.ByPush? ==> t.lock.task == s.lock.task && t.lock.closing == s.lock.closing)
  {
  }

  lemma MovedExited(s: State, a: Action)
    requires Enabled(s, a) && Moves(a)
    ensures var t := Apply(s, a);
      |t.workers| == |s.workers| && forall w :: 0 <= w < |s.workers| && s.workers[w] == Exited ==> t.workers[w] == Exited
  {
  }

  lemma MainMove(s: State, a: Action)
    requires LockInv(s) && MainInv(s) && Enabled(s, a) && Moves(a)
    ensures MainInv(Apply(s, a))
  {
    MovedLock(s, a);
    MovedExited(s, a);
    MainSame(s, Apply(s, a));
  }

  lemma MainSame(s: State, t: State)
    requires MainInv(s) && t.main == s.main && t.n == s.n && t.eager == s.eager
    requires t.pushed == s.pushed && t.before == s.before
    requires t.lock.ByPush? == s.lock.ByPush? && Pending(t) == Pending(s)
    requires t.lock.ByPush? ==> t.lock.task == s.lock.task && t.lock.closing == s.lock.closing
    requires |t.workers| == |s.workers| && forall w :: 0 <= w < |s.workers| && s.workers[w] == Exited ==> t.workers[w] == Exited
    ensures MainInv(t)
  {
  }

  lemma MainStep(s: State, a: Action)
    requires LockInv(s) && MainInv(s) && Enabled(s, a)
    ensures MainInv(Apply(s, a))
  {
    if Moves(a) {
      MainMove(s, a);
    } else if a.Enqueue? {
      MainEnqueue(s);
    } else if a.BeginClose? {
      assert s.pushed[..|s.pushed|] == s.pushed;
    }
  }

  lemma Step(s: State, a: Action)
    requires Inv(s) && Enabled(s, a)
    ensures Inv(Apply(s, a))
  {
    LockStep(s, a);
    LogStep(s, a);
    WakeStep(s, a);
    MainStep(s, a);
    forall x ensures RunInv(Apply(s, a), x) {
      RunStep(s, a, x);
    }
  }

  lemma {:induction false} Steps(s: State, acts: seq<Action>, t: State)
    requires Inv(s) && Exec(s, acts) == To(t)
    ensures Inv(t) && t.n == s.n && t.eager == s.eager
    decreases |acts|
  {
    if acts == [] {
    } else {
      Step(s, acts[0]);
      Steps(Apply(s, acts[0]), acts[1..], t);
    }
  }

  /** Every state that any run from the start reaches. */
  lemma Reached(n: nat, eager: bool, acts: seq<Action>, t: State)
    requires Exec(Init(n, eager), acts) == To(t)
    ensures Inv(t) && t.n == n && t.eager == eager
  {
    Steps(Init(n, eager), acts, t);
  }

  /** Whenever a worker sleeps un-notified, there are no more queued tasks than workers that
      are awake and free to take one; only a push that is about to notify makes it one more. */
  lemma NoLostWakeUp(n: nat, eager: bool, acts: seq<Action>, t: State)
    requires Exec(Init(n, eager), acts) == To(t)
    ensures AnyAsleep(t) ==> |t.queue| <= Awake(t.workers) + Unannounced(t)
  {
    Reached(n, eager, acts, t);
  }

  /** Tasks leave in push order and none is lost or doubled on the way; a stop ends the one
      worker that takes it. */
  lemma Conserved(n: nat, eager: bool, acts: seq<Action>, t: State)
    requires Exec(Init(n, eager), acts) == To(t)
    ensures t.popped + t.queue == t.pushed
    ensures forall x :: t.finished[x] + Running(t.workers, x) + Count(t.queue, x) == Count(t.pushed, x)
    ensures Stopped(t.workers) + Stops(t.queue) == Stops(t.pushed) <= n
  {
    Reached(n, eager, acts, t);
    forall x ensures t.finished[x] + Running(t.workers, x) + Count(t.queue, x) == Count(t.pushed, x) {
      assert RunInv(t, x);
      CountCat(t.popped, t.queue, x);
    }
    StopsCat(t.popped, t.queue);
  }
}
