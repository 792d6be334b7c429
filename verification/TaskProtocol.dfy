/**
 The CONNECT / CHECK_STATUS protocol on top of the thread pool. A CONNECT pushes its task and
 only then writes the initial empty entry of the response map; the task writes the response
 when a worker runs it. Ids are distinct, as the generated identifiers are taken to be.
 */
module TaskProtocol {
  import P = ThreadPool
  import Q = ThreadPoolProgress
  import C = ThreadPoolClients
  import W = ThreadPoolShutdown

  datatype Entry = Empty | Response

  datatype Status = Pending | Completed

  /** `handling` are the ids of CONNECTs that have not written their entry yet, `issued` those
      answered to a client. `late` records the ids whose task had run before that write. */
  datatype State = State(pool: P.State, table: map<nat, Entry>, handling: set<nat>, issued: set<nat>, late: set<nat>)

  datatype Action =
    | Connect(id: nat)          // a CONNECT packet: the handler begins to push the task
    | Initialise(id: nat)       // its write of the empty entry, and its response
    | CheckStatus(id: nat)      // a CHECK_STATUS packet, for any id at all
    | Pool(step: P.Action)      // a step of the pool; the end of a task writes the response

  function Init(n: nat, eager: bool): State {
    State(P.Init(n, eager), map[], {}, {}, {})
  }

  predicate Pushing(s: State, id: nat) {
    s.pool.lock.ByPush? && s.pool.lock.task == P.Execute(id)
  }

  predicate Enabled(s: State, a: Action) {
    match a
    case Connect(id) => id !in s.handling + s.issued && P.Enabled(s.pool, P.ClientLock(id))
    case Initialise(id) => id in s.handling && !Pushing(s, id)
    case CheckStatus(_) => true
    case Pool(step) => !step.ClientLock? && P.Enabled(s.pool, step)
  }

  /** The task, if any, that a pool step brings to its end. */
  function Ends(s: State, step: P.Action): set<nat>
    requires P.Enabled(s.pool, step)
  {
    if step.Finish? && s.pool.workers[step.w].task.Execute? then {s.pool.workers[step.w].task.id} else {}
  }

  function Apply(s: State, a: Action): State
    requires Enabled(s, a)
  {
    match a
    case Connect(id) => s.(pool := P.Apply(s.pool, P.ClientLock(id)), handling := s.handling + {id})
    case Initialise(id) =>
      s.(table := s.table[id := Empty], handling := s.handling - {id}, issued := s.issued + {id},
         late := if Ran(s, id) then s.late + {id} else s.late)
    case CheckStatus(id) => s.(table := Looked(s.table, id))
    case Pool(step) =>
      s.(pool := P.Apply(s.pool, step), table := s.table + map id | id in Ends(s, step) :: Response)
  }

  /** Reading the map inserts an empty entry for an id that has none. */
  function Looked(table: map<nat, Entry>, id: nat): map<nat, Entry> {
    if id in table then table else table[id := Empty]
  }

  /** What CHECK_STATUS answers. */
  function Answer(s: State, id: nat): Status {
    if Looked(s.table, id)[id] == Empty then Pending else Completed
  }

  predicate Ran(s: State, id: nat) {
    s.pool.finished[id] > 0
  }

  datatype Outcome = Impossible | To(state: State)

  function Exec(s: State, acts: seq<Action>): Outcome
    decreases |acts|
  {
    if acts == [] then To(s)
    else if Enabled(s, acts[0]) then Exec(Apply(s, acts[0]), acts[1..])
    else Impossible
  }

  // ---------- What holds in every reachable state ----------

  /** A push of `x` that has not enqueued yet. */
  function OnItsWay(s: State, x: nat): nat {
    if Pushing(s, x) && s.pool.lock.stage == P.Locked then 1 else 0
  }

  /** The task of a CONNECT is pushed once; `x` is pending, completed or lost as its task and
      its entry say. */
  ghost predicate IdInv(s: State, x: nat) {
    && P.Count(s.pool.pushed, x) + OnItsWay(s, x) == (if x in s.handling + s.issued then 1 else 0)
    && (x in s.handling ==> x !in s.issued && x !in s.late)
    && (Pushing(s, x) ==> x in s.handling)
    && (x in s.late ==> x in s.issued && Ran(s, x))
    && (Answer(s, x) == Completed ==> Ran(s, x))
    && (x in s.issued ==> (Answer(s, x) == Completed <==> Ran(s, x) && x !in s.late))
  }

  ghost predicate Inv(s: State) {
    P.Inv(s.pool) && forall x :: IdInv(s, x)
  }

  /** Nothing runs that was not pushed. */
  lemma RanWasPushed(s: State, x: nat)
    requires P.Inv(s.pool)
    ensures s.pool.finished[x] + P.Running(s.pool.workers, x) <= P.Count(s.pool.pushed, x)
  {
    assert P.RunInv(s.pool, x);
    P.CountCat(s.pool.popped, s.pool.queue, x);
    assert s.pool.pushed == s.pool.popped + s.pool.queue;
  }

  /** The end of the task `x`. */
  lemma EndIds(s: State, step: P.Action, x: nat)
    requires P.Inv(s.pool) && IdInv(s, x) && Enabled(s, Pool(step)) && x in Ends(s, step)
    ensures IdInv(Apply(s, Pool(step)), x)
  {
    RanWasPushed(s, x);
    P.RunningOne(s.pool.workers, step.w, x);
  }

  lemma PushIds(s: State, step: P.Action, x: nat)
    requires IdInv(s, x) && Enabled(s, Pool(step)) && (step.Enqueue? || step.Notify? || step.NotifyNone? || step.Unlock?)
    ensures IdInv(Apply(s, Pool(step)), x)
  {
    if step.Enqueue? {
      P.CountCat(s.pool.pushed, [s.pool.lock.task], x);
    }
  }

  /** The other steps have nothing to do with the push or the run of `x`. */
  lemma OtherIds(s: State, step: P.Action, x: nat)
    requires IdInv(s, x) && Enabled(s, Pool(step)) && x !in Ends(s, step)
    requires !step.Enqueue? && !step.Notify? && !step.NotifyNone? && !step.Unlock? && P.LockInv(s.pool)
    ensures IdInv(Apply(s, Pool(step)), x)
  {
    var t := Apply(s, Pool(step));
    assert t.pool.pushed == s.pool.pushed && t.pool.finished[x] == s.pool.finished[x];
    assert Pushing(t, x) == Pushing(s, x) && OnItsWay(t, x) == OnItsWay(s, x);
    assert Answer(t, x) == Answer(s, x);
  }

  lemma PoolIds(s: State, step: P.Action, x: nat)
    requires P.Inv(s.pool) && IdInv(s, x) && Enabled(s, Pool(step))
    ensures IdInv(Apply(s, Pool(step)), x)
  {
    if step.Enqueue? || step.Notify? || step.NotifyNone? || step.Unlock? {
      PushIds(s, step, x);
    } else if x in Ends(s, step) {
      EndIds(s, step, x);
    } else {
      OtherIds(s, step, x);
    }
  }

  lemma Step(s: State, a: Action)
    requires Inv(s) && Enabled(s, a)
    ensures Inv(Apply(s, a))
  {
    if a.Connect? {
      P.Step(s.pool, P.ClientLock(a.id));
    } else if a.Pool? {
      P.Step(s.pool, a.step);
    }
    forall x ensures IdInv(Apply(s, a), x) {
      assert IdInv(s, x);
      if a.Pool? {
        PoolIds(s, a.step, x);
      } else {
        RanWasPushed(s, x);
      }
    }
  }

  lemma {:induction false} Steps(s: State, acts: seq<Action>, t: State)
    requires Inv(s) && Exec(s, acts) == To(t)
    ensures Inv(t)
    decreases |acts|
  {
    if acts == [] {
    } else {
      Step(s, acts[0]);
      Steps(Apply(s, acts[0]), acts[1..], t);
    }
  }

  lemma Reached(n: nat, eager: bool, acts: seq<Action>, t: State)
    requires Exec(Init(n, eager), acts) == To(t)
    ensures Inv(t)
  {
    Steps(Init(n, eager), acts, t);
  }

  // ---------- What the answers mean ----------

  /** "completed" is answered only after the task has run, and for an issued id exactly when it
      has run and the initial write came before that. */
  lemma CompletedIff(n: nat, eager: bool, acts: seq<Action>, t: State, id: nat)
    requires Exec(Init(n, eager), acts) == To(t)
    ensures Answer(t, id) == Completed ==> Ran(t, id)
    ensures id in t.issued ==> (Answer(t, id) == Completed <==> Ran(t, id) && id !in t.late)
    ensures t.pool.finished[id] <= 1
  {
    Reached(n, eager, acts, t);
    assert IdInv(t, id);
    RanWasPushed(t, id);
  }

  lemma RanStays(s: P.State, a: P.Action, id: nat)
    requires P.Enabled(s, a)
    ensures s.finished[id] <= P.Apply(s, a).finished[id]
  {
  }

  lemma StaysStep(s: State, a: Action, id: nat)
    requires IdInv(s, id) && Enabled(s, a) && id in s.issued
    ensures id in Apply(s, a).issued && (id in s.late <==> id in Apply(s, a).late)
    ensures Ran(s, id) ==> Ran(Apply(s, a), id)
  {
    if a.Pool? {
      RanStays(s.pool, a.step, id);
    }
  }

  /** The status of an issued id goes from pending to completed at most once and never back; a
      lost completion stays lost. */
  lemma {:induction false} NeverBack(s: State, acts: seq<Action>, t: State, id: nat)
    requires Inv(s) && id in s.issued && Exec(s, acts) == To(t)
    ensures Inv(t) && id in t.issued
    ensures Answer(s, id) == Completed ==> Answer(t, id) == Completed
    ensures id in s.late ==> Answer(t, id) == Pending
    ensures (id in s.late <==> id in t.late) && (Ran(s, id) ==> Ran(t, id))
    decreases |acts|
  {
    if acts == [] {
    } else {
      assert IdInv(s, id);
      StaysStep(s, acts[0], id);
      Step(s, acts[0]);
      NeverBack(Apply(s, acts[0]), acts[1..], t, id);
    }
    assert IdInv(s, id) && IdInv(t, id);
  }

  lemma DrainedAnswer(t: State, id: nat)
    requires Inv(t) && Q.Drained(t.pool) && id in t.issued
    ensures Answer(t, id) == Completed <==> id !in t.late
  {
    assert IdInv(t, id) && P.RunInv(t.pool, id);
    assert t.pool.pushed == t.pool.popped + t.pool.queue == t.pool.popped;
  }

  /** Once the pool is drained, an issued id is completed unless its completion was lost. */
  lemma DrainedCompletes(n: nat, eager: bool, acts: seq<Action>, t: State, id: nat)
    requires Exec(Init(n, eager), acts) == To(t) && Q.Drained(t.pool) && id in t.issued
    ensures Answer(t, id) == Completed <==> id !in t.late
  {
    Reached(n, eager, acts, t);
    DrainedAnswer(t, id);
  }

  /** The steps of the pool alone. */
  ghost predicate Quiet(a: Action) {
    a.Pool? && Q.Quiet(a.step)
  }

  lemma QuietStep(s: State, a: Action)
    requires Inv(s) && s.pool.main == P.Live && Enabled(s, a) && Quiet(a)
    ensures var t := Apply(s, a);
      && Inv(t) && t.pool.main == P.Live && t.pool.n == s.pool.n
      && t.handling == s.handling && t.issued == s.issued && t.late == s.late
      && W.Work(t.pool) < W.Work(s.pool)
  {
    Step(s, a);
    Q.QuietStep(s.pool, a.step);
  }

  /** Wherever the pool is live and has a worker, its own steps, however they are interleaved,
      come to an end within the work there is. Then every issued id is completed, unless its
      completion was lost. */
  lemma {:induction false} QuietRuns(s: State, acts: seq<Action>, t: State)
    requires Inv(s) && s.pool.main == P.Live && s.pool.n >= 1
    requires Exec(s, acts) == To(t) && forall a :: a in acts ==> Quiet(a)
    ensures Inv(t) && t.pool.main == P.Live && |acts| + W.Work(t.pool) <= W.Work(s.pool)
    ensures (exists a :: Quiet(a) && Enabled(t, a)) || forall id :: id in s.issued ==> (Answer(t, id) == Completed <==> id !in s.late)
    decreases |acts|
  {
    if acts == [] {
      QuietEnd(t);
    } else {
      assert acts[0] in acts;
      QuietStep(s, acts[0]);
      QuietRuns(Apply(s, acts[0]), acts[1..], t);
    }
  }

  lemma QuietEnd(t: State)
    requires Inv(t) && t.pool.main == P.Live && t.pool.n >= 1
    ensures (exists a :: Quiet(a) && Enabled(t, a)) || forall id :: id in t.issued ==> (Answer(t, id) == Completed <==> id !in t.late)
  {
    if Q.Drained(t.pool) {
      forall id | id in t.issued ensures Answer(t, id) == Completed <==> id !in t.late {
        DrainedAnswer(t, id);
      }
    } else {
      var step := Q.QuietEnabled(t.pool);
      assert Quiet(Pool(step)) && Enabled(t, Pool(step));
    }
  }

  /** And such a run there is. */
  lemma {:induction false} QuietRun(s: State) returns (acts: seq<Action>, t: State)
    requires Inv(s) && s.pool.main == P.Live && s.pool.n >= 1
    ensures Exec(s, acts) == To(t) && Q.Drained(t.pool) && |acts| <= W.Work(s.pool)
    ensures forall a :: a in acts ==> Quiet(a)
    ensures t.handling == s.handling && t.issued == s.issued && t.late == s.late
    ensures forall id :: id in t.issued ==> (Answer(t, id) == Completed <==> id !in t.late)
    decreases W.Work(s.pool)
  {
    if Q.Drained(s.pool) {
      acts, t := [], s;
      forall id | id in t.issued ensures Answer(t, id) == Completed <==> id !in t.late {
        DrainedAnswer(t, id);
      }
    } else {
      var step := Q.QuietEnabled(s.pool);
      var a := Pool(step);
      QuietStep(s, a);
      var rest;
      rest, t := QuietRun(Apply(s, a));
      acts := [a] + rest;
      assert acts[1..] == rest;
    }
  }

  // ---------- When completions are lost ----------

  /** Each CONNECT of the run writes its initial entry before a worker has run its task. */
  ghost predicate Prompt(s: State, acts: seq<Action>)
    decreases |acts|
  {
    acts != [] && Enabled(s, acts[0]) ==>
      && (acts[0].Initialise? ==> !Ran(s, acts[0].id))
      && Prompt(Apply(s, acts[0]), acts[1..])
  }

  lemma {:induction false} LateIff(s: State, acts: seq<Action>, t: State)
    requires Exec(s, acts) == To(t)
    ensures s.late <= t.late && (t.late == s.late ==> Inv(s) ==> Prompt(s, acts)) && (Prompt(s, acts) ==> t.late == s.late)
    decreases |acts|
  {
    if acts == [] {
    } else {
      var u := Apply(s, acts[0]);
      LateIff(u, acts[1..], t);
      if Inv(s) {
        Step(s, acts[0]);
        if acts[0].Initialise? {
          assert IdInv(s, acts[0].id);
        }
      }
    }
  }

  /** All issued ids are completed in every drained end of a run, exactly if the initial writes
      were prompt. */
  lemma PromptIff(n: nat, eager: bool, acts: seq<Action>, t: State)
    requires Exec(Init(n, eager), acts) == To(t) && Q.Drained(t.pool)
    ensures (forall id :: id in t.issued ==> Answer(t, id) == Completed) <==> Prompt(Init(n, eager), acts)
  {
    Reached(n, eager, acts, t);
    LateIff(Init(n, eager), acts, t);
    forall id | id in t.issued ensures Answer(t, id) == Completed <==> id !in t.late {
      DrainedCompletes(n, eager, acts, t, id);
    }
    forall id | id in t.late ensures id in t.issued {
      assert IdInv(t, id);
    }
    if t.late != {} {
      var id :| id in t.late;
    }
  }

  lemma First(s: State, acts: seq<Action>, u: State)
    requires acts != [] && Enabled(s, acts[0]) && u == Apply(s, acts[0])
    ensures Exec(s, acts) == Exec(u, acts[1..])
  {
  }

  lemma FirstOf(s: State, acts: seq<Action>, t: State) returns (u: State)
    requires acts != [] && Exec(s, acts) == To(t)
    ensures Enabled(s, acts[0]) && u == Apply(s, acts[0]) && Exec(u, acts[1..]) == To(t)
  {
    u := Apply(s, acts[0]);
  }

  lemma {:induction false} ExecCat(s: State, a: seq<Action>, b: seq<Action>, t: State)
    requires Exec(s, a) == To(t)
    ensures Exec(s, a + b) == Exec(t, b)
    decreases |a|
  {
    if a == [] {
      assert a + b == b;
    } else {
      var u := FirstOf(s, a, t);
      ExecCat(u, a[1..], b, t);
      assert (a + b)[0] == a[0] && (a + b)[1..] == a[1..] + b;
      First(s, a + b, u);
    }
  }

  lemma More(s0: State, acts: seq<Action>, s: State, a: Action) returns (acts': seq<Action>, s': State)
    requires Exec(s0, acts) == To(s) && Enabled(s, a)
    ensures acts' == acts + [a] && s' == Apply(s, a) && Exec(s0, acts') == To(s')
  {
    acts', s' := acts + [a], Apply(s, a);
    ExecCat(s0, acts, [a], s);
  }

  /** `n` workers are waiting for the mutex, all idle. */
  function Idle(n: nat): seq<P.Worker> {
    seq(n, _ => P.Locking)
  }

  lemma {:induction false} Spawned(n: nat, eager: bool, k: nat) returns (acts: seq<Action>, t: State)
    requires k <= n
    ensures Exec(Init(n, eager), acts) == To(t)
    ensures t == Init(n, eager).(pool := P.Init(n, eager).(workers := Idle(k)))
  {
    if k == 0 {
      acts, t := [], Init(n, eager);
      assert Idle(0) == [];
    } else {
      acts, t := Spawned(n, eager, k - 1);
      assert Idle(k - 1) + [P.Locking] == Idle(k);
      acts, t := More(Init(n, eager), acts, t, Pool(P.Spawn));
      assert t.table == map[];
    }
  }

  /** The pool is live, and the task `id` is being pushed. */
  lemma TaskPushed(n: nat, eager: bool, id: nat) returns (acts: seq<Action>, t: State)
    ensures Exec(Init(n, eager), acts) == To(t)
    ensures t.pool == P.State(n, eager, Idle(n), [], P.ByPush(P.Execute(id), P.Locked, false), P.Live, [], [], multiset{}, 0)
    ensures id in t.handling && t.late == {}
  {
    acts, t := Spawned(n, eager, n);
    acts, t := More(Init(n, eager), acts, t, Pool(P.Built));
    acts, t := More(Init(n, eager), acts, t, Connect(id));
  }

  lemma TaskEnqueued(n: nat, eager: bool, id: nat) returns (acts: seq<Action>, t: State)
    ensures Exec(Init(n, eager), acts) == To(t)
    ensures t.pool == P.State(n, eager, Idle(n), [P.Execute(id)], P.ByPush(P.Execute(id), P.Enqueued, false), P.Live,
                              [P.Execute(id)], [], multiset{}, 0)
    ensures id in t.handling && t.late == {}
  {
    acts, t := TaskPushed(n, eager, id);
    acts, t := More(Init(n, eager), acts, t, Pool(P.Enqueue));
  }

  lemma TaskQueued(n: nat, eager: bool, id: nat) returns (acts: seq<Action>, t: State)
    ensures Exec(Init(n, eager), acts) == To(t)
    ensures t.pool == P.State(n, eager, Idle(n), [P.Execute(id)], P.Free, P.Live, [P.Execute(id)], [], multiset{}, 0)
    ensures id in t.handling && t.late == {}
  {
    acts, t := TaskEnqueued(n, eager, id);
    acts, t := More(Init(n, eager), acts, t, Pool(P.NotifyNone));
    acts, t := More(Init(n, eager), acts, t, Pool(P.Unlock));
  }

  lemma TaskSeen(n: nat, eager: bool, id: nat) returns (acts: seq<Action>, t: State)
    requires n >= 1
    ensures Exec(Init(n, eager), acts) == To(t)
    ensures P.Is(t.pool, 0, P.Holding) && t.pool.queue == [P.Execute(id)] && !t.pool.lock.ByPush?
    ensures id in t.handling && t.late == {}
  {
    acts, t := TaskQueued(n, eager, id);
    acts, t := More(Init(n, eager), acts, t, Pool(P.WorkerLock(0)));
  }

  lemma TaskTaken(n: nat, eager: bool, id: nat) returns (acts: seq<Action>, t: State)
    requires n >= 1
    ensures Exec(Init(n, eager), acts) == To(t)
    ensures P.Is(t.pool, 0, P.Busy(P.Execute(id))) && !Pushing(t, id)
    ensures id in t.handling && t.late == {}
  {
    acts, t := TaskSeen(n, eager, id);
    acts, t := More(Init(n, eager), acts, t, Pool(P.Take(0)));
  }

  /** As written a completion can be lost: a worker runs the task between the push and the
      initial write, which then overwrites the response. */
  lemma LostReachable(n: nat, eager: bool, id: nat) returns (acts: seq<Action>, t: State)
    requires n >= 1
    ensures Exec(Init(n, eager), acts) == To(t) && Lost(t, id)
  {
    acts, t := TaskTaken(n, eager, id);
    acts, t := More(Init(n, eager), acts, t, Pool(P.Finish(0)));
    acts, t := More(Init(n, eager), acts, t, Initialise(id));
  }

  /** The client knows `id` and its task has run, but the answer is that it is pending. */
  ghost predicate Lost(s: State, id: nat) {
    id in s.issued && Ran(s, id) && Answer(s, id) == Pending
  }

  /** Without workers nothing ever runs. */
  lemma {:induction false} NothingRuns(s: State, acts: seq<Action>, t: State)
    requires s.pool.n == 0 && s.pool.workers == [] && s.pool.finished == multiset{} && Exec(s, acts) == To(t)
    ensures t.pool.finished == multiset{}
    decreases |acts|
  {
    if acts == [] {
    } else {
      NothingRuns(Apply(s, acts[0]), acts[1..], t);
    }
  }

  /** A run can lose a completion exactly if the pool has a worker. */
  lemma LostIff(n: nat, eager: bool)
    ensures (exists acts, t, id :: Exec(Init(n, eager), acts) == To(t) && Lost(t, id)) <==> n >= 1
  {
    if n >= 1 {
      var acts, t := LostReachable(n, eager, 0);
      assert Lost(t, 0);
    } else {
      forall acts, t, id | Exec(Init(n, eager), acts) == To(t) ensures !Lost(t, id) {
        NothingRuns(Init(n, eager), acts, t);
      }
    }
  }

  // ---------- Progress ----------

  /** The pool by itself can bring it about that every issued id is completed or lost. */
  ghost predicate CanAnswerAll(s: State) {
    exists acts, t ::
      && Exec(s, acts) == To(t) && (forall a :: a in acts ==> Quiet(a))
      && forall id :: id in s.issued ==> (Answer(t, id) == Completed <==> id !in s.late)
  }

  /** An id is issued whose task has not run, and there is no worker. */
  lemma Unserved(eager: bool) returns (acts: seq<Action>, t: State)
    ensures Exec(Init(0, eager), acts) == To(t) && t.pool.main == P.Live
    ensures 0 in t.issued && 0 !in t.late
    ensures t.pool.n == 0 && t.pool.workers == [] && t.pool.finished == multiset{}
  {
    acts, t := TaskQueued(0, eager, 0);
    acts, t := More(Init(0, eager), acts, t, Initialise(0));
  }

  /** In every run, at every moment of a live pool, that is so exactly if there is a worker. */
  lemma AnswersAllIff(n: nat, eager: bool)
    ensures (forall acts, s :: Exec(Init(n, eager), acts) == To(s) && s.pool.main == P.Live ==> CanAnswerAll(s)) <==> n >= 1
  {
    if n >= 1 {
      forall acts, s | Exec(Init(n, eager), acts) == To(s) && s.pool.main == P.Live ensures CanAnswerAll(s) {
        Reached(n, eager, acts, s);
        SameSize(Init(n, eager), acts, s);
        var more, t := QuietRun(s);
      }
    } else {
      var acts, s := Unserved(eager);
      Reached(n, eager, acts, s);
      forall more, t | Exec(s, more) == To(t) ensures Answer(t, 0) == Pending {
        NothingRuns(s, more, t);
        Steps(s, more, t);
        assert IdInv(t, 0);
      }
      assert !CanAnswerAll(s);
    }
  }

  lemma {:induction false} SameSize(s: State, acts: seq<Action>, t: State)
    requires Exec(s, acts) == To(t)
    ensures t.pool.n == s.pool.n
    decreases |acts|
  {
    if acts == [] {
    } else {
      SameSize(Apply(s, acts[0]), acts[1..], t);
    }
  }

  // ---------- The pool underneath ----------

  /** The pool's part in a run. */
  function PoolSteps(acts: seq<Action>): seq<P.Action> {
    if acts == [] then []
    else
      (match acts[0]
       case Connect(id) => [P.ClientLock(id)]
       case Pool(step) => [step]
       case _ => []) + PoolSteps(acts[1..])
  }

  /** Every run of the protocol is one of the pool. */
  lemma {:induction false} PoolSide(s: State, acts: seq<Action>, t: State)
    requires Exec(s, acts) == To(t)
    ensures P.Exec(s.pool, PoolSteps(acts)) == P.To(t.pool)
    decreases |acts|
  {
    if acts == [] {
    } else {
      var u, rest := Apply(s, acts[0]), PoolSteps(acts[1..]);
      PoolSide(u, acts[1..], t);
      if acts[0].Connect? {
        assert PoolSteps(acts)[1..] == rest;
      } else if acts[0].Pool? {
        assert PoolSteps(acts)[1..] == rest;
      } else {
        assert PoolSteps(acts) == rest;
      }
    }
  }

  /** Clients push tasks with ids that are new. */
  ghost predicate NewIds(steps: seq<P.Action>, used: set<nat>) {
    steps == [] ||
    if steps[0].ClientLock? then steps[0].id !in used && NewIds(steps[1..], used + {steps[0].id})
    else NewIds(steps[1..], used)
  }

  /** And every run of the pool whose tasks have new ids is the pool's part in a run of the protocol. */
  lemma {:induction false} ProtocolSide(s: State, steps: seq<P.Action>, u: P.State) returns (acts: seq<Action>, t: State)
    requires P.Exec(s.pool, steps) == P.To(u) && NewIds(steps, s.handling + s.issued)
    ensures Exec(s, acts) == To(t) && t.pool == u && PoolSteps(acts) == steps
    decreases |steps|
  {
    if steps == [] {
      acts, t := [], s;
    } else {
      var a := if steps[0].ClientLock? then Connect(steps[0].id) else Pool(steps[0]);
      var v, rest := Apply(s, a), [];
      assert steps[0].ClientLock? ==> v.handling + v.issued == s.handling + s.issued + {steps[0].id};
      rest, t := ProtocolSide(v, steps[1..], u);
      acts := [a] + rest;
      assert acts[1..] == rest;
    }
  }

  // ---------- Every id can complete ----------

  /** The steps that settle what has been asked for: the pool's own, and initial writes. */
  ghost predicate Settling(a: Action) {
    Quiet(a) || a.Initialise?
  }

  lemma Then(s: State, a: seq<Action>, t: State, b: seq<Action>, u: State)
    requires Exec(s, a) == To(t) && Exec(t, b) == To(u)
    ensures Exec(s, a + b) == To(u)
  {
    ExecCat(s, a, b, t);
  }

  /** What the pool does by itself the protocol does with it. */
  lemma {:induction false} PoolRun(s: State, steps: seq<P.Action>, u: P.State) returns (acts: seq<Action>, t: State)
    requires P.Exec(s.pool, steps) == P.To(u) && forall a :: a in steps ==> Q.Quiet(a)
    ensures Exec(s, acts) == To(t) && t.pool == u && (forall a :: a in acts ==> Quiet(a))
    ensures t.handling == s.handling && t.issued == s.issued && t.late == s.late
    decreases |steps|
  {
    if steps == [] {
      acts, t := [], s;
    } else {
      assert steps[0] in steps;
      var a := Pool(steps[0]);
      var rest;
      rest, t := PoolRun(Apply(s, a), steps[1..], u);
      acts := [a] + rest;
      assert acts[1..] == rest;
    }
  }

  /** The mutex becomes free before any task ends. */
  lemma FreeLock(s: State) returns (acts: seq<Action>, t: State)
    requires Inv(s)
    ensures Exec(s, acts) == To(t) && Inv(t) && (forall a :: a in acts ==> Quiet(a))
    ensures t.pool.lock == P.Free && t.pool.main == s.pool.main && t.pool.n == s.pool.n && t.pool.finished == s.pool.finished
    ensures t.handling == s.handling && t.issued == s.issued && t.late == s.late
  {
    var steps, u := C.FreeLock(s.pool);
    acts, t := PoolRun(s, steps, u);
    Steps(s, acts, t);
  }

  /** The ids of `s` whose initial write would come too late. */
  function TooLate(s: State): set<nat> {
    s.late + set id | id in s.handling && Ran(s, id)
  }

  /** All initial writes that are due, one after another. */
  lemma {:induction false} WriteAll(s: State) returns (acts: seq<Action>, t: State)
    requires !s.pool.lock.ByPush?
    ensures Exec(s, acts) == To(t) && (forall a :: a in acts ==> a.Initialise?)
    ensures t.pool == s.pool && t.handling == {} && t.issued == s.issued + s.handling && t.late == TooLate(s)
    decreases |s.handling|
  {
    if s.handling == {} {
      acts, t := [], s;
    } else {
      var id :| id in s.handling;
      var u, rest := Apply(s, Initialise(id)), [];
      assert TooLate(u) == TooLate(s);
      rest, t := WriteAll(u);
      acts := [Initialise(id)] + rest;
      assert acts[1..] == rest;
    }
  }

  /** From every reachable state of a live pool with a worker, everything asked for can be settled:
      then every id is known to its client, and completed unless its initial write came, or had
      to come, after its task. */
  lemma Settles(s: State) returns (acts: seq<Action>, t: State)
    requires Inv(s) && s.pool.main == P.Live && s.pool.n >= 1
    ensures Exec(s, acts) == To(t) && t.handling == {} && t.issued == s.issued + s.handling && t.late == TooLate(s)
    ensures forall id :: id in t.issued ==> (Answer(t, id) == Completed <==> id !in TooLate(s))
    ensures forall a :: a in acts ==> Settling(a)
  {
    var a, u := FreeLock(s);
    var b, v := WriteAll(u);
    Steps(u, b, v);
    var c;
    c, t := QuietRun(v);
    Then(s, a, u, b, v);
    Then(s, a + b, v, c, t);
    acts := a + b + c;
  }

  /** A CONNECT with a new id, as soon as the mutex is free. */
  lemma ConnectRun(s: State, id: nat) returns (acts: seq<Action>, t: State)
    requires Inv(s) && s.pool.main == P.Live && id !in s.handling + s.issued
    ensures Exec(s, acts) == To(t) && Inv(t) && t.pool.main == P.Live && t.pool.n == s.pool.n
    ensures t.handling == s.handling + {id} && t.issued == s.issued && t.late == s.late && !Ran(t, id)
    ensures t.pool.finished == s.pool.finished
  {
    var u;
    acts, u := FreeLock(s);
    assert IdInv(u, id);
    RanWasPushed(u, id);
    acts, t := More(s, acts, u, Connect(id));
    Step(u, Connect(id));
  }

  /** From every such state a CONNECT with any new id can be answered and completed. */
  lemma Serves(s: State, id: nat) returns (acts: seq<Action>, t: State)
    requires Inv(s) && s.pool.main == P.Live && s.pool.n >= 1 && id !in s.handling + s.issued
    ensures Exec(s, acts) == To(t) && id in t.issued && Answer(t, id) == Completed
    ensures t.handling == {} && t.late == TooLate(s)
  {
    var a, u := ConnectRun(s, id);
    assert IdInv(s, id);
    assert TooLate(u) == TooLate(s);
    var b;
    b, t := Settles(u);
    Then(s, a, u, b, t);
    acts := a + b;
  }

  /** CHECK_STATUS can be asked at any time, for any id, and changes no answer. */
  lemma CheckChangesNothing(s: State, id: nat)
    ensures Exec(s, [CheckStatus(id)]) == To(s.(table := Looked(s.table, id)))
    ensures forall x :: Answer(s.(table := Looked(s.table, id)), x) == Answer(s, x)
  {
  }

  /** A run with its initial write in time completes the id. */
  lemma CompletionReachable(n: nat, eager: bool, id: nat) returns (acts: seq<Action>, t: State)
    requires n >= 1
    ensures Exec(Init(n, eager), acts) == To(t) && Prompt(Init(n, eager), acts)
    ensures id in t.issued && Answer(t, id) == Completed
  {
    var s := Init(n, eager);
    var a, u := Spawned(n, eager, n);
    a, u := More(s, a, u, Pool(P.Built));
    Reached(n, eager, a, u);
    var b;
    b, t := Serves(u, id);
    Then(s, a, u, b, t);
    acts := a + b;
    assert TooLate(u) == {};
    Reached(n, eager, [], s);
    LateIff(s, acts, t);
  }

  /** Some run completes an id exactly if there is a worker. */
  lemma CompletesIff(n: nat, eager: bool, id: nat)
    ensures (exists acts, t :: Exec(Init(n, eager), acts) == To(t) && id in t.issued && Answer(t, id) == Completed) <==> n >= 1
  {
    if n >= 1 {
      var acts, t := CompletionReachable(n, eager, id);
    } else {
      forall acts, t | Exec(Init(n, eager), acts) == To(t) ensures Answer(t, id) == Pending {
        NothingRuns(Init(n, eager), acts, t);
        CompletedIff(n, eager, acts, t, id);
      }
    }
  }
}
