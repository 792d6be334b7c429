/**
 The time-based scheduler. A history of added tasks and scans determines which task runs at
 which scan; the scan loop, which erases from the list it walks, does just that.
 */
module Scheduler {

  /** A task: its name and due time; what it does is not modelled. */
  datatype Task = Task(name: string, time: int)

  datatype Event = Add(task: Task) | Scan(now: int)

  /** Task number `task` of the history ran at scan number `scan`. */
  datatype Run = Run(task: nat, scan: nat)

  predicate Due(h: seq<Event>, i: nat, now: int) {
    i < |h| && h[i].Add? && h[i].task.time <= now
  }

  /** The members of `p` with a property, in order. */
  function Where<T>(p: seq<T>, f: T -> bool): seq<T> {
    if p == [] then [] else Where(p[..|p| - 1], f) + if f(p[|p| - 1]) then [p[|p| - 1]] else []
  }

  lemma {:induction false} WhereIn<T>(p: seq<T>, f: T -> bool, x: T)
    ensures x in Where(p, f) <==> x in p && f(x)
  {
    if p == [] {
    } else {
      WhereIn(p[..|p| - 1], f, x);
      assert p == p[..|p| - 1] + [p[|p| - 1]];
    }
  }

  lemma WhereNext<T>(p: seq<T>, f: T -> bool, k: nat)
    requires k < |p|
    ensures Where(p[..k + 1], f) == Where(p[..k], f) + if f(p[k]) then [p[k]] else []
  {
    assert p[..k + 1][..k] == p[..k];
  }

  function IsDue(h: seq<Event>, now: int): nat -> bool {
    (i: nat) => Due(h, i, now)
  }

  function IsLater(h: seq<Event>, now: int): nat -> bool {
    (i: nat) => !Due(h, i, now)
  }

  /** The numbers of `p` whose task is due, and those whose task is not, each in order. */
  function DueOf(h: seq<Event>, p: seq<nat>, now: int): seq<nat> {
    Where(p, IsDue(h, now))
  }

  function LaterOf(h: seq<Event>, p: seq<nat>, now: int): seq<nat> {
    Where(p, IsLater(h, now))
  }

  /** The tasks waiting after a history, by the number of the event that added them. */
  function Pending(h: seq<Event>): seq<nat> {
    if h == [] then []
    else
      var h' := h[..|h| - 1];
      match h[|h| - 1]
      case Add(_) => Pending(h') + [|h| - 1]
      case Scan(now) => LaterOf(h', Pending(h'), now)
  }

  function Runs(p: seq<nat>, scan: nat): seq<Run> {
    seq(|p|, k requires 0 <= k < |p| => Run(p[k], scan))
  }

  /** The runs of a history, in the order in which they happened. */
  function Log(h: seq<Event>): seq<Run> {
    if h == [] then []
    else
      var h' := h[..|h| - 1];
      match h[|h| - 1]
      case Add(_) => Log(h')
      case Scan(now) => Log(h') + Runs(DueOf(h', Pending(h'), now), |h| - 1)
  }

  // ---------- What a history runs ----------

  /** No scan of `h` between event `i` and event `j` finds task `i` due. */
  ghost predicate WaitsUntil(h: seq<Event>, i: nat, j: nat)
    requires i < j <= |h|
  {
    h[i].Add? && forall k :: i < k < j && h[k].Scan? ==> h[i].task.time > h[k].now
  }

  /** Scan `j` is the first scan after event `i` that finds task `i` due. */
  ghost predicate FirstDue(h: seq<Event>, i: nat, j: nat) {
    i < j < |h| && h[j].Scan? && WaitsUntil(h, i, j) && h[i].task.time <= h[j].now
  }

  lemma PartsIn(h: seq<Event>, p: seq<nat>, now: int, i: nat)
    ensures i in DueOf(h, p, now) <==> i in p && Due(h, i, now)
    ensures i in LaterOf(h, p, now) <==> i in p && !Due(h, i, now)
  {
    WhereIn(p, IsDue(h, now), i);
    WhereIn(p, IsLater(h, now), i);
  }

  lemma WaitsMore(h: seq<Event>, i: nat)
    requires h != [] && i < |h| - 1
    ensures WaitsUntil(h, i, |h| - 1) <==> WaitsUntil(h[..|h| - 1], i, |h| - 1)
    ensures WaitsUntil(h, i, |h|) <==>
            WaitsUntil(h, i, |h| - 1) && (h[|h| - 1].Scan? ==> h[i].task.time > h[|h| - 1].now)
  {
  }

  lemma WaitsScan(h: seq<Event>, i: nat)
    requires h != [] && h[|h| - 1].Scan?
    requires i in Pending(h[..|h| - 1]) <==> i < |h| - 1 && WaitsUntil(h[..|h| - 1], i, |h| - 1)
    ensures i in Pending(h) <==> i < |h| && WaitsUntil(h, i, |h|)
  {
    var h', n := h[..|h| - 1], |h| - 1;
    PartsIn(h', Pending(h'), h[n].now, i);
    if i < n {
      WaitsMore(h, i);
      assert Due(h', i, h[n].now) <==> h[i].Add? && h[i].task.time <= h[n].now;
    }
  }

  /** A task waits exactly as long as no scan since its addition has found it due. */
  lemma {:induction false} PendingIff(h: seq<Event>, i: nat)
    ensures i in Pending(h) <==> i < |h| && WaitsUntil(h, i, |h|)
  {
    if h == [] {
    } else {
      PendingIff(h[..|h| - 1], i);
      if h[|h| - 1].Scan? {
        WaitsScan(h, i);
      } else if i < |h| - 1 {
        WaitsMore(h, i);
      }
    }
  }

  lemma RunsIn(p: seq<nat>, n: nat, i: nat, j: nat)
    ensures Run(i, j) in Runs(p, n) <==> j == n && i in p
  {
    if i in p && j == n {
      var k :| 0 <= k < |p| && p[k] == i;
      assert Runs(p, n)[k] == Run(i, j);
    }
  }

  lemma EarlierDue(h: seq<Event>, i: nat, j: nat)
    requires h != [] && j < |h| - 1
    ensures FirstDue(h, i, j) <==> FirstDue(h[..|h| - 1], i, j)
  {
  }

  /** A task runs at a scan exactly if that is the first scan, since it was added, at or after
      its due time: never early, and never later than it could. */
  lemma {:induction false} LogIff(h: seq<Event>, i: nat, j: nat)
    ensures Run(i, j) in Log(h) <==> FirstDue(h, i, j)
  {
    if h == [] {
    } else {
      var h', n := h[..|h| - 1], |h| - 1;
      LogIff(h', i, j);
      if j < n {
        EarlierDue(h, i, j);
      }
      if h[n].Scan? {
        LogScan(h, i, j);
      }
    }
  }

  lemma LogScan(h: seq<Event>, i: nat, j: nat)
    requires h != [] && h[|h| - 1].Scan?
    ensures var h', n := h[..|h| - 1], |h| - 1;
      Run(i, j) in Runs(DueOf(h', Pending(h'), h[n].now), n) <==> j == n && FirstDue(h, i, n)
  {
    var h', n := h[..|h| - 1], |h| - 1;
    RunsIn(DueOf(h', Pending(h'), h[n].now), n, i, j);
    PartsIn(h', Pending(h'), h[n].now, i);
    PendingIff(h', i);
    if i < n {
      WaitsMore(h, i);
    }
  }

  /** Of two scans only one can be the first to find a task due: no task runs twice. */
  lemma RunsOnce(h: seq<Event>, i: nat, j: nat, k: nat)
    requires Run(i, j) in Log(h) && Run(i, k) in Log(h)
    ensures j == k && i !in Pending(h)
  {
    LogIff(h, i, j);
    LogIff(h, i, k);
    PendingIff(h, i);
  }

  ghost predicate HasRun(h: seq<Event>, i: nat) {
    exists j :: Run(i, j) in Log(h)
  }

  /** One more event lets a waiting task wait, or runs it. */
  lemma WaitsOrRuns(h: seq<Event>, i: nat)
    requires h != [] && i in Pending(h[..|h| - 1])
    ensures i in Pending(h) || Run(i, |h| - 1) in Log(h)
  {
    var h', n := h[..|h| - 1], |h| - 1;
    if h[n].Scan? {
      PartsIn(h', Pending(h'), h[n].now, i);
      RunsIn(DueOf(h', Pending(h'), h[n].now), n, i, n);
    }
  }

  /** And it undoes no run. */
  lemma RunsStay(h: seq<Event>, r: Run)
    requires h != [] && r in Log(h[..|h| - 1])
    ensures r in Log(h)
  {
  }

  /** Every added task is waiting or has run. */
  lemma {:induction false} WaitsOrRan(h: seq<Event>, i: nat)
    requires i < |h| && h[i].Add?
    ensures i in Pending(h) || HasRun(h, i)
  {
    if i == |h| - 1 {
      PendingIff(h, i);
    } else {
      var h' := h[..|h| - 1];
      WaitsOrRan(h', i);
      if i in Pending(h') {
        WaitsOrRuns(h, i);
      } else {
        var j :| Run(i, j) in Log(h');
        RunsStay(h, Run(i, j));
      }
    }
  }

  // ---------- Order ----------

  ghost predicate Increasing(p: seq<nat>) {
    forall a, b :: 0 <= a < b < |p| ==> p[a] < p[b]
  }

  lemma {:induction false} WhereIncreasing(p: seq<nat>, f: nat -> bool)
    requires Increasing(p)
    ensures Increasing(Where(p, f))
  {
    if p == [] {
    } else {
      var q := p[..|p| - 1];
      WhereIncreasing(q, f);
      forall k | 0 <= k < |Where(q, f)| ensures Where(q, f)[k] < p[|p| - 1] {
        WhereIn(q, f, Where(q, f)[k]);
      }
    }
  }

  /** Waiting tasks stay in the order in which they were added. */
  lemma {:induction false} PendingOrder(h: seq<Event>)
    ensures Increasing(Pending(h))
  {
    if h == [] {
    } else {
      var h' := h[..|h| - 1];
      PendingOrder(h');
      if h[|h| - 1].Scan? {
        WhereIncreasing(Pending(h'), IsLater(h', h[|h| - 1].now));
      } else {
        forall k | 0 <= k < |Pending(h')| ensures Pending(h')[k] < |h| - 1 {
          PendingIff(h', Pending(h')[k]);
        }
      }
    }
  }

  /** Runs are ordered by scan, and within a scan by the order of addition. */
  ghost predicate InOrder(l: seq<Run>) {
    forall a, b :: 0 <= a < b < |l| ==> l[a].scan < l[b].scan || (l[a].scan == l[b].scan && l[a].task < l[b].task)
  }

  lemma InOrderCat(l: seq<Run>, p: seq<nat>, n: nat)
    requires InOrder(l) && (forall r :: r in l ==> r.scan < n) && Increasing(p)
    ensures InOrder(l + Runs(p, n)) && forall r :: r in l + Runs(p, n) ==> r.scan <= n
  {
    var m := l + Runs(p, n);
    assert forall k :: 0 <= k < |p| ==> m[|l| + k] == Run(p[k], n);
    assert forall k :: 0 <= k < |l| ==> m[k] == l[k] && l[k] in l;
  }

  lemma {:induction false} LogOrder(h: seq<Event>)
    ensures InOrder(Log(h)) && forall r :: r in Log(h) ==> r.scan < |h|
  {
    if h == [] {
    } else {
      var h', n := h[..|h| - 1], |h| - 1;
      LogOrder(h');
      if h[n].Scan? {
        PendingOrder(h');
        WhereIncreasing(Pending(h'), IsDue(h', h[n].now));
        InOrderCat(Log(h'), DueOf(h', Pending(h'), h[n].now), n);
      }
    }
  }

  // ---------- The scheduler object ----------

  function TaskAt(h: seq<Event>, i: nat): Task {
    if i < |h| && h[i].Add? then h[i].task else Task("", 0)
  }

  /** The tasks with the given numbers. */
  function Tasks(h: seq<Event>, p: seq<nat>): (ts: seq<Task>)
    ensures |ts| == |p| && forall k :: 0 <= k < |p| ==> ts[k] == TaskAt(h, p[k])
  {
    seq(|p|, k requires 0 <= k < |p| => TaskAt(h, p[k]))
  }

  /** The tasks the runs of a log were runs of. */
  function TasksRun(h: seq<Event>, l: seq<Run>): (ts: seq<Task>)
    ensures |ts| == |l| && forall k :: 0 <= k < |l| ==> ts[k] == TaskAt(h, l[k].task)
  {
    seq(|l|, k requires 0 <= k < |l| => TaskAt(h, l[k].task))
  }

  /** All tasks that were added. */
  function Added(h: seq<Event>): multiset<Task> {
    if h == [] then multiset{}
    else Added(h[..|h| - 1]) + if h[|h| - 1].Add? then multiset{h[|h| - 1].task} else multiset{}
  }

  lemma {:induction false} WhereParts<T>(p: seq<T>, f: T -> bool, g: T -> bool)
    requires forall x :: x in p ==> (f(x) <==> !g(x))
    ensures multiset(Where(p, f)) + multiset(Where(p, g)) == multiset(p)
  {
    if p == [] {
    } else {
      var q, x := p[..|p| - 1], p[|p| - 1];
      assert p == q + [x] && x in p;
      WhereParts(q, f, g);
    }
  }

  lemma ScanParts(ts: seq<Task>, now: int)
    ensures multiset(Where(ts, DueBy(now))) + multiset(Where(ts, LaterThan(now))) == multiset(ts)
  {
    WhereParts(ts, DueBy(now), LaterThan(now));
  }

  class SimpleScheduler {
    var tasks: seq<Task>
    ghost var history: seq<Event>
    ghost var executed: seq<Task>

    /** The list holds the waiting tasks of the history, in order, and those executed are the
        tasks of its runs. */
    ghost predicate Valid()
      reads this
    {
      tasks == Tasks(history, Pending(history)) && executed == TasksRun(history, Log(history))
    }

    /** Together they are all tasks that were added. */
    lemma AllAccountedFor()
      requires Valid()
      ensures multiset(executed) + multiset(tasks) == Added(history)
    {
      Conserved(history);
    }

    constructor ()
      ensures Valid() && history == [] && tasks == [] && executed == []
    {
      tasks, history, executed := [], [], [];
    }

    /** addTask */
    method AddTask(name: string, time: int)
      requires Valid()
      modifies this`tasks, this`history
      ensures Valid() && history == old(history) + [Add(Task(name, time))]
      ensures tasks == old(tasks) + [Task(name, time)]
    {
      AddedOne(history, Task(name, time));
      tasks := tasks + [Task(name, time)];
      history := history + [Add(Task(name, time))];
    }

    /** One pass of the loop in start, at the clock reading `now`; `ran` are the tasks it runs. */
    method ScanOnce(now: int) returns (ran: seq<Task>)
      requires Valid()
      modifies this`tasks, this`history, this`executed
      ensures Valid() && history == old(history) + [Scan(now)] && executed == old(executed) + ran
      ensures ran == Tasks(old(history), DueOf(old(history), Pending(old(history)), now))
      ensures multiset(ran) + multiset(tasks) == multiset(old(tasks))
      ensures forall k :: 0 <= k < |ran| ==> Add(ran[k]) in old(history) && ran[k].time <= now
      ensures forall k :: 0 <= k < |tasks| ==> Add(tasks[k]) in old(history) && tasks[k].time > now
    {
      ghost var h, p := history, Pending(history);
      ran := Sweep(now);
      ScanParts(old(tasks), now);
      Split(h, p, now);
      ScannedAll(h, now);
      ScannedTasks(h, now);
      history := history + [Scan(now)];
      executed := executed + ran;
    }

    /** One turn of the loop over the list `all`, of which `k` tasks have been looked at: the
        task at `it` is run and erased, or passed. */
    method Visit(it: nat, now: int, ran: seq<Task>, ghost all: seq<Task>, ghost k: nat)
      returns (it': nat, ran': seq<Task>)
      requires k < |all| && Swept(all, k, now, it, tasks, ran)
      modifies this`tasks
      ensures Swept(all, k + 1, now, it', tasks, ran')
    {
      SweepStep(all, now, k);
      it', ran' := it, ran;
      if tasks[it].time <= now {
        ran' := ran + [tasks[it]];
        tasks := tasks[..it] + tasks[it + 1..];
      } else {
        it' := it + 1;
      }
    }

    /** The loop over the list, which erases what it runs. */
    method Sweep(now: int) returns (ran: seq<Task>)
      modifies this`tasks
      ensures tasks == Where(old(tasks), LaterThan(now)) && ran == Where(old(tasks), DueBy(now))
    {
      ghost var k: nat, all := 0, tasks;
      var it: nat := 0;
      ran := [];
      SweepStart(all, now);
      while it < |tasks|
        invariant k <= |all| && Swept(all, k, now, it, tasks, ran)
        decreases |all| - k
      {
        SweepTurns(all, k, now, it, tasks, ran);
        it, ran := Visit(it, now, ran, all, k);
        k := k + 1;
      }
      SweepTurns(all, k, now, it, tasks, ran);
    }
  }

  /** Waiting tasks are tasks, and what they are does not depend on later events. */
  lemma SameTasks(h: seq<Event>, h': seq<Event>, p: seq<nat>)
    requires h <= h' && forall i :: i in p ==> i in Pending(h)
    ensures Tasks(h', p) == Tasks(h, p)
  {
    forall k | 0 <= k < |p| ensures TaskAt(h', p[k]) == TaskAt(h, p[k]) {
      PendingIff(h, p[k]);
    }
  }

  /** What ran stays what it was. */
  lemma SameRuns(h: seq<Event>, h': seq<Event>)
    requires h <= h'
    ensures TasksRun(h', Log(h)) == TasksRun(h, Log(h))
  {
    forall k | 0 <= k < |Log(h)| ensures TaskAt(h', Log(h)[k].task) == TaskAt(h, Log(h)[k].task) {
      LogIff(h, Log(h)[k].task, Log(h)[k].scan);
      assert Log(h)[k] == Run(Log(h)[k].task, Log(h)[k].scan);
    }
  }

  /** The runs of one more scan are those of the tasks it found due. */
  lemma ScannedRuns(h: seq<Event>, now: int)
    ensures var due, h' := DueOf(h, Pending(h), now), h + [Scan(now)];
      TasksRun(h', Log(h')) == TasksRun(h', Log(h)) + Tasks(h, due)
  {
    var due, h' := DueOf(h, Pending(h), now), h + [Scan(now)];
    assert h'[..|h'| - 1] == h;
    assert Log(h') == Log(h) + Runs(due, |h|);
    forall k | 0 <= k < |due| ensures TaskAt(h', due[k]) == TaskAt(h, due[k]) {
      PartsIn(h, Pending(h), now, due[k]);
    }
  }

  lemma AddedOne(h: seq<Event>, task: Task)
    ensures var h' := h + [Add(task)];
      && Tasks(h', Pending(h')) == Tasks(h, Pending(h)) + [task]
      && TasksRun(h', Log(h')) == TasksRun(h, Log(h))
  {
    var h' := h + [Add(task)];
    assert h'[..|h'| - 1] == h;
    SameTasks(h, h', Pending(h));
    SameRuns(h, h');
  }

  lemma ScannedAll(h: seq<Event>, now: int)
    ensures var h' := h + [Scan(now)];
      && Tasks(h', Pending(h')) == Tasks(h, LaterOf(h, Pending(h), now))
      && TasksRun(h', Log(h')) == TasksRun(h, Log(h)) + Tasks(h, DueOf(h, Pending(h), now))
  {
    var h' := h + [Scan(now)];
    assert h'[..|h'| - 1] == h;
    forall i | i in LaterOf(h, Pending(h), now) ensures i in Pending(h) {
      PartsIn(h, Pending(h), now, i);
    }
    SameTasks(h, h', LaterOf(h, Pending(h), now));
    SameRuns(h, h');
    ScannedRuns(h, now);
  }

  /** A scan runs and keeps tasks that were added, on the right sides of the clock. */
  lemma ScannedTasks(h: seq<Event>, now: int)
    ensures var ran := Tasks(h, DueOf(h, Pending(h), now));
      forall k :: 0 <= k < |ran| ==> Add(ran[k]) in h && ran[k].time <= now
    ensures var kept := Tasks(h, LaterOf(h, Pending(h), now));
      forall k :: 0 <= k < |kept| ==> Add(kept[k]) in h && kept[k].time > now
  {
    var due, later := DueOf(h, Pending(h), now), LaterOf(h, Pending(h), now);
    forall k | 0 <= k < |due| ensures Add(TaskAt(h, due[k])) in h && TaskAt(h, due[k]).time <= now {
      PartsIn(h, Pending(h), now, due[k]);
      assert h[due[k]] == Add(TaskAt(h, due[k]));
    }
    forall k | 0 <= k < |later| ensures Add(TaskAt(h, later[k])) in h && TaskAt(h, later[k]).time > now {
      PartsIn(h, Pending(h), now, later[k]);
      PendingIff(h, later[k]);
      assert h[later[k]] == Add(TaskAt(h, later[k]));
    }
  }

  /** In every history, the tasks run and the tasks waiting are, each as often, those added. */
  lemma {:induction false} Conserved(h: seq<Event>)
    ensures multiset(TasksRun(h, Log(h))) + multiset(Tasks(h, Pending(h))) == Added(h)
  {
    if h == [] {
    } else {
      var h', last := h[..|h| - 1], h[|h| - 1];
      Conserved(h');
      assert h == h' + [last];
      match last
      case Add(task) =>
        AddedOne(h', task);
      case Scan(now) =>
        ScannedAll(h', now);
        Split(h', Pending(h'), now);
        ScanParts(Tasks(h', Pending(h')), now);
    }
  }

  function DueBy(now: int): Task -> bool {
    (t: Task) => t.time <= now
  }

  function LaterThan(now: int): Task -> bool {
    (t: Task) => t.time > now
  }

  /** The loop has looked at the first `n` tasks of `all`: the list has lost those that were
      due, which have run, and `it` is at the first task not looked at. */
  ghost predicate Swept(all: seq<Task>, n: nat, now: int, it: nat, tasks: seq<Task>, ran: seq<Task>)
    requires n <= |all|
  {
    && it == |Where(all[..n], LaterThan(now))| && tasks == Where(all[..n], LaterThan(now)) + all[n..]
    && ran == Where(all[..n], DueBy(now))
  }

  lemma SweepStart(all: seq<Task>, now: int)
    ensures Swept(all, 0, now, 0, all, [])
  {
  }

  /** The loop goes on exactly while it has not looked at all tasks. */
  lemma SweepTurns(all: seq<Task>, n: nat, now: int, it: nat, tasks: seq<Task>, ran: seq<Task>)
    requires n <= |all| && Swept(all, n, now, it, tasks, ran)
    ensures it < |tasks| <==> n < |all|
    ensures n == |all| ==> tasks == Where(all, LaterThan(now)) && ran == Where(all, DueBy(now))
  {
    if n == |all| {
      assert all[..n] == all && all[n..] == [];
    }
  }

  lemma SweepStep(all: seq<Task>, now: int, k: nat)
    requires k < |all|
    ensures var kept := Where(all[..k], LaterThan(now)); var l, it := kept + all[k..], |kept|;
      && l[it] == all[k]
      && (if all[k].time <= now then l[..it] + l[it + 1..] else l) == Where(all[..k + 1], LaterThan(now)) + all[k + 1..]
    ensures Where(all[..k + 1], LaterThan(now)) ==
            Where(all[..k], LaterThan(now)) + if all[k].time <= now then [] else [all[k]]
    ensures Where(all[..k + 1], DueBy(now)) == Where(all[..k], DueBy(now)) + if all[k].time <= now then [all[k]] else []
  {
    var kept := Where(all[..k], LaterThan(now));
    WhereNext(all, LaterThan(now), k);
    WhereNext(all, DueBy(now), k);
    Erase(kept, all[k], all[k + 1..]);
    assert all[k..] == [all[k]] + all[k + 1..];
  }

  lemma Erase(a: seq<Task>, x: Task, b: seq<Task>)
    ensures (a + ([x] + b))[|a|] == x && (a + ([x] + b))[..|a|] + (a + ([x] + b))[|a| + 1..] == a + b
    ensures a + ([x] + b) == (a + [x]) + b
  {
  }

  /** Taking out tasks and taking out their numbers come to the same. */
  lemma {:induction false} SplitNumbers(h: seq<Event>, p: seq<nat>, f: nat -> bool, g: Task -> bool)
    requires forall i: nat :: i in p ==> (f(i) <==> g(TaskAt(h, i)))
    ensures Where(Tasks(h, p), g) == Tasks(h, Where(p, f))
  {
    if p == [] {
    } else {
      var q, x := p[..|p| - 1], p[|p| - 1];
      SplitNumbers(h, q, f, g);
      assert Tasks(h, p)[..|p| - 1] == Tasks(h, q);
      assert x in p;
      assert Tasks(h, Where(q, f) + [x]) == Tasks(h, Where(q, f)) + [TaskAt(h, x)];
    }
  }

  lemma Split(h: seq<Event>, p: seq<nat>, now: int)
    requires p == Pending(h)
    ensures Where(Tasks(h, p), LaterThan(now)) == Tasks(h, LaterOf(h, p, now))
    ensures Where(Tasks(h, p), DueBy(now)) == Tasks(h, DueOf(h, p, now))
    ensures forall i :: i in LaterOf(h, p, now) ==> i in p
  {
    forall i: nat | i in p ensures i < |h| && h[i].Add? {
      PendingIff(h, i);
    }
    SplitNumbers(h, p, IsLater(h, now), LaterThan(now));
    SplitNumbers(h, p, IsDue(h, now), DueBy(now));
    forall i | i in LaterOf(h, p, now) ensures i in p {
      PartsIn(h, p, now, i);
    }
  }
}
