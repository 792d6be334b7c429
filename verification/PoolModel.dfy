/**
 Connections, leases and handles as values: every call on the pool or on a handle is one step
 on this state. Each public call holds the pool's mutex, so any interleaving of threads is
 some order of these steps.
 */
module PoolModel {

  datatype Conn = Conn(id: nat)

  /** Where a handle points: nowhere once moved from, otherwise at a connection. */
  datatype Lease = Null | At(conn: Conn)

  datatype State<!H> = State(idle: set<Conn>, busy: set<Conn>, handles: map<H, Lease>)

  datatype Op<!H> =
    | Get(h: H, got: Lease)          // get_connection: the new handle and what it found
    | Release(h: H)                  // release_connection with the handle
    | Destroy(h: H)                  // the handle's destructor
    | MoveTo(h: H, into: H)         // move construction
    | Assign(dst: H, src: H)         // move assignment

  predicate Enabled<H>(s: State<H>, op: Op<H>) {
    match op
    case Get(h, got) => h !in s.handles && (got.At? ==> got.conn in s.idle)
    case Release(h) => h in s.handles
    case Destroy(h) => h in s.handles
    case MoveTo(h, f) => h in s.handles && f !in s.handles
    case Assign(d, r) => d in s.handles && r in s.handles
  }

  /** release_connection: a busy connection becomes idle, anything else is ignored. */
  function Freed<H>(s: State<H>, l: Lease): State<H> {
    if l.At? && l.conn in s.busy then s.(busy := s.busy - {l.conn}, idle := s.idle + {l.conn}) else s
  }

  function Apply<H>(s: State<H>, op: Op<H>): State<H>
    requires Enabled(s, op)
  {
    match op
    case Get(h, got) =>
      var t := s.(handles := s.handles[h := got]);
      if got.At? then t.(idle := t.idle - {got.conn}, busy := t.busy + {got.conn}) else t
    case Release(h) => Freed(s, s.handles[h])
    case Destroy(h) => Freed(s, s.handles[h]).(handles := s.handles - {h})
    case MoveTo(h, f) => s.(handles := s.handles[f := s.handles[h]][h := Null])
    case Assign(d, r) => if d == r then s else s.(handles := s.handles[d := s.handles[r]][r := Null])
  }

  datatype Outcome<!H> = Impossible | To(state: State<H>)

  function Exec<H>(s: State<H>, ops: seq<Op<H>>): Outcome<H>
    decreases |ops|
  {
    if ops == [] then To(s)
    else if Enabled(s, ops[0]) then Exec(Apply(s, ops[0]), ops[1..])
    else Impossible
  }

  // ---------- Conservation ----------

  lemma KeptStep<H>(s: State<H>, op: Op<H>)
    requires s.idle !! s.busy && Enabled(s, op)
    ensures Apply(s, op).idle !! Apply(s, op).busy
    ensures Apply(s, op).idle + Apply(s, op).busy == s.idle + s.busy
  {
  }

  /** In every run idle and busy stay disjoint, and no connection appears or gets lost. */
  lemma {:induction false} Kept<H>(s: State<H>, ops: seq<Op<H>>, t: State<H>)
    requires s.idle !! s.busy && Exec(s, ops) == To(t)
    ensures t.idle !! t.busy && t.idle + t.busy == s.idle + s.busy
    decreases |ops|
  {
    if ops == [] {
    } else {
      KeptStep(s, ops[0]);
      Kept(Apply(s, ops[0]), ops[1..], t);
    }
  }

  // ---------- Exclusive leases ----------

  ghost predicate Points<H>(s: State<H>, c: Conn) {
    exists h :: h in s.handles && s.handles[h] == At(c)
  }

  /** No two handles point at the same connection. */
  ghost predicate Unshared<H>(s: State<H>) {
    forall h, k :: h in s.handles && k in s.handles && h != k && s.handles[h].At? ==> s.handles[h] != s.handles[k]
  }

  /** The busy connections are exactly those the live handles point at, one handle each. */
  ghost predicate Exclusive<H>(s: State<H>) {
    Unshared(s) && forall c :: c in s.busy <==> Points(s, c)
  }

  /** A step that ends a lease only by destroying its handle: no explicit release through a
      handle that points somewhere, no move assignment over one. */
  predicate Disciplined<H(==)>(s: State<H>, op: Op<H>)
    requires Enabled(s, op)
  {
    match op
    case Release(h) => s.handles[h] == Null
    case Assign(d, r) => d == r || s.handles[d] == Null
    case _ => true
  }

  lemma DisciplinedKeeps<H>(s: State<H>, op: Op<H>)
    requires s.idle !! s.busy && Exclusive(s) && Enabled(s, op) && Disciplined(s, op)
    ensures Exclusive(Apply(s, op))
  {
    var t := Apply(s, op);
    forall c ensures c in t.busy <==> Points(t, c) {
      if Points(s, c) {
        var h :| h in s.handles && s.handles[h] == At(c);
        if h in t.handles && t.handles[h] == At(c) {
        } else if op.MoveTo? {
          assert t.handles[op.into] == At(c);
        } else if op.Assign? {
          assert t.handles[op.dst] == At(c);
        }
      }
      if op.Get? && op.got == At(c) {
        assert t.handles[op.h] == At(c);
      }
    }
  }

  /** One step keeps the leases exclusive exactly if it is disciplined. */
  lemma ExclusiveStep<H>(s: State<H>, op: Op<H>)
    requires s.idle !! s.busy && Exclusive(s) && Enabled(s, op)
    ensures Exclusive(Apply(s, op)) <==> Disciplined(s, op)
  {
    if Disciplined(s, op) {
      DisciplinedKeeps(s, op);
    } else {
      var t := Apply(s, op);
      if op.Release? {
        var c := s.handles[op.h].conn;
        assert Points(s, c) && Points(t, c) && c !in t.busy;
      } else {
        var c := s.handles[op.dst].conn;
        assert Points(s, c);
        assert c in t.busy && !Points(t, c);
      }
    }
  }

  /** All steps of a run are disciplined, and all its states exclusive. */
  ghost predicate AllDisciplined<H>(s: State<H>, ops: seq<Op<H>>)
    decreases |ops|
  {
    ops != [] && Enabled(s, ops[0]) ==> Disciplined(s, ops[0]) && AllDisciplined(Apply(s, ops[0]), ops[1..])
  }

  ghost predicate AllExclusive<H>(s: State<H>, ops: seq<Op<H>>)
    decreases |ops|
  {
    Exclusive(s) && (ops != [] && Enabled(s, ops[0]) ==> AllExclusive(Apply(s, ops[0]), ops[1..]))
  }

  /** From an exclusive state on, such as that of a fresh pool, the leases stay exclusive exactly
      as long as every step is disciplined. */
  lemma {:induction false} ExclusiveRun<H>(s: State<H>, ops: seq<Op<H>>, t: State<H>)
    requires s.idle !! s.busy && Exclusive(s) && Exec(s, ops) == To(t)
    ensures AllExclusive(s, ops) <==> AllDisciplined(s, ops)
    ensures AllDisciplined(s, ops) ==> Exclusive(t)
    decreases |ops|
  {
    if ops == [] {
    } else {
      var u := Apply(s, ops[0]);
      ExclusiveStep(s, ops[0]);
      KeptStep(s, ops[0]);
      if Exclusive(u) {
        ExclusiveRun(u, ops[1..], t);
      }
    }
  }

  function Start<H>(conns: set<Conn>): State<H> {
    State(conns, {}, map[])
  }

  /** A handle is valid when its connection is busy. */
  predicate Valid<H>(s: State<H>, h: H)
    requires h in s.handles
  {
    s.handles[h].At? && s.handles[h].conn in s.busy
  }

  /** After a disciplined run every live handle that points somewhere is valid and alone, and
      once all handles are gone every connection is idle again. */
  lemma LeasesEnd<H>(conns: set<Conn>, ops: seq<Op<H>>, t: State<H>)
    requires Exec(Start(conns), ops) == To(t) && AllDisciplined(Start(conns), ops)
    ensures forall h :: h in t.handles && t.handles[h].At? ==> Valid(t, h)
    ensures Unshared(t)
    ensures t.handles == map[] ==> t.idle == conns && t.busy == {}
  {
    var s: State<H> := Start(conns);
    assert forall c :: !Points(s, c);
    assert Exclusive(s);
    ExclusiveRun(s, ops, t);
    forall h | h in t.handles && t.handles[h].At? ensures Valid(t, h) {
      assert Points(t, t.handles[h].conn);
    }
    DisciplinedLosesNothing(s, ops);
    if t.handles == map[] {
      AllIdleIff(conns, ops, t);
    }
  }

  // ---------- Handing a lease over ----------

  /** After a move construction the end of the old handle changes nothing: the new handle has its
      lease, and its end gives the connection back as that of the old one would have. */
  lemma MoveHandsOver<H>(s: State<H>, h: H, f: H)
    requires Enabled(s, MoveTo(h, f))
    ensures var t := s.(handles := (s.handles - {h})[f := s.handles[h]]);
      && Exec(s, [MoveTo(h, f), Destroy(h)]) == To(t)
      && (Valid(t, f) <==> Valid(s, h))
      && Freed(t, t.handles[f]).idle == Freed(s, s.handles[h]).idle
  {
    var u := Apply(s, MoveTo(h, f));
    assert Exec(u, [Destroy(h)]) == To(Apply(u, Destroy(h)));
    assert Apply(u, Destroy(h)).handles == (s.handles - {h})[f := s.handles[h]];
  }

  /** And after a move assignment, but for the lease the target had. */
  lemma AssignHandsOver<H>(s: State<H>, d: H, r: H)
    requires Enabled(s, Assign(d, r)) && d != r
    ensures var t := s.(handles := (s.handles - {r})[d := s.handles[r]]);
      && Exec(s, [Assign(d, r), Destroy(r)]) == To(t)
      && (Valid(t, d) <==> Valid(s, r))
  {
    var u := Apply(s, Assign(d, r));
    assert Exec(u, [Destroy(r)]) == To(Apply(u, Destroy(r)));
    assert Apply(u, Destroy(r)).handles == (s.handles - {r})[d := s.handles[r]];
  }

  /** Assigning a handle to itself changes nothing. */
  lemma AssignToItself<H>(s: State<H>, d: H)
    requires d in s.handles
    ensures Exec(s, [Assign(d, d)]) == To(s)
  {
  }

  // ---------- Without the discipline ----------

  /** Two handles come to share a connection exactly when a call hands out one that some live
      handle still points at. */
  lemma SharingStep<H>(s: State<H>, op: Op<H>)
    requires Unshared(s) && Enabled(s, op)
    ensures Unshared(Apply(s, op)) <==> !(op.Get? && op.got.At? && Points(s, op.got.conn))
  {
    var t := Apply(s, op);
    if op.Get? && op.got.At? && Points(s, op.got.conn) {
      var k :| k in s.handles && s.handles[k] == op.got;
      assert t.handles[op.h] == t.handles[k] == op.got && op.h != k;
    }
  }

  /** An explicit release leaves the handle pointing at its connection: the connection can be
      leased again while the first handle lives, both handles are then valid, and destroying
      the first one ends the lease of the second. */
  lemma DoubleLease(c: Conn)
    ensures var ops := [Get(1, At(c)), Release(1), Get(2, At(c))];
      var t := State({}, {c}, map[1 := At(c), 2 := At(c)]);
      && Exec(Start({c}), ops) == To(t) && Valid(t, 1) && Valid(t, 2)
      && Enabled(t, Destroy(1)) && !Valid(Apply(t, Destroy(1)), 2)
  {
    var s0: State<int> := Start({c});
    var s1 := Apply(s0, Get(1, At(c)));
    var s2 := Apply(s1, Release(1));
    var s3 := Apply(s2, Get(2, At(c)));
    assert s1.idle == {} && s1.busy == {c};
    assert s2.idle == {c} && s2.busy == {};
    assert s3 == State({}, {c}, map[1 := At(c), 2 := At(c)]);
    var ops := [Get(1, At(c)), Release(1), Get(2, At(c))];
    assert ops[1..] == [Release(1), Get(2, At(c))] && ops[1..][1..] == [Get(2, At(c))];
    assert Exec(s2, ops[1..][1..]) == To(s3);
    assert Exec(s1, ops[1..]) == To(s3);
  }

  // ---------- Leaks ----------

  /** Every busy connection is pointed at by some handle, and can therefore still be released. */
  ghost predicate Held<H>(s: State<H>) {
    forall c :: c in s.busy ==> Points(s, c)
  }

  /** The step is a move assignment over a handle that holds the only pointer to a busy
      connection. */
  predicate Loses<H(==)>(s: State<H>, op: Op<H>)
    requires Enabled(s, op)
  {
    && op.Assign? && op.dst != op.src && Valid(s, op.dst)
    && forall h :: h in s.handles && h != op.dst ==> s.handles[h] != s.handles[op.dst]
  }

  /** What such a step does to the one connection: it stays busy with nothing pointing at it. */
  lemma OverwrittenLeaks<H>(s: State<H>, d: H, r: H)
    requires s.idle !! s.busy && Enabled(s, Assign(d, r)) && d != r && Valid(s, d)
    ensures var t := Apply(s, Assign(d, r)); var c := s.handles[d].conn;
      c in t.busy && c !in t.idle && (Points(t, c) <==> !Loses(s, Assign(d, r)))
  {
    var t, c := Apply(s, Assign(d, r)), s.handles[d].conn;
    if h :| h in s.handles && h != d && s.handles[h] == s.handles[d] {
      assert t.handles[if h == r then d else h] == At(c);
    }
  }

  /** Such a run, from a fresh pool: a handle without a connection is assigned over the only one
      with it. */
  lemma LossReachable(c: Conn)
    ensures var ops := [Get(1, At(c)), Get(2, Null), Assign(1, 2)];
      var t := State({}, {c}, map[1 := Null, 2 := Null]);
      Exec(Start({c}), ops) == To(t) && SomeLoses(Start({c}), ops) && !Points(t, c)
  {
    var s0: State<int> := Start({c});
    var s1 := Apply(s0, Get(1, At(c)));
    var s2 := Apply(s1, Get(2, Null));
    var s3 := Apply(s2, Assign(1, 2));
    assert s1 == State({}, {c}, map[1 := At(c)]);
    assert s2 == State({}, {c}, map[1 := At(c), 2 := Null]);
    assert s3 == State({}, {c}, map[1 := Null, 2 := Null]);
    var ops := [Get(1, At(c)), Get(2, Null), Assign(1, 2)];
    assert ops[1..] == [Get(2, Null), Assign(1, 2)] && ops[1..][1..] == [Assign(1, 2)];
    assert Loses(s2, Assign(1, 2)) && SomeLoses(s2, ops[1..][1..]) && SomeLoses(s1, ops[1..]);
    assert Exec(s2, ops[1..][1..]) == To(s3) && Exec(s1, ops[1..]) == To(s3);
  }

  lemma OthersHeld<H>(s: State<H>, op: Op<H>)
    requires s.idle !! s.busy && Held(s) && Enabled(s, op) && !(op.Assign? && op.dst != op.src && Valid(s, op.dst))
    ensures Held(Apply(s, op))
  {
    var t := Apply(s, op);
    forall c | c in t.busy ensures Points(t, c) {
      if c in s.busy {
        assert Points(s, c);
        var h :| h in s.handles && s.handles[h] == At(c);
        StillPoints(s, op, h, c);
      } else {
        assert t.handles[op.h] == At(c);
      }
    }
  }

  lemma StillPoints<H>(s: State<H>, op: Op<H>, h: H, c: Conn)
    requires Enabled(s, op) && h in s.handles && s.handles[h] == At(c) && c in Apply(s, op).busy && c in s.busy
    requires s.idle !! s.busy && (op.Assign? && op.dst != op.src ==> h != op.dst)
    ensures Points(Apply(s, op), c)
  {
    var t := Apply(s, op);
    var k := if op.MoveTo? && op.h == h then op.into else if op.Assign? && op.src == h then op.dst else h;
    assert k in t.handles && t.handles[k] == At(c);
  }

  /** One step keeps every busy connection in reach exactly if it does not lose one; explicit
      releases never do. */
  lemma HeldStep<H>(s: State<H>, op: Op<H>)
    requires s.idle !! s.busy && Held(s) && Enabled(s, op)
    ensures Held(Apply(s, op)) <==> !Loses(s, op)
  {
    if op.Assign? && op.dst != op.src && Valid(s, op.dst) {
      var t := Apply(s, op);
      OverwrittenLeaks(s, op.dst, op.src);
      forall c | c in t.busy && At(c) != s.handles[op.dst] ensures Points(t, c) {
        assert Points(s, c);
        var h :| h in s.handles && s.handles[h] == At(c);
        StillPoints(s, op, h, c);
      }
    } else {
      OthersHeld(s, op);
    }
  }

  /** Some step of the run loses a connection. */
  ghost predicate SomeLoses<H>(s: State<H>, ops: seq<Op<H>>)
    decreases |ops|
  {
    ops != [] && Enabled(s, ops[0]) && (Loses(s, ops[0]) || SomeLoses(Apply(s, ops[0]), ops[1..]))
  }

  /** A lost connection stays lost: it is busy whatever happens afterwards. */
  lemma {:induction false} LeakedForever<H>(s: State<H>, c: Conn, ops: seq<Op<H>>, t: State<H>)
    requires c in s.busy && c !in s.idle && !Points(s, c) && Exec(s, ops) == To(t)
    ensures c in t.busy && c !in t.idle && !Points(t, c)
    decreases |ops|
  {
    if ops == [] {
    } else {
      var u := Apply(s, ops[0]);
      assert forall h :: h in s.handles ==> s.handles[h] != At(c) by {
        assert !Points(s, c);
      }
      assert forall h :: h in u.handles ==> u.handles[h] != At(c);
      LeakedForever(u, c, ops[1..], t);
    }
  }

  /** At the end of a run every busy connection is in reach exactly if no step lost one. */
  lemma {:induction false} HeldRun<H>(s: State<H>, ops: seq<Op<H>>, t: State<H>)
    requires s.idle !! s.busy && Held(s) && Exec(s, ops) == To(t)
    ensures Held(t) <==> !SomeLoses(s, ops)
    decreases |ops|
  {
    if ops == [] {
    } else {
      var u := Apply(s, ops[0]);
      HeldStep(s, ops[0]);
      KeptStep(s, ops[0]);
      if Loses(s, ops[0]) {
        var c :| c in u.busy && !Points(u, c);
        LeakedForever(u, c, ops[1..], t);
      } else {
        HeldRun(u, ops[1..], t);
      }
    }
  }

  /** Once all handles are gone, after any run at all, every connection is idle again exactly if
      no step of the run lost one. */
  lemma AllIdleIff<H>(conns: set<Conn>, ops: seq<Op<H>>, t: State<H>)
    requires Exec(Start(conns), ops) == To(t) && t.handles == map[]
    ensures t.idle == conns && t.busy == {} <==> !SomeLoses(Start(conns), ops)
  {
    HeldRun(Start(conns), ops, t);
    Kept(Start(conns), ops, t);
    forall c ensures !Points(t, c) {
    }
    if t.busy != {} {
      var c :| c in t.busy;
      assert !Points(t, c);
    }
  }

  /** A disciplined run loses nothing. */
  lemma {:induction false} DisciplinedLosesNothing<H>(s: State<H>, ops: seq<Op<H>>)
    requires AllDisciplined(s, ops)
    ensures !SomeLoses(s, ops)
    decreases |ops|
  {
    if ops != [] && Enabled(s, ops[0]) {
      DisciplinedLosesNothing(Apply(s, ops[0]), ops[1..]);
    }
  }
}
