/**
 The ordered set of keys that both trees stand for: what each operation answers and what it
 leaves, and what a whole history of operations must have answered.
 */
module SortedSet {
  import opened Options

  datatype Op = Insert(key: int) | Remove(key: int) | Find(key: int) | NFind(key: int) | Min | Max

  /** `Done(changed)` answers an update and a membership query, `Key` the other queries. */
  datatype Reply = Done(yes: bool) | Key(key: Option<int>)

  function Effect(s: set<int>, op: Op): set<int> {
    match op
    case Insert(k) => s + {k}
    case Remove(k) => s - {k}
    case _ => s
  }

  /** `r` is the least member of `s` that is at least `k`. */
  ghost predicate LeastFrom(s: set<int>, k: int, r: Option<int>) {
    match r
    case None => forall x :: x in s ==> x < k
    case Some(m) => m in s && k <= m && forall x :: x in s && k <= x ==> m <= x
  }

  ghost predicate IsMin(s: set<int>, r: Option<int>) {
    match r
    case None => s == {}
    case Some(m) => m in s && forall x :: x in s ==> m <= x
  }

  ghost predicate IsMax(s: set<int>, r: Option<int>) {
    match r
    case None => s == {}
    case Some(m) => m in s && forall x :: x in s ==> x <= m
  }

  /** `r` is the right answer to `op` on the set `s`. */
  ghost predicate Answers(s: set<int>, op: Op, r: Reply) {
    match op
    case Insert(k) => r == Done(k !in s)
    case Remove(k) => r == Done(k in s)
    case Find(k) => r == Done(k in s)
    case NFind(k) => r.Key? && LeastFrom(s, k, r.key)
    case Min => r.Key? && IsMin(s, r.key)
    case Max => r.Key? && IsMax(s, r.key)
  }

  /** The set after a history that starts empty. */
  function After(ops: seq<Op>): set<int> {
    if ops == [] then {} else Effect(After(ops[..|ops| - 1]), ops[|ops| - 1])
  }

  /** Every reply of the history answers its operation on the set of that moment. */
  ghost predicate Refines(ops: seq<Op>, replies: seq<Reply>) {
    |replies| == |ops| &&
    forall i :: 0 <= i < |ops| ==> Answers(After(ops[..i]), ops[i], replies[i])
  }

  /** One more operation, rightly answered. */
  lemma Extend(ops: seq<Op>, replies: seq<Reply>, i: nat, r: Reply)
    requires i < |ops| && Refines(ops[..i], replies) && Answers(After(ops[..i]), ops[i], r)
    ensures Refines(ops[..i + 1], replies + [r])
    ensures After(ops[..i + 1]) == Effect(After(ops[..i]), ops[i])
  {
    var more := ops[..i + 1];
    assert more[..i] == ops[..i];
    forall j | 0 <= j < i + 1 ensures Answers(After(more[..j]), more[j], (replies + [r])[j]) {
      if j < i {
        assert more[..j] == ops[..i][..j];
        assert Answers(After(ops[..i][..j]), ops[..i][j], replies[j]);
      }
    }
  }
}
