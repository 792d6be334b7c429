/** The splay tree, driven by any history of operations, is a sorted set of keys. */
module SplaySet {
  import opened SplayShape
  import opened SplaySurgery
  import opened SplayTree
  import opened SplayFunction
  import opened SplayCost
  import opened Powers
  import opened KeyOrder
  import opened Options
  import S = SortedSet

  function ByKey(): Node -> int {
    (x: Node) => x.key
  }

  /** The keys of a tree. */
  ghost function Keys(t: Tree): set<int> {
    KeysOf(Inorder(t), ByKey())
  }

  lemma InorderIsNodes(t: Tree)
    ensures forall x :: x in Inorder(t) <==> x in Nodes(t)
  {
    forall x ensures x in Inorder(t) <==> x in Nodes(t) {
      InorderNodes(t, x);
    }
  }

  lemma {:induction false} InorderSize(t: Tree)
    ensures |Inorder(t)| == Size(t)
  {
    if t == Leaf {
    } else {
      InorderSize(t.left);
      InorderSize(t.right);
    }
  }

  /** At no moment of the history before its end are there `n` keys. */
  ghost predicate Fewer(ops: seq<S.Op>, n: nat) {
    forall i :: 0 <= i < |ops| ==> |S.After(ops[..i])| < n
  }

  /** A history is longer than the sets it goes through are large. */
  lemma {:induction false} FewerThanOps(ops: seq<S.Op>)
    ensures Fewer(ops, |ops|) && |S.After(ops)| <= |ops|
  {
    if ops == [] {
    } else {
      var last := |ops| - 1;
      FewerThanOps(ops[..last]);
      var s := S.After(ops[..last]);
      assert |S.Effect(s, ops[last])| <= |s| + 1;
      forall i | 0 <= i < |ops| ensures |S.After(ops[..i])| < |ops| {
        if i < last {
          assert ops[..last][..i] == ops[..i];
        }
      }
    }
  }

  /** All turns of the history `ops` are within the price of its operations. */
  ghost predicate Priced(ops: seq<S.Op>, turns: nat, t: Tree) {
    forall n: nat :: Fewer(ops, n) ==> Within(turns, t, |ops|, n)
  }

  lemma PricedNext(ops: seq<S.Op>, i: nat, turns: nat, more: nat, was: Tree, now: Tree)
    requires i < |ops| && Priced(ops[..i], turns, was) && Worth(more, was, now) && |S.After(ops[..i])| == Size(was)
    ensures Priced(ops[..i + 1], turns + more, now)
  {
    var some := ops[..i + 1];
    forall n: nat | Fewer(some, n) ensures Within(turns + more, now, i + 1, n) {
      assert some[..i] == ops[..i];
      forall j | 0 <= j < i ensures |S.After(ops[..i][..j])| < n {
        assert some[..j] == ops[..i][..j];
      }
      assert Fewer(ops[..i], n);
      WithinNext(turns, more, was, now, i, n);
    }
  }

  /** One operation of a history: an element is made for the key, as a caller would. There is
      no nearest-key query on splay trees. */
  method Apply(t: Splay, op: S.Op) returns (r: S.Reply)
    requires t.Valid() && !op.NFind?
    modifies t, Nodes(t.shape)
    ensures t.Valid() && fresh(Nodes(t.shape) - old(Nodes(t.shape)))
    ensures S.Answers(old(Keys(t.shape)), op, r) && Keys(t.shape) == S.Effect(old(Keys(t.shape)), op)
    ensures t.turns >= old(t.turns) && Worth(t.turns - old(t.turns), old(t.shape), t.shape)
  {
    match op
    case Insert(k) =>
      r := ApplyInsert(t, k);
    case Remove(k) =>
      r := ApplyRemove(t, k);
    case Find(k) =>
      r := ApplyFind(t, k);
    case Min =>
      r := ApplyExtreme(t, -1);
    case Max =>
      r := ApplyExtreme(t, 1);
  }

  /** An element with the key is in the tree. */
  ghost predicate Has(t: Tree, k: int) {
    exists x :: x in Nodes(t) && x.key == k
  }

  lemma HasKey(t: Tree, k: int)
    ensures Has(t, k) <==> k in Keys(t)
  {
    InorderIsNodes(t);
    FoundKey(Inorder(t), Nodes(t), ByKey(), k, Has(t, k));
  }

  /** What an insert that returned nothing, or an equal element, means for the set. */
  lemma InsertAnswers(was: Tree, now: Tree, elm: Node, at: nat, found: bool)
    requires found ==> Inorder(now) == Inorder(was) && Has(now, elm.key)
    requires !found ==> forall x :: x in Nodes(was) ==> x.key != elm.key
    requires !found ==> at <= |Inorder(was)| && Inorder(now) == Inorder(was)[..at] + [elm] + Inorder(was)[at..]
    ensures elm.key in Keys(was) <==> found
    ensures Keys(now) == Keys(was) + {elm.key}
  {
    HasKey(was, elm.key);
    if found {
      HasKey(now, elm.key);
    } else {
      KeysInserted(Inorder(was), at, elm, ByKey());
    }
  }

  /** And a remove. */
  lemma RemoveAnswers(was: Tree, now: Tree, k: int, at: nat, found: bool)
    requires !found ==> Inorder(now) == Inorder(was) && forall x :: x in Nodes(now) ==> x.key != k
    requires found ==> Sorted(Inorder(was)) && at < |Inorder(was)| && Inorder(was)[at].key == k
    requires found ==> Inorder(now) == Inorder(was)[..at] + Inorder(was)[at + 1..]
    ensures k in Keys(was) <==> found
    ensures Keys(now) == Keys(was) - {k}
  {
    if found {
      HasKey(was, k);
      KeysRemoved(Inorder(was), at, ByKey());
      InorderNodes(was, Inorder(was)[at]);
    } else {
      HasKey(now, k);
    }
  }

  method ApplyInsert(t: Splay, k: int) returns (r: S.Reply)
    requires t.Valid()
    modifies t, Nodes(t.shape)
    ensures t.Valid() && fresh(Nodes(t.shape) - old(Nodes(t.shape)))
    ensures r == S.Done(k !in old(Keys(t.shape))) && Keys(t.shape) == old(Keys(t.shape)) + {k}
    ensures t.turns >= old(t.turns) && Worth(t.turns - old(t.turns), old(t.shape), t.shape)
  {
    NodesAllocated(t.shape);
    ghost var was := t.shape;
    var elm := new Node(k);
    InsertWorth(was, elm);
    var res, at := t.Insert(elm);
    InsertAnswers(was, t.shape, elm, at, res != null);
    r := S.Done(res == null);
  }

  method ApplyRemove(t: Splay, k: int) returns (r: S.Reply)
    requires t.Valid()
    modifies t, Nodes(t.shape)
    ensures t.Valid() && Nodes(t.shape) <= old(Nodes(t.shape))
    ensures r == S.Done(k in old(Keys(t.shape))) && Keys(t.shape) == old(Keys(t.shape)) - {k}
    ensures t.turns >= old(t.turns) && Worth(t.turns - old(t.turns), old(t.shape), t.shape)
  {
    NodesAllocated(t.shape);
    ghost var was := t.shape;
    var elm := new Node(k);
    RemoveWorth(was, k);
    var res, at := t.Remove(elm);
    RemoveAnswers(was, t.shape, k, at, res != null);
    r := S.Done(res != null);
  }

  method ApplyFind(t: Splay, k: int) returns (r: S.Reply)
    requires t.Valid()
    modifies t, Nodes(t.shape)
    ensures t.Valid() && Nodes(t.shape) == old(Nodes(t.shape))
    ensures r == S.Done(k in Keys(t.shape)) && Keys(t.shape) == old(Keys(t.shape))
    ensures t.turns >= old(t.turns) && Worth(t.turns - old(t.turns), old(t.shape), t.shape)
  {
    NodesAllocated(t.shape);
    SearchWorth(t.shape, k);
    var elm := new Node(k);
    var res := t.Find(elm);
    HasKey(t.shape, k);
    r := S.Done(res != null);
  }

  method ApplyExtreme(t: Splay, val: int) returns (r: S.Reply)
    requires t.Valid() && val != 0
    modifies t, Nodes(t.shape)
    ensures t.Valid() && Nodes(t.shape) == old(Nodes(t.shape))
    ensures Keys(t.shape) == old(Keys(t.shape))
    ensures r.Key? && if val < 0 then S.IsMin(Keys(t.shape), r.key) else S.IsMax(Keys(t.shape), r.key)
    ensures t.turns >= old(t.turns) && Worth(t.turns - old(t.turns), old(t.shape), t.shape)
  {
    ExtremeWorth(t.shape, val < 0);
    var res := t.MinMax(val);
    KeysEnds(Inorder(t.shape), ByKey());
    r := S.Key(if res == null then None else Some(res.key));
  }

  lemma ExtremeWorth(t: Tree, least: bool)
    ensures if t.T? then Worth(Turns(t, Outside(t, least)), t, Splayed(t, Outside(t, least))) else Worth(0, t, t)
  {
    SearchWorth(t, if t.T? then Outside(t, least) else 0);
  }

  /** The turns of a history are amortised logarithmic: two to their number is at most the product,
      over its operations, of a fixed power of the number of keys. */
  ghost predicate Amortised(ops: seq<S.Op>, turns: nat) {
    && (forall n: nat :: Fewer(ops, n) ==> Pow2(turns) <= Pow(Price(n), |ops|))
    && Pow2(turns) <= Pow(Price(|ops|), |ops|)
  }

  lemma PricedTurns(ops: seq<S.Op>, turns: nat, t: Tree)
    requires Priced(ops, turns, t)
    ensures Amortised(ops, turns)
  {
    forall n: nat | Fewer(ops, n) ensures Pow2(turns) <= Pow(Price(n), |ops|) {
      WithinTurns(turns, t, |ops|, n);
    }
    FewerThanOps(ops);
  }

  lemma PricedFirst(t: Tree)
    requires t == Leaf
    ensures Priced([], 0, t)
  {
  }

  lemma KeysSize(t: Tree)
    requires Sorted(Inorder(t))
    ensures |Keys(t)| == Size(t)
  {
    InorderSize(t);
    KeysCount(Inorder(t), ByKey());
  }

  /** A history of which `t` is the tree after the first `i` operations. */
  ghost predicate Answered(ops: seq<S.Op>, i: nat, replies: seq<S.Reply>, t: Tree, turns: nat)
    requires i <= |ops|
  {
    S.Refines(ops[..i], replies) && Keys(t) == S.After(ops[..i]) && Priced(ops[..i], turns, t)
  }

  lemma AnsweredFirst(ops: seq<S.Op>)
    ensures Answered(ops, 0, [], Leaf, 0)
  {
    assert ops[..0] == [];
    KeysSize(Leaf);
    PricedFirst(Leaf);
  }

  lemma AnsweredNext(ops: seq<S.Op>, i: nat, replies: seq<S.Reply>, was: Tree, turns: nat, r: S.Reply, now: Tree, more: nat)
    requires i < |ops| && Answered(ops, i, replies, was, turns) && Sorted(Inorder(was))
    requires S.Answers(Keys(was), ops[i], r) && Keys(now) == S.Effect(Keys(was), ops[i]) && Worth(more, was, now)
    ensures Answered(ops, i + 1, replies + [r], now, turns + more)
  {
    KeysSize(was);
    S.Extend(ops, replies, i, r);
    PricedNext(ops, i, turns, more, was, now);
  }

  lemma AnsweredAll(ops: seq<S.Op>, replies: seq<S.Reply>, t: Tree, turns: nat)
    requires Answered(ops, |ops|, replies, t, turns)
    ensures S.Refines(ops, replies) && Keys(t) == S.After(ops) && Amortised(ops, turns)
  {
    assert ops[..|ops|] == ops;
    PricedTurns(ops, turns, t);
  }

  /** Every history from an empty tree answers as the sorted set does, in an amortised
      logarithmic number of turns. */
  method Run(ops: seq<S.Op>) returns (t: Splay, replies: seq<S.Reply>)
    requires forall i :: 0 <= i < |ops| ==> !ops[i].NFind?
    ensures S.Refines(ops, replies)
    ensures t.Valid() && Keys(t.shape) == S.After(ops)
    ensures Amortised(ops, t.turns)
  {
    t := new Splay();
    replies := [];
    AnsweredFirst(ops);
    for i := 0 to |ops|
      invariant fresh(t) && fresh(Nodes(t.shape)) && t.Valid()
      invariant Answered(ops, i, replies, t.shape, t.turns)
    {
      ghost var was, turns := t.shape, t.turns;
      var r := Apply(t, ops[i]);
      AnsweredNext(ops, i, replies, was, turns, r, t.shape, t.turns - turns);
      replies := replies + [r];
    }
    AnsweredAll(ops, replies, t.shape, t.turns);
  }

  /** Removing with an element that only has the key of one in the tree: that one is taken out,
      but the caller gets the other, which never was in it. */
  method RemovedByAnother(k: int) returns (t: Splay, inside: Node, outside: Node, res: Node?)
    ensures t.Valid() && t.shape == Leaf
    ensures inside.key == outside.key == k && res == outside != inside
  {
    t := new Splay();
    inside := new Node(k);
    var _, _ := t.Insert(inside);
    assert t.shape == T(Leaf, inside, Leaf);
    outside := new Node(k);
    ghost var at;
    res, at := t.Remove(outside);
  }
}
