/** The red-black tree, driven by any history of operations, is a sorted set of keys. */
module RbSet {
  import opened RbShape
  import opened RedBlackTree
  import opened KeyOrder
  import opened Options
  import S = SortedSet

  function ByKey(): Node -> int {
    (x: Node) => x.key
  }

  /** The keys of a tree. */
  ghost function Keys(t: Tree): set<int> {
    KeysOf(Inorder(t), ByKey())
  }

  lemma InorderIsNodes(t: Tree)
    ensures forall x :: x in Inorder(t) <==> x in Nodes(t)
  {
    forall x ensures x in Inorder(t) <==> x in Nodes(t) {
      InorderNodes(t, x);
    }
  }

  lemma {:induction false} NodesAllocated(t: Tree)
    ensures forall x :: x in Nodes(t) ==> allocated(x)
  {
    if t.Leaf? {
    } else {
      NodesAllocated(t.left);
      NodesAllocated(t.right);
    }
  }

  method ApplyInsert(t: RbTree, k: int) returns (r: S.Reply)
    requires t.Valid()
    modifies t, Nodes(t.shape)
    ensures t.Valid() && fresh(Nodes(t.shape) - old(Nodes(t.shape)))
    ensures r == S.Done(k !in old(Keys(t.shape))) && Keys(t.shape) == old(Keys(t.shape)) + {k}
  {
    NodesAllocated(t.shape);
    ghost var was := t.shape;
    var elm := new Node(k);
    var res, at, _ := t.Insert(elm);
    InorderIsNodes(was);
    FoundKey(Inorder(was), Nodes(was), ByKey(), k, res != null);
    if res == null {
      KeysInserted(Inorder(was), at, elm, ByKey());
    }
    r := S.Done(res == null);
  }

  method ApplyRemove(t: RbTree, k: int) returns (r: S.Reply)
    requires t.Valid()
    modifies t, Nodes(t.shape)
    ensures t.Valid() && Nodes(t.shape) <= old(Nodes(t.shape))
    ensures r == S.Done(k in old(Keys(t.shape))) && Keys(t.shape) == old(Keys(t.shape)) - {k}
  {
    NodesAllocated(t.shape);
    var elm := new Node(k);
    var res, _ := t.Find(elm);
    InorderIsNodes(t.shape);
    FoundKey(Inorder(t.shape), Nodes(t.shape), ByKey(), k, res != null);
    if res != null {
      ghost var was := t.shape;
      var _, at := t.Remove(res);
      KeysRemoved(Inorder(was), at, ByKey());
    }
    r := S.Done(res != null);
  }

  method ApplyFind(t: RbTree, k: int) returns (r: S.Reply)
    requires t.Valid()
    ensures t.Valid() && r == S.Done(k in Keys(t.shape))
  {
    NodesAllocated(t.shape);
    var elm := new Node(k);
    var res, _ := t.Find(elm);
    InorderIsNodes(t.shape);
    FoundKey(Inorder(t.shape), Nodes(t.shape), ByKey(), k, res != null);
    r := S.Done(res != null);
  }

  method ApplyNFind(t: RbTree, k: int) returns (r: S.Reply)
    requires t.Valid()
    ensures t.Valid() && r.Key? && S.LeastFrom(Keys(t.shape), k, r.key)
  {
    NodesAllocated(t.shape);
    var elm := new Node(k);
    var res, _ := t.NFind(elm);
    InorderIsNodes(t.shape);
    if res == null {
      NearestKey(Inorder(t.shape), Nodes(t.shape), ByKey(), k, None);
      r := S.Key(None);
    } else {
      var near: Node := res;
      NearestKey(Inorder(t.shape), Nodes(t.shape), ByKey(), k, Some(near));
      r := S.Key(Some(near.key));
    }
  }

  method ApplyExtreme(t: RbTree, val: int) returns (r: S.Reply)
    requires t.Valid()
    ensures t.Valid() && r.Key? && if val < 0 then S.IsMin(Keys(t.shape), r.key) else S.IsMax(Keys(t.shape), r.key)
  {
    KeysEnds(Inorder(t.shape), ByKey());
    var res, _ := t.MinMax(val);
    r := S.Key(if res == null then None else Some(res.key));
  }

  /** One operation of a history: an element is made for the key, as a caller would. */
  method Apply(t: RbTree, op: S.Op) returns (r: S.Reply)
    requires t.Valid()
    modifies t, Nodes(t.shape)
    ensures t.Valid() && fresh(Nodes(t.shape) - old(Nodes(t.shape)))
    ensures S.Answers(old(Keys(t.shape)), op, r) && Keys(t.shape) == S.Effect(old(Keys(t.shape)), op)
  {
    match op
    case Insert(k) =>
      r := ApplyInsert(t, k);
    case Remove(k) =>
      r := ApplyRemove(t, k);
    case Find(k) =>
      r := ApplyFind(t, k);
    case NFind(k) =>
      r := ApplyNFind(t, k);
    case Min =>
      r := ApplyExtreme(t, -1);
    case Max =>
      r := ApplyExtreme(t, 1);
  }

  /** Every history from an empty tree answers as the sorted set does. */
  method Run(ops: seq<S.Op>) returns (t: RbTree, replies: seq<S.Reply>)
    ensures S.Refines(ops, replies)
    ensures t.Valid() && Keys(t.shape) == S.After(ops)
  {
    t := new RbTree();
    replies := [];
    assert ops[..0] == [];
    for i := 0 to |ops|
      invariant fresh(t) && fresh(Nodes(t.shape)) && t.Valid()
      invariant S.Refines(ops[..i], replies) && Keys(t.shape) == S.After(ops[..i])
    {
      var r := Apply(t, ops[i]);
      S.Extend(ops, replies, i, r);
      replies := replies + [r];
    }
    assert ops[..|ops|] == ops;
  }
}
