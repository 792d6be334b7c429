/**
 The operations of the splay tree as recursive functions on trees, with the turns their loops
 make. They fix the shape the pointer code arrives at, not only its key order.
 */
module SplayFunction {
  import opened SplayShape
  import opened SplaySurgery

  function Flip(side: Side): Side {
    if side == L then R else L
  }

  function Child(t: Tree, side: Side): Tree
    requires t.T?
  {
    if side == L then t.left else t.right
  }

  function Join(side: Side, a: Tree, n: Node, b: Tree): Tree {
    if side == L then T(a, n, b) else T(b, n, a)
  }

  /** Rotating the child on this side up. */
  function Turn(side: Side, t: Tree): Tree
    requires t.T? && Child(t, side).T?
  {
    if side == L then TurnRight(t) else TurnLeft(t)
  }

  /** The root of `t` and its far subtree hung below `v`, which the near subtree came to. */
  function Hung(side: Side, t: Tree, v: Tree): (u: Tree)
    requires t.T? && v.T?
  {
    Join(side, Child(v, side), v.node, Join(side, Child(v, Flip(side)), t.node, Child(t, Flip(side))))
  }

  /** The side of the root on which `k` lies. */
  function SideOf(t: Tree, k: int): Side
    requires t.T?
  {
    if k < t.node.key then L else R
  }

  /** `k` lies on the same side of the child as of the root. */
  predicate Beyond(t: Tree, k: int)
    requires t.T? && Child(t, SideOf(t, k)).T?
  {
    var c := Child(t, SideOf(t, k));
    c.node.key != k && SideOf(c, k) == SideOf(t, k)
  }

  /** The tree that splaying for `k` makes of `t`. */
  function Splayed(t: Tree, k: int): (v: Tree)
    requires t.T?
    ensures v.T?
    decreases t
  {
    var side := SideOf(t, k);
    var c := Child(t, side);
    if t.node.key == k || c == Leaf then t
    else if !Beyond(t, k) then Hung(side, t, Splayed(c, k))
    else if Child(c, side) == Leaf then Turn(side, t)
    else Hung(side, Turn(side, t), Splayed(Child(c, side), k))
  }

  /** The turns of its loop. */
  function Turns(t: Tree, k: int): nat
    decreases t
  {
    if t == Leaf then 0
    else
      var side := SideOf(t, k);
      var c := Child(t, side);
      if t.node.key == k || c == Leaf then 0
      else if !Beyond(t, k) then 1 + Turns(c, k)
      else if Child(c, side) == Leaf then 1
      else 1 + Turns(Child(c, side), k)
  }

  /** What inserting makes of `t`. */
  function Put(t: Tree, elm: Node): Tree {
    if t == Leaf then T(Leaf, elm, Leaf)
    else
      var v := Splayed(t, elm.key);
      if elm.key == v.node.key then v
      else if elm.key < v.node.key then T(v.left, elm, T(Leaf, v.node, v.right))
      else T(T(v.left, v.node, Leaf), elm, v.right)
  }

  /** What removing makes of `t`. */
  function Cut(t: Tree, k: int): Tree {
    if t == Leaf then t
    else
      var v := Splayed(t, k);
      if k != v.node.key then v
      else if v.left == Leaf then v.right
      else var l := Splayed(v.left, k); T(l.left, l.node, v.right)
  }

  /** Its two splays. */
  function CutTurns(t: Tree, k: int): nat {
    if t == Leaf then 0
    else
      var v := Splayed(t, k);
      Turns(t, k) + if k == v.node.key then Turns(v.left, k) else 0
  }

  /** A key below or above all keys of the tree. */
  function Outside(t: Tree, below: bool): int
    requires t.T?
  {
    var s := Inorder(t);
    if below then s[0].key - 1 else s[|s| - 1].key + 1
  }

  lemma OutsideBound(t: Tree, below: bool)
    requires t.T? && Sorted(Inorder(t))
    ensures forall x :: x in Nodes(t) ==> if below then Outside(t, below) < x.key else x.key < Outside(t, below)
  {
    forall x | x in Nodes(t) ensures if below then Outside(t, below) < x.key else x.key < Outside(t, below) {
      InorderNodes(t, x);
    }
  }

  // ---------- One turn of the loop ----------

  /** Where a splay for `k` under way at `c` will end. */
  function Finish(c: Config, k: int): Tree
    requires c.mid.T?
  {
    Assembled(c.(mid := Splayed(c.mid, k)))
  }

  lemma FinishStopped(c: Config, k: int)
    requires Stops(c.mid, k)
    ensures Finish(c, k) == Assembled(c) && Turns(c.mid, k) == 0
  {
  }

  /** A splay for a key beyond all others has nothing on that side of its root. */
  lemma StoppedOutside(c: Config, k: int, below: bool)
    requires Stops(c.mid, k) && if below then c.ls == Nil else c.rs == Nil
    requires forall x :: x in AllNodes(c) ==> if below then k < x.key else x.key < k
    ensures if below then Assembled(c).left == Leaf else Assembled(c).right == Leaf
  {
    assert c.mid.node in AllNodes(c);
  }

  lemma FinishStart(t: Tree, k: int)
    requires t.T?
    ensures Finish(Config(Nil, t, Nil), k) == Splayed(t, k)
  {
  }

  /** `c'` is what one turn of the loop makes of `c`. */
  ghost predicate TurnedLeft(c: Config, k: int, done: bool, c': Config) {
    c.mid.T? && c.mid.left.T? && k < c.mid.node.key && c'.mid.T? &&
    var t := if k < c.mid.left.node.key then TurnRight(c.mid) else c.mid;
    if done then k < c.mid.left.node.key && t.left == Leaf && c' == c.(mid := t) else c' == ToRight(c.(mid := t))
  }

  ghost predicate TurnedRight(c: Config, k: int, done: bool, c': Config) {
    c.mid.T? && c.mid.right.T? && k > c.mid.node.key && c'.mid.T? &&
    var t := if k > c.mid.right.node.key then TurnLeft(c.mid) else c.mid;
    if done then k > c.mid.right.node.key && t.right == Leaf && c' == c.(mid := t) else c' == ToLeft(c.(mid := t))
  }

  /** What a round of the loop does for the search: the splay ends where it was going to, with
      as many turns fewer to come, the side trees keep their sides, and the middle shrinks
      unless the splay may stop. */
  ghost predicate Advanced(c: Config, k: int, stop: bool, c': Config, n: nat)
    requires c.mid.T?
  {
    && c'.mid.T? && Finish(c', k) == Finish(c, k) && Turns(c.mid, k) == n + Turns(c'.mid, k)
    && (Around(c, k) ==> Around(c', k))
    && if stop then Stops(c'.mid, k) && |Inorder(c'.mid)| <= |Inorder(c.mid)| else |Inorder(c'.mid)| < |Inorder(c.mid)|
  }

  lemma StoppedHere(c: Config, k: int)
    requires Stops(c.mid, k)
    ensures Advanced(c, k, true, c, 0)
  {
  }

  lemma TurnedOnce(c: Config, k: int, done: bool, c': Config)
    requires TurnedLeft(c, k, done, c') || TurnedRight(c, k, done, c')
    requires Sorted(Order(c))
    ensures Advanced(c, k, done, c', 1)
  {
    TurnOrder(c.mid);
    if !done {
      if TurnedLeft(c, k, done, c') {
        var t := if k < c.mid.left.node.key then TurnRight(c.mid) else c.mid;
        assert Splayed(c.mid, k) == Hung(L, t, Splayed(c'.mid, k));
      } else {
        var t := if k > c.mid.right.node.key then TurnLeft(c.mid) else c.mid;
        assert Splayed(c.mid, k) == Hung(R, t, Splayed(c'.mid, k));
      }
    }
    if Around(c, k) {
      TurnKeepsSides(c, k, done, c');
    }
  }

  /** The keys stay on their sides through a turn of the loop. */
  lemma TurnKeepsSides(c: Config, k: int, done: bool, c': Config)
    requires TurnedLeft(c, k, done, c') || TurnedRight(c, k, done, c')
    requires Sorted(Order(c)) && Around(c, k)
    ensures Around(c', k)
  {
    AroundLink(c, k);
    if c.mid.left.T? {
      SwapMid(c, TurnRight(c.mid));
      AroundLink(c.(mid := TurnRight(c.mid)), k);
    }
    if c.mid.right.T? {
      SwapMid(c, TurnLeft(c.mid));
      AroundLink(c.(mid := TurnLeft(c.mid)), k);
    }
  }
}
