/** What single pointer changes do to a tree: rotations, recolouring, exchanging a subtree. */
module RbSurgery {
  import opened RbShape

  // ---------- What single changes do to the tree ----------

  function TurnLeft(s: Tree): Tree
    requires s.T? && s.right.T?
  {
    T(s.right.color, T(s.color, s.left, s.node, s.right.left), s.right.node, s.right.right)
  }

  function TurnRight(s: Tree): Tree
    requires s.T? && s.left.T?
  {
    T(s.left.color, s.left.left, s.left.node, T(s.color, s.left.right, s.node, s.right))
  }

  lemma TurnLeftInorder(s: Tree)
    requires s.T? && s.right.T?
    ensures Inorder(TurnLeft(s)) == Inorder(s)
  {
  }

  lemma TurnRightInorder(s: Tree)
    requires s.T? && s.left.T?
    ensures Inorder(TurnRight(s)) == Inorder(s)
  {
  }

  /** Exchanging a subtree for one with the same order changes neither order nor nodes. */
  lemma SwapInorder(p: Path, s: Tree, s': Tree)
    requires Inorder(s) == Inorder(s')
    ensures Inorder(Plug(p, s')) == Inorder(Plug(p, s))
    ensures Nodes(s') == Nodes(s) && Nodes(Plug(p, s')) == Nodes(Plug(p, s))
  {
    PlugInorder(p, s);
    PlugInorder(p, s');
    PlugNodes(p, s);
    PlugNodes(p, s');
    forall x | x in Nodes(s) + Nodes(s') ensures x in Nodes(s) && x in Nodes(s') {
      InorderNodes(s, x);
      InorderNodes(s', x);
    }
  }

  ghost function Redirected(e: Entry, side: Side, child: Node?): Entry {
    if side == L then e.(left := child) else e.(right := child)
  }

  /** Exchanging the subtree at a position changes, outside it, one child field of the node
      above and nothing else. */
  lemma SwapFields(p: Path, s: Tree, s': Tree, x: Node)
    requires Sorted(Inorder(Plug(p, s))) && Sorted(Inorder(Plug(p, s')))
    requires x in Nodes(Plug(p, s'))
    ensures x in Nodes(s') ==> Fields(Plug(p, s'), null, x) == Fields(s', Parent(p), x)
    ensures x !in Nodes(s') ==> x in Nodes(Plug(p, s)) && x !in Nodes(s)
    ensures x !in Nodes(s') && x != Parent(p) ==> Fields(Plug(p, s'), null, x) == Fields(Plug(p, s), null, x)
    ensures x !in Nodes(s') && x == Parent(p) ==>
      Fields(Plug(p, s'), null, x) == Redirected(Fields(Plug(p, s), null, x), p.side, Root(s'))
  {
    PlugNodes(p, s);
    PlugNodes(p, s');
    PlugFields(p, s', x);
    if x !in Nodes(s') {
      PlugFields(p, s, x);
      SortedPlug(p, s);
    }
  }

  /** The root of the whole tree is above the position, unless the position is the top. */
  lemma {:induction false} PlugRoot(p: Path, s: Tree, t: Tree)
    ensures p.Top? ==> Root(Plug(p, s)) == Root(s) && Root(Plug(p, t)) == Root(t)
    ensures p.Step? ==> Root(Plug(p, s)) == Root(Plug(p, t)) && Root(Plug(p, s)) in PathNodes(p)
  {
    if p.Top? {
    } else {
      PlugRoot(p.up, Join(p.side, p.color, s, p.node, p.other), Join(p.side, p.color, t, p.node, p.other));
    }
  }

  /** The fields of the node above a position, and which of its children the position is. */
  lemma StepFields(p: Path, s: Tree)
    requires p.Step? && Sorted(Inorder(Plug(p, s)))
    ensures p.node in Nodes(Plug(p, s)) && p.node !in Nodes(s)
    ensures Fields(Plug(p, s), null, p.node) == StepEntry(p, Root(s))
    ensures s.T? ==> Root(p.other) != Root(s)
  {
    PlugFields(p, s, p.node);
    SortedPlug(p, s);
    var u := Join(p.side, p.color, s, p.node, p.other);
    SortedPlug(p.up, u);
    SortedParts(u);
  }

  /** The nodes a rotation touches are different nodes of the tree. */
  lemma TurnAt(p: Path, s: Tree, c: Tree)
    requires s.T? && c.T? && (c == s.right || c == s.left) && Sorted(Inorder(Plug(p, s)))
    ensures {s.node, c.node} <= Nodes(Plug(p, s)) && s.node != c.node
    ensures forall b :: (b == c.left || b == c.right) && b.T? ==>
      b.node in Nodes(s) && b.node in Nodes(Plug(p, s)) && b.node !in {s.node, c.node}
    ensures p.Step? ==> p.node in Nodes(Plug(p, s)) && p.node !in Nodes(s) && Root(p.other) != s.node
    ensures Fields(Plug(p, s), null, s.node) == Entry(Root(s.left), Root(s.right), Parent(p), s.color)
    ensures Fields(Plug(p, s), null, c.node) == Entry(Root(c.left), Root(c.right), s.node, c.color)
    ensures p.Step? ==> Fields(Plug(p, s), null, p.node) == StepEntry(p, s.node)
  {
    SortedPlug(p, s);
    SortedParts(s);
    SortedParts(c);
    PlugNodes(p, s);
    PlugFields(p, s, s.node);
    PlugFields(p, s, c.node);
    if p.Step? {
      StepFields(p, s);
    }
  }

  /** What a rotation to the left about `elm` makes of the fields `e` of `x`: `tmp` is the
      right child of `elm`, `b` the left child of `tmp`, `up` the parent of `elm`, which has it on `side`. */
  ghost function TurnedLeft(e: Entry, x: Node, elm: Node, tmp: Node, b: Node?, up: Node?, side: Side): Entry {
    if x == elm then e.(right := b, parent := tmp)
    else if x == tmp then e.(left := elm, parent := up)
    else if x == b then e.(parent := elm)
    else if x == up then Redirected(e, side, tmp)
    else e
  }

  ghost function TurnLeftEntry(p: Path, s: Tree, e: Entry, x: Node): Entry
    requires s.T? && s.right.T?
  {
    TurnedLeft(e, x, s.node, s.right.node, Root(s.right.left), Parent(p), if p.Top? then L else p.side)
  }

  lemma TurnLeftBelow(p: Path, s: Tree, x: Node)
    requires s.T? && s.right.T? && Sorted(Inorder(s)) && x in Nodes(s) && x != Parent(p)
    ensures x in Nodes(TurnLeft(s))
    ensures Fields(TurnLeft(s), Parent(p), x) == TurnLeftEntry(p, s, Fields(s, Parent(p), x), x)
  {
    SortedParts(s);
    SortedParts(s.right);
    if x in Nodes(s.right.left) {
      Rehung(s.right.left, s.right.node, s.node, x);
    }
  }

  lemma TurnLeftFields(p: Path, s: Tree, x: Node)
    requires s.T? && s.right.T? && Sorted(Inorder(Plug(p, s))) && x in Nodes(Plug(p, s))
    ensures x in Nodes(Plug(p, TurnLeft(s)))
    ensures Fields(Plug(p, TurnLeft(s)), null, x) == TurnLeftEntry(p, s, Fields(Plug(p, s), null, x), x)
  {
    TurnLeftInorder(s);
    SwapInorder(p, s, TurnLeft(s));
    SwapFields(p, s, TurnLeft(s), x);
    if p.Step? {
      StepFields(p, s);
    }
    if x in Nodes(s) {
      SortedPlug(p, s);
      PlugFields(p, s, x);
      TurnLeftBelow(p, s, x);
    } else {
      assert Nodes(s.right.left) <= Nodes(s.right) <= Nodes(s);
    }
  }

  /** What a rotation to the right about `elm` makes of the fields `e` of `x`: `tmp` is the
      left child of `elm`, `b` the right child of `tmp`, `up` the parent of `elm`, which has it on `side`. */
  ghost function TurnedRight(e: Entry, x: Node, elm: Node, tmp: Node, b: Node?, up: Node?, side: Side): Entry {
    if x == elm then e.(left := b, parent := tmp)
    else if x == tmp then e.(right := elm, parent := up)
    else if x == b then e.(parent := elm)
    else if x == up then Redirected(e, side, tmp)
    else e
  }

  ghost function TurnRightEntry(p: Path, s: Tree, e: Entry, x: Node): Entry
    requires s.T? && s.left.T?
  {
    TurnedRight(e, x, s.node, s.left.node, Root(s.left.right), Parent(p), if p.Top? then L else p.side)
  }

  lemma TurnRightBelow(p: Path, s: Tree, x: Node)
    requires s.T? && s.left.T? && Sorted(Inorder(s)) && x in Nodes(s) && x != Parent(p)
    ensures x in Nodes(TurnRight(s))
    ensures Fields(TurnRight(s), Parent(p), x) == TurnRightEntry(p, s, Fields(s, Parent(p), x), x)
  {
    SortedParts(s);
    SortedParts(s.left);
    if x in Nodes(s.left.right) {
      Rehung(s.left.right, s.left.node, s.node, x);
    }
  }

  lemma TurnRightFields(p: Path, s: Tree, x: Node)
    requires s.T? && s.left.T? && Sorted(Inorder(Plug(p, s))) && x in Nodes(Plug(p, s))
    ensures x in Nodes(Plug(p, TurnRight(s)))
    ensures Fields(Plug(p, TurnRight(s)), null, x) == TurnRightEntry(p, s, Fields(Plug(p, s), null, x), x)
  {
    TurnRightInorder(s);
    SwapInorder(p, s, TurnRight(s));
    SwapFields(p, s, TurnRight(s), x);
    if p.Step? {
      StepFields(p, s);
    }
    if x in Nodes(s) {
      SortedPlug(p, s);
      PlugFields(p, s, x);
      TurnRightBelow(p, s, x);
    } else {
      assert Nodes(s.left.right) <= Nodes(s.left) <= Nodes(s);
    }
  }

  // ---------- Taking a node out ----------

  /** `child` is all that is left of `s` without its node. */
  ghost predicate OnlyChild(s: Tree, child: Tree) {
    s.T? && ((s.left == Leaf && child == s.right) || (s.right == Leaf && child == s.left))
  }

  /** In key order, what comes before and what comes after the node at a position. */
  function Lower(p: Path, s: Tree): seq<Node>
    requires s.T?
  {
    Before(p) + Inorder(s.left)
  }

  function Higher(p: Path, s: Tree): seq<Node>
    requires s.T?
  {
    Inorder(s.right) + After(p)
  }

  lemma NodeOrder(p: Path, s: Tree)
    requires s.T?
    ensures Inorder(Plug(p, s)) == Lower(p, s) + [s.node] + Higher(p, s)
  {
    PlugInorder(p, s);
    Regroup(Before(p), Inorder(s.left), [s.node], Inorder(s.right), After(p));
  }

  lemma Regroup(a: seq<Node>, b: seq<Node>, c: seq<Node>, d: seq<Node>, e: seq<Node>)
    ensures a + (b + c + d) + e == (a + b) + c + (d + e)
  {
  }

  /** Taking the node at a position out, when it has at most one child tree. */
  lemma TakeOutOrder(p: Path, s: Tree, child: Tree)
    requires OnlyChild(s, child)
    ensures Inorder(Plug(p, child)) == Lower(p, s) + Higher(p, s)
  {
    PlugInorder(p, child);
    if s.left == Leaf {
      Grouped(Before(p), Inorder(child), After(p));
      assert Lower(p, s) == Before(p) && Higher(p, s) == Inorder(child) + After(p);
    } else {
      assert Lower(p, s) == Before(p) + Inorder(child) && Higher(p, s) == After(p);
    }
  }

  lemma Grouped(a: seq<Node>, b: seq<Node>, c: seq<Node>)
    ensures a + b + c == a + (b + c)
  {
  }

  lemma SortedWithout(a: seq<Node>, x: Node, b: seq<Node>)
    requires Sorted(a + [x] + b)
    ensures Sorted(a + b)
  {
    SortedCat(a + [x], b);
    SortedCat(a, [x]);
    assert forall y :: y in a ==> y in a + [x];
  }

  lemma TakeOutSorted(p: Path, s: Tree, child: Tree)
    requires OnlyChild(s, child) && Sorted(Inorder(Plug(p, s)))
    ensures Sorted(Inorder(Plug(p, child)))
  {
    NodeOrder(p, s);
    TakeOutOrder(p, s, child);
    SortedWithout(Lower(p, s), s.node, Higher(p, s));
  }

  lemma TakeOutNodes(p: Path, s: Tree, child: Tree)
    requires Sorted(Inorder(Plug(p, s))) && OnlyChild(s, child)
    ensures Nodes(Plug(p, child)) == Nodes(Plug(p, s)) - {s.node}
  {
    PlugNodes(p, s);
    PlugNodes(p, child);
    SortedPlug(p, s);
    SortedParts(s);
  }

  /** The fields after that: the child hangs where the node did, the rest is as before. */
  lemma TakeOutFields(p: Path, s: Tree, child: Tree, x: Node)
    requires Sorted(Inorder(Plug(p, s))) && OnlyChild(s, child)
    requires x in Nodes(Plug(p, child))
    ensures x in Nodes(Plug(p, s)) && x != s.node
    ensures var e := Fields(Plug(p, s), null, x);
      Fields(Plug(p, child), null, x) ==
        if x == Root(child) then e.(parent := Parent(p))
        else if x == Parent(p) then Redirected(e, p.side, Root(child))
        else e
  {
    TakeOutSorted(p, s, child);
    TakeOutNodes(p, s, child);
    SwapFields(p, s, child, x);
    SortedPlug(p, s);
    if x in Nodes(child) {
      PlugFields(p, s, x);
      SortedParts(s);
      Rehung(child, s.node, Parent(p), x);
    }
  }

  // ---------- Putting one node in the place of another ----------

  function Rename(t: Tree, a: Node, b: Node): Tree {
    if t.Leaf? then Leaf
    else T(t.color, Rename(t.left, a, b), if t.node == a then b else t.node, Rename(t.right, a, b))
  }

  function RenamePath(p: Path, a: Node, b: Node): Path {
    if p.Top? then Top
    else Step(RenamePath(p.up, a, b), p.side, p.color, if p.node == a then b else p.node, Rename(p.other, a, b))
  }

  lemma {:induction false} RenamePlug(p: Path, t: Tree, a: Node, b: Node)
    ensures Rename(Plug(p, t), a, b) == Plug(RenamePath(p, a, b), Rename(t, a, b))
  {
    if p.Top? {
    } else {
      RenamePlug(p.up, Join(p.side, p.color, t, p.node, p.other), a, b);
    }
  }

  lemma {:induction false} RenameSame(t: Tree, a: Node, b: Node)
    requires a !in Nodes(t)
    ensures Rename(t, a, b) == t
  {
    if t.Leaf? {
    } else {
      RenameSame(t.left, a, b);
      RenameSame(t.right, a, b);
    }
  }

  lemma {:induction false} RenamePathSame(p: Path, a: Node, b: Node)
    requires a !in PathNodes(p)
    ensures RenamePath(p, a, b) == p
  {
    if p.Top? {
    } else {
      RenamePathSame(p.up, a, b);
      RenameSame(p.other, a, b);
    }
  }

  /** Renaming the node at a position touches that node only. */
  lemma RenameHere(p: Path, s: Tree, b: Node)
    requires s.T? && Sorted(Inorder(Plug(p, s)))
    ensures Rename(Plug(p, s), s.node, b) == Plug(p, s.(node := b))
  {
    SortedPlug(p, s);
    SortedParts(s);
    RenamePlug(p, s, s.node, b);
    RenamePathSame(p, s.node, b);
    RenameSame(s.left, s.node, b);
    RenameSame(s.right, s.node, b);
  }

  lemma {:induction false} RenameGood(t: Tree, a: Node, b: Node)
    ensures Good(Rename(t, a, b)) == Good(t) && BlackHeight(Rename(t, a, b)) == BlackHeight(t)
    ensures ColorOf(Rename(t, a, b)) == ColorOf(t)
  {
    if t.Leaf? {
    } else {
      RenameGood(t.left, a, b);
      RenameGood(t.right, a, b);
    }
  }

  lemma {:induction false} RenameFits(p: Path, h: nat, c: Color, a: Node, b: Node)
    ensures Fits(RenamePath(p, a, b), h, c) == Fits(p, h, c)
  {
    if p.Top? {
    } else {
      RenameGood(p.other, a, b);
      RenameFits(p.up, h + Weight(p.color), p.color, a, b);
    }
  }

  /** What putting `b` in the place of the node of `s` makes of the fields `e` of `x`. */
  ghost function ReplacedEntry(e: Entry, x: Node, b: Node, left: Node?, right: Node?, up: Node?, side: Side): Entry {
    if x == left || x == right then e.(parent := b)
    else if x == up then Redirected(e, side, b)
    else e
  }

  lemma ReplaceBelow(s: Tree, b: Node, parent: Node?, x: Node)
    requires s.T? && Sorted(Inorder(s)) && x in Nodes(s) && x != s.node && b !in Nodes(s)
    ensures x in Nodes(s.(node := b))
    ensures var e := Fields(s, parent, x);
      Fields(s.(node := b), parent, x) ==
        if x == Root(s.left) || x == Root(s.right) then e.(parent := b) else e
  {
    SortedParts(s);
    if x in Nodes(s.left) {
      Rehung(s.left, s.node, b, x);
    } else {
      Rehung(s.right, s.node, b, x);
    }
  }

  lemma ReplaceFields(p: Path, s: Tree, b: Node, x: Node)
    requires s.T? && Sorted(Inorder(Plug(p, s))) && Sorted(Inorder(Plug(p, s.(node := b))))
    requires b !in Nodes(Plug(p, s)) && x in Nodes(Plug(p, s.(node := b)))
    ensures x == b ==> Fields(Plug(p, s.(node := b)), null, x) == Entry(Root(s.left), Root(s.right), Parent(p), s.color)
    ensures x != b ==> x in Nodes(Plug(p, s)) && x != s.node
    ensures x != b ==>
      Fields(Plug(p, s.(node := b)), null, x) ==
        ReplacedEntry(Fields(Plug(p, s), null, x), x, b, Root(s.left), Root(s.right), Parent(p),
                      if p.Top? then L else p.side)
  {
    var s' := s.(node := b);
    PlugNodes(p, s);
    PlugNodes(p, s');
    SortedPlug(p, s);
    SortedParts(s);
    SwapFields(p, s, s', x);
    if x in Nodes(s') && x != b {
      PlugFields(p, s, x);
      ReplaceBelow(s, b, Parent(p), x);
    }
  }

  lemma ReplaceNodes(p: Path, s: Tree, b: Node)
    requires s.T? && Sorted(Inorder(Plug(p, s)))
    ensures Nodes(Plug(p, s.(node := b))) == Nodes(Plug(p, s)) - {s.node} + {b}
  {
    PlugNodes(p, s);
    PlugNodes(p, s.(node := b));
    SortedPlug(p, s);
    SortedParts(s);
  }
}
