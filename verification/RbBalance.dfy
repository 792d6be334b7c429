/** The red-black conditions through the steps of the two fix-up loops. */
module RbBalance {
  import opened RbShape
  import opened RbSurgery
  import opened RbSearch

  /** Where the insert loop stands: a red node, possibly below a red one. */
  ghost predicate InsertHole(p: Path, s: Tree) {
    s.T? && s.color == Red && Good(s) && Fits(p, BlackHeight(s), Black)
  }

  /** The insert loop stands below a red node: that node has a black parent. */
  ghost predicate RedAbove(p: Path) {
    p.Step? && p.color == Red && p.up.Step?
  }

  lemma InsertAbove(p: Path, s: Tree)
    requires InsertHole(p, s) && p.Step? && p.color == Red
    ensures RedAbove(p)
  {
    assert Fits(p.up, BlackHeight(s), Red);
  }

  /** Recolouring the parent, its red sibling and the grandparent moves the loop up. */
  lemma InsertRecolored(p: Path, s: Tree)
    requires InsertHole(p, s) && RedAbove(p) && ColorOf(p.up.other) == Red
    ensures InsertHole(p.up.up, Join(p.up.side, Red, Join(p.side, Black, s, p.node, p.other),
                                     p.up.node, p.up.other.(color := Black)))
  {
    var g := p.up;
    assert Fits(g, BlackHeight(Join(p.side, p.color, s, p.node, p.other)), Red);
  }

  /** Rotating the grandparent down ends the loop: the parent, now black, took its place. */
  lemma InsertOuter(p: Path, s: Tree)
    requires InsertHole(p, s) && RedAbove(p) && ColorOf(p.up.other) == Black
    ensures InsertHole(Step(p.up.up, p.up.side, Black, p.node,
                            Join(p.up.side, Red, p.other, p.up.node, p.up.other)), s)
  {
    var g := p.up;
    assert Fits(g, BlackHeight(Join(p.side, p.color, s, p.node, p.other)), Red);
  }

  /** The same for a node on the inner side of its parent, after two rotations. */
  lemma InsertInner(p: Path, s: Tree, near: Tree, far: Tree)
    requires InsertHole(p, s) && RedAbove(p) && ColorOf(p.up.other) == Black
    requires s == Join(p.up.side, Red, near, s.node, far)
    ensures InsertHole(Step(p.up.up, p.up.side, Black, s.node, Join(p.up.side, Red, far, p.up.node, p.up.other)),
                       Join(p.up.side, Red, p.other, p.node, near))
  {
    var g := p.up;
    assert Fits(g, BlackHeight(Join(p.side, p.color, s, p.node, p.other)), Red);
  }

  /** The rotating cases, by the side the node is on. */
  lemma InsertCases(p: Path, s: Tree)
    requires InsertHole(p, s) && RedAbove(p) && ColorOf(p.up.other) == Black
    ensures p.side == p.up.side ==>
      InsertHole(Step(p.up.up, p.up.side, Black, p.node, Join(p.up.side, Red, p.other, p.up.node, p.up.other)), s)
    ensures p.side == R && p.up.side == L ==>
      InsertHole(Step(p.up.up, L, Black, s.node, T(Red, s.right, p.up.node, p.up.other)), T(Red, p.other, p.node, s.left))
    ensures p.side == L && p.up.side == R ==>
      InsertHole(Step(p.up.up, R, Black, s.node, T(Red, p.up.other, p.up.node, s.left)), T(Red, s.right, p.node, p.other))
  {
    if p.side == p.up.side {
      InsertOuter(p, s);
    } else if p.side == R {
      InsertInner(p, s, s.left, s.right);
    } else {
      InsertInner(p, s, s.right, s.left);
    }
  }

  /** The insert loop may stop below a black node or at the top. */
  lemma InsertDone(p: Path, s: Tree)
    requires InsertHole(p, s) && (p.Step? ==> p.color == Black)
    ensures Plug(p, s).T? && RedBlack(Plug(p, s).(color := Black))
  {
    PlugRedBlack(p, s);
    PlugRoot(p, s, s);
  }

  // ---------- Removal ----------

  function Blackened(t: Tree): Tree {
    if t.Leaf? then Leaf else t.(color := Black)
  }

  /** Where the remove loop stands: the subtree is one black node short. */
  ghost predicate RemoveHole(p: Path, s: Tree) {
    Good(Blackened(s)) && Fits(p, BlackHeight(s) + 1, Black)
  }

  /** A short black subtree has a sibling, and a red sibling has black children below. */
  lemma Sibling(p: Path, s: Tree)
    requires RemoveHole(p, s) && p.Step?
    ensures p.other.T?
    ensures p.other.color == Red ==>
      p.color == Black && p.other.left.T? && p.other.right.T? &&
      p.other.left.color == Black && p.other.right.color == Black
  {
  }

  /** A red sibling is rotated up; the subtree then has a black sibling and a red parent. */
  lemma RemoveRedSibling(p: Path, s: Tree, near: Tree, far: Tree)
    requires RemoveHole(p, s) && p.Step? && p.other.T? && p.other.color == Red
    requires p.other == Join(p.side, Red, near, p.other.node, far)
    ensures RemoveHole(Step(Step(p.up, p.side, Black, p.other.node, far), p.side, Red, p.node, near), s)
  {
    assert Fits(p.up, BlackHeight(s) + 2, Black);
  }

  /** A black sibling with black children turns red, and the parent is one short instead. */
  lemma RemoveRecolored(p: Path, s: Tree)
    requires RemoveHole(p, s) && ColorOf(s) == Black && p.Step? && p.other.T? && p.other.color == Black
    requires ColorOf(p.other.left) == Black && ColorOf(p.other.right) == Black
    ensures RemoveHole(p.up, Join(p.side, p.color, s, p.node, p.other.(color := Red)))
  {
    assert Fits(p.up, BlackHeight(s) + 1 + Weight(p.color), p.color);
  }

  lemma GoodJoin(side: Side, color: Color, a: Tree, n: Node, b: Tree)
    requires Good(a) && Good(b) && BlackHeight(a) == BlackHeight(b)
    requires color == Red ==> ColorOf(a) == Black && ColorOf(b) == Black
    ensures Good(Join(side, color, a, n, b))
    ensures BlackHeight(Join(side, color, a, n, b)) == BlackHeight(a) + Weight(color)
  {
  }

  /** A black sibling whose far child is red: one rotation restores everything. */
  lemma RemoveFar(p: Path, s: Tree, near: Tree, far: Tree)
    requires RemoveHole(p, s) && ColorOf(s) == Black && p.Step? && p.other.T? && p.other.color == Black
    requires p.other == Join(p.side, Black, near, p.other.node, far) && ColorOf(far) == Red
    ensures RedBlack(Plug(p.up, Join(p.side, p.color, Join(p.side, Black, s, p.node, near),
                                     p.other.node, Blackened(far))))
  {
    var t := Join(p.side, p.color, Join(p.side, Black, s, p.node, near), p.other.node, Blackened(far));
    assert Fits(p.up, BlackHeight(s) + 1 + Weight(p.color), p.color);
    assert Good(near) && Good(far) && BlackHeight(near) == BlackHeight(far) == BlackHeight(s);
    GoodJoin(p.side, Black, s, p.node, near);
    GoodJoin(p.side, p.color, Join(p.side, Black, s, p.node, near), p.other.node, Blackened(far));
    PlugRedBlack(p.up, t);
  }

  /** Only the near child of the black sibling is red: two rotations restore everything. */
  lemma RemoveNear(p: Path, s: Tree, near: Tree, far: Tree, a: Tree, b: Tree)
    requires RemoveHole(p, s) && ColorOf(s) == Black && p.Step? && p.other.T? && p.other.color == Black
    requires p.other == Join(p.side, Black, near, p.other.node, far) && ColorOf(far) == Black
    requires near.T? && near == Join(p.side, Red, a, near.node, b)
    ensures RedBlack(Plug(p.up, Join(p.side, p.color, Join(p.side, Black, s, p.node, a),
                                     near.node, Join(p.side, Black, b, p.other.node, far))))
  {
    var t := Join(p.side, p.color, Join(p.side, Black, s, p.node, a),
                  near.node, Join(p.side, Black, b, p.other.node, far));
    assert Fits(p.up, BlackHeight(s) + 1 + Weight(p.color), p.color);
    assert Good(near) && Good(far) && BlackHeight(near) == BlackHeight(far) == BlackHeight(s);
    GoodJoin(p.side, Black, s, p.node, a);
    GoodJoin(p.side, Black, b, p.other.node, far);
    GoodJoin(p.side, p.color, Join(p.side, Black, s, p.node, a), near.node, Join(p.side, Black, b, p.other.node, far));
    PlugRedBlack(p.up, t);
  }

  /** The remove loop may stop at a red node or at the top. */
  lemma RemoveDone(p: Path, s: Tree)
    requires RemoveHole(p, s) && (p.Top? || ColorOf(s) == Red)
    ensures RedBlack(Plug(p, Blackened(s)))
  {
    PlugRedBlack(p, Blackened(s));
  }

  /** Taking a node with at most one child out of a red-black tree: nothing is short if the
      node was red, and its place is one short if it was black. */
  lemma TakenOut(p: Path, s: Tree, child: Tree)
    requires RedBlack(Plug(p, s)) && OnlyChild(s, child)
    ensures s.color == Red ==> RedBlack(Plug(p, child))
    ensures s.color == Black ==> RemoveHole(p, child)
  {
    PlugRedBlack(p, s);
    OnlyChildGood(s, child);
    if s.color == Black {
      FillsBlack(p, BlackHeight(s), child);
    } else {
      FillsRed(p, BlackHeight(s), child);
    }
  }

  lemma FillsBlack(p: Path, h: nat, child: Tree)
    requires Fits(p, h, Black) && Good(child) && h == BlackHeight(child) + 1
    ensures RemoveHole(p, child)
  {
    GoodBlackened(child);
  }

  lemma FillsRed(p: Path, h: nat, child: Tree)
    requires Fits(p, h, Red) && Good(child) && h == BlackHeight(child) && ColorOf(child) == Black
    ensures RedBlack(Plug(p, child))
  {
    FitsBlack(p, h, Red);
    PlugRedBlack(p, child);
  }

  lemma OnlyChildGood(s: Tree, child: Tree)
    requires Good(s) && OnlyChild(s, child)
    ensures Good(child) && BlackHeight(s) == BlackHeight(child) + Weight(s.color)
    ensures s.color == Red ==> ColorOf(child) == Black
  {
  }

  lemma GoodBlackened(t: Tree)
    requires Good(t)
    ensures Good(Blackened(t))
  {
  }

  lemma FitsBlack(p: Path, h: nat, c: Color)
    requires Fits(p, h, c)
    ensures Fits(p, h, Black)
  {
  }

  /** Renaming the node at one position does not change how another position fits. */
  lemma Renamed(p: Path, s: Tree, q: Path, c: Tree, b: Node)
    requires s.T? && Plug(p, s) == Plug(q, c) && Sorted(Inorder(Plug(p, s))) && s.node !in Nodes(c)
    ensures Plug(p, s.(node := b)) == Plug(RenamePath(q, s.node, b), c)
    ensures RedBlack(Plug(q, c)) ==> RedBlack(Plug(p, s.(node := b)))
    ensures RemoveHole(q, c) ==> RemoveHole(RenamePath(q, s.node, b), c)
    ensures Parent(RenamePath(q, s.node, b)) == if Parent(q) == s.node then b else Parent(q)
  {
    RenameHere(p, s, b);
    RenamePlug(q, c, s.node, b);
    RenameSame(c, s.node, b);
    RenamedHole(q, c, s.node, b);
    RenamedRedBlack(Plug(q, c), s.node, b);
  }

  lemma RenamedRedBlack(t: Tree, a: Node, b: Node)
    ensures RedBlack(Rename(t, a, b)) == RedBlack(t)
  {
    RenameGood(t, a, b);
  }

  lemma RenamedHole(q: Path, c: Tree, a: Node, b: Node)
    ensures RemoveHole(RenamePath(q, a, b), c) == RemoveHole(q, c)
    ensures Parent(RenamePath(q, a, b)) == if Parent(q) == a then b else Parent(q)
  {
    RenameFits(q, BlackHeight(c) + 1, Black, a, b);
  }

  /** Moving the successor of a node to the node's place: the order loses the node, and the
      place the successor left is short if the successor was black. */
  lemma SuccessorMoved(p: Path, s: Tree, q: Path, t: Tree)
    requires SuccessorAt(p, s, q, t) && Sorted(Inorder(Plug(p, s))) && RedBlack(Plug(p, s))
    ensures t.node != s.node && t.node !in Nodes(Plug(q, t.right))
    ensures Plug(q, t.right) == Plug(p, s.(right := Rest(p, s, q, t)))
    ensures var s2, q2 := T(s.color, s.left, t.node, Rest(p, s, q, t)), RenamePath(q, s.node, t.node);
      && Plug(p, s2) == Plug(q2, t.right) && Sorted(Inorder(Plug(p, s2)))
      && Parent(q2) == (if Parent(q) == s.node then t.node else Parent(q))
      && (if t.color == Red then RedBlack(Plug(p, s2)) else RemoveHole(q2, t.right))
  {
    var c, s1 := t.right, s.(right := Rest(p, s, q, t));
    TakenOut(q, t, c);
    TakeOutSorted(q, t, c);
    TakeOutNodes(q, t, c);
    SuccessorRest(p, s, q, t);
    SuccessorOrder(p, s, q, t);
    SuccessorBelow(p, s, q, t);
    Renamed(p, s1, q, c, t.node);
  }

  lemma SuccessorBelow(p: Path, s: Tree, q: Path, t: Tree)
    requires SuccessorAt(p, s, q, t) && Sorted(Inorder(Plug(p, s)))
    ensures t.node != s.node && s.node !in Nodes(t.right)
  {
    SuccessorRest(p, s, q, t);
    NodeOrder(p, s);
    SortedCat(Lower(p, s) + [s.node], Higher(p, s));
    assert t.node in Higher(p, s);
    assert s.node in Lower(p, s) + [s.node];
    SortedPlug(q, t);
    SortedParts(t);
  }

  lemma SuccessorNodes(p: Path, s: Tree, q: Path, t: Tree)
    requires SuccessorAt(p, s, q, t) && Sorted(Inorder(Plug(p, s)))
    ensures Nodes(Plug(q, t.right)) <= Nodes(Plug(p, s))
    ensures Nodes(Plug(p, T(s.color, s.left, t.node, Rest(p, s, q, t)))) <= Nodes(Plug(p, s))
  {
    SuccessorRest(p, s, q, t);
    TakeOutSorted(q, t, t.right);
    TakeOutNodes(q, t, t.right);
    PlugNodes(q, t);
    ReplaceNodes(p, s.(right := Rest(p, s, q, t)), t.node);
  }
}
