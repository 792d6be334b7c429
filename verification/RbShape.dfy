/**
 The values behind a red-black tree of linked nodes: `Tree` is the tree a root pointer
 stands for, `Path` is everything around one position of it. Colour, order and balance are
 properties of these values; `Linked` says that the pointer fields of the nodes spell a
 tree out.
 */
module RbShape {

  datatype Color = Black | Red

  /** One element: its key and its RB_ENTRY fields. */
  class Node {
    const key: int
    var left: Node?
    var right: Node?
    var parent: Node?
    var color: Color

    constructor (key: int)
      ensures this.key == key
    {
      this.key := key;
      left, right, parent, color := null, null, null, Black;
    }
  }

  datatype Tree = Leaf | T(color: Color, left: Tree, node: Node, right: Tree)

  datatype Side = L | R

  /** The way from a position up to the root: at each step, on which `side` of `node` the
      position lies and the `other` subtree of that node. */
  datatype Path = Top | Step(up: Path, side: Side, color: Color, node: Node, other: Tree)

  function Root(t: Tree): Node? {
    if t.Leaf? then null else t.node
  }

  function Parent(p: Path): Node? {
    if p.Top? then null else p.node
  }

  function ColorOf(t: Tree): Color {
    if t.Leaf? then Black else t.color
  }

  ghost function Nodes(t: Tree): set<Node> {
    if t.Leaf? then {} else Nodes(t.left) + {t.node} + Nodes(t.right)
  }

  ghost function PathNodes(p: Path): set<Node> {
    if p.Top? then {} else PathNodes(p.up) + {p.node} + Nodes(p.other)
  }

  function Join(side: Side, color: Color, t: Tree, node: Node, other: Tree): Tree {
    if side == L then T(color, t, node, other) else T(color, other, node, t)
  }

  function Plug(p: Path, t: Tree): Tree {
    if p.Top? then t else Plug(p.up, Join(p.side, p.color, t, p.node, p.other))
  }

  ghost function Depth(p: Path): nat {
    if p.Top? then 0 else Depth(p.up) + 1
  }

  // ---------- Order ----------

  function Inorder(t: Tree): seq<Node> {
    if t.Leaf? then [] else Inorder(t.left) + [t.node] + Inorder(t.right)
  }

  function Before(p: Path): seq<Node> {
    if p.Top? then []
    else if p.side == L then Before(p.up)
    else Before(p.up) + Inorder(p.other) + [p.node]
  }

  function After(p: Path): seq<Node> {
    if p.Top? then []
    else if p.side == R then After(p.up)
    else [p.node] + Inorder(p.other) + After(p.up)
  }

  ghost predicate Sorted(s: seq<Node>) {
    forall i, j :: 0 <= i < j < |s| ==> s[i].key < s[j].key
  }

  lemma {:induction false} PlugInorder(p: Path, t: Tree)
    ensures Inorder(Plug(p, t)) == Before(p) + Inorder(t) + After(p)
  {
    if p.Top? {
    } else {
      PlugInorder(p.up, Join(p.side, p.color, t, p.node, p.other));
    }
  }

  lemma {:induction false} InorderNodes(t: Tree, x: Node)
    ensures x in Inorder(t) <==> x in Nodes(t)
  {
    if t.Leaf? {
    } else {
      InorderNodes(t.left, x);
      InorderNodes(t.right, x);
    }
  }

  lemma SortedCat(a: seq<Node>, b: seq<Node>)
    requires Sorted(a + b)
    ensures Sorted(a) && Sorted(b)
    ensures forall x, y :: x in a && y in b ==> x.key < y.key
  {
    var s := a + b;
    assert forall i :: 0 <= i < |a| ==> s[i] == a[i];
    assert forall i :: 0 <= i < |b| ==> s[|a| + i] == b[i];
    forall x, y | x in a && y in b ensures x.key < y.key {
      var i :| 0 <= i < |a| && a[i] == x;
      var j :| 0 <= j < |b| && b[j] == y;
      assert s[i].key < s[|a| + j].key;
    }
  }

  /** A sorted tree keeps smaller keys left and larger keys right of its root. */
  lemma SortedParts(t: Tree)
    requires Sorted(Inorder(t)) && t.T?
    ensures Sorted(Inorder(t.left)) && Sorted(Inorder(t.right))
    ensures forall x :: x in Nodes(t.left) ==> x.key < t.node.key
    ensures forall x :: x in Nodes(t.right) ==> t.node.key < x.key
    ensures Nodes(t.left) !! Nodes(t.right)
  {
    var a, b := Inorder(t.left), Inorder(t.right);
    SortedCat(a + [t.node], b);
    SortedCat(a, [t.node]);
    forall x | x in Nodes(t.left) ensures x.key < t.node.key {
      InorderNodes(t.left, x);
    }
    assert t.node in a + [t.node];
    forall x | x in Nodes(t.right) ensures t.node.key < x.key {
      InorderNodes(t.right, x);
    }
  }

  lemma {:induction false} PathOrderNodes(p: Path, x: Node)
    ensures x in Before(p) || x in After(p) <==> x in PathNodes(p)
  {
    if p.Top? {
    } else {
      PathOrderNodes(p.up, x);
      InorderNodes(p.other, x);
    }
  }

  lemma {:induction false} PlugNodes(p: Path, t: Tree)
    ensures Nodes(Plug(p, t)) == PathNodes(p) + Nodes(t)
  {
    if p.Top? {
    } else {
      PlugNodes(p.up, Join(p.side, p.color, t, p.node, p.other));
    }
  }

  /** At a position of a sorted tree, the subtree is sorted and lies, in key order, between
      what comes before and what comes after it. */
  lemma SortedAround(p: Path, t: Tree)
    requires Sorted(Inorder(Plug(p, t)))
    ensures Sorted(Inorder(t))
    ensures forall x, y :: x in Before(p) && y in Nodes(t) ==> x.key < y.key
    ensures forall x, y :: x in Nodes(t) && y in After(p) ==> x.key < y.key
  {
    PlugInorder(p, t);
    SortedCat(Before(p) + Inorder(t), After(p));
    SortedCat(Before(p), Inorder(t));
    forall x | x in Nodes(t) ensures x in Inorder(t) {
      InorderNodes(t, x);
    }
  }

  /** The rest of a sorted tree shares no node with the subtree at a position. */
  lemma SortedPlug(p: Path, t: Tree)
    requires Sorted(Inorder(Plug(p, t)))
    ensures Sorted(Inorder(t)) && PathNodes(p) !! Nodes(t)
  {
    SortedAround(p, t);
    forall x | x in PathNodes(p) && x in Nodes(t) ensures false {
      PathOrderNodes(p, x);
    }
  }

  // ---------- Links ----------

  /** The pointer fields and colour of one node (RB_ENTRY). */
  datatype Entry = Entry(left: Node?, right: Node?, parent: Node?, color: Color)

  ghost function EntryOf(x: Node): Entry
    reads x
  {
    Entry(x.left, x.right, x.parent, x.color)
  }

  /** What the fields of node `x` of `t` must be when the root of `t` hangs under `parent`. */
  ghost function Fields(t: Tree, parent: Node?, x: Node): Entry
    requires x in Nodes(t)
  {
    if x == t.node then Entry(Root(t.left), Root(t.right), parent, t.color)
    else if x in Nodes(t.left) then Fields(t.left, t.node, x)
    else Fields(t.right, t.node, x)
  }

  ghost function StepEntry(p: Path, hole: Node?): Entry
    requires p.Step?
  {
    if p.side == L then Entry(hole, Root(p.other), Parent(p.up), p.color)
    else Entry(Root(p.other), hole, Parent(p.up), p.color)
  }

  /** The same for a node of a path with the node `hole` at its position. */
  ghost function PathFields(p: Path, hole: Node?, x: Node): Entry
    requires x in PathNodes(p)
  {
    if x == p.node then StepEntry(p, hole)
    else if x in Nodes(p.other) then Fields(p.other, p.node, x)
    else PathFields(p.up, p.node, x)
  }

  /** The fields of all nodes of `t` are those of a tree with no parent. */
  ghost predicate Linked(t: Tree)
    reads Nodes(t)
  {
    forall x :: x in Nodes(t) ==> EntryOf(x) == Fields(t, null, x)
  }

  /** The fields of a whole tree split at any of its positions. */
  lemma {:induction false} PlugFields(p: Path, t: Tree, x: Node)
    requires Sorted(Inorder(Plug(p, t))) && x in PathNodes(p) + Nodes(t)
    ensures x in Nodes(Plug(p, t))
    ensures Fields(Plug(p, t), null, x) ==
            if x in Nodes(t) then Fields(t, Parent(p), x) else PathFields(p, Root(t), x)
  {
    PlugNodes(p, t);
    if p.Top? {
    } else {
      var u := Join(p.side, p.color, t, p.node, p.other);
      PlugFields(p.up, u, x);
      SortedPlug(p.up, u);
      SortedParts(u);
    }
  }

  /** Hanging a tree under another node changes the parent field of its root only. */
  lemma Rehung(t: Tree, was: Node?, now: Node?, x: Node)
    requires x in Nodes(t)
    ensures Fields(t, now, x) ==
            if x == Root(t) then Fields(t, was, x).(parent := now) else Fields(t, was, x)
  {
  }

  // ---------- Positions ----------

  lemma {:induction false} LocateFrom(p: Path, t: Tree, x: Node) returns (q: Path, s: Tree)
    requires x in Nodes(t)
    ensures Plug(q, s) == Plug(p, t) && s.T? && s.node == x
    decreases t
  {
    if t.node == x {
      q, s := p, t;
    } else if x in Nodes(t.left) {
      q, s := LocateFrom(Step(p, L, t.color, t.node, t.right), t.left, x);
    } else {
      q, s := LocateFrom(Step(p, R, t.color, t.node, t.left), t.right, x);
    }
  }

  /** Every node of a tree has a position in it. */
  lemma Locate(t: Tree, x: Node) returns (q: Path, s: Tree)
    requires x in Nodes(t)
    ensures Plug(q, s) == t && s.T? && s.node == x
  {
    q, s := LocateFrom(Top, t, x);
  }

  // ---------- Balance ----------

  function BlackHeight(t: Tree): nat {
    if t.Leaf? then 0 else BlackHeight(t.left) + Weight(t.color)
  }

  function Weight(c: Color): nat {
    if c == Black then 1 else 0
  }

  /** Equal black count on all ways down, and no red node with a red child. */
  ghost predicate Good(t: Tree) {
    t.T? ==>
      && Good(t.left) && Good(t.right)
      && BlackHeight(t.left) == BlackHeight(t.right)
      && (t.color == Red ==> ColorOf(t.left) == Black && ColorOf(t.right) == Black)
  }

  ghost predicate RedBlack(t: Tree) {
    Good(t) && ColorOf(t) == Black
  }

  /** The path is good around a subtree of black height `h` whose root has colour `c`. */
  ghost predicate Fits(p: Path, h: nat, c: Color) {
    p.Step? ==>
      && Good(p.other) && BlackHeight(p.other) == h
      && (p.color == Red ==> c == Black && ColorOf(p.other) == Black)
      && (p.up.Top? ==> p.color == Black)
      && Fits(p.up, h + Weight(p.color), p.color)
  }

  lemma {:induction false} PlugRedBlack(p: Path, t: Tree)
    ensures RedBlack(Plug(p, t)) <==>
            Good(t) && Fits(p, BlackHeight(t), ColorOf(t)) && (p.Top? ==> ColorOf(t) == Black)
  {
    if p.Top? {
    } else {
      PlugRedBlack(p.up, Join(p.side, p.color, t, p.node, p.other));
    }
  }
}
