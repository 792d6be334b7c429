/**
 The values behind a splay tree of linked nodes. While a splay runs the tree is taken apart
 into a `Config`: the smaller keys met so far hang on a left spine, the larger ones on a right
 spine, and the rest is in the middle. `Laid` says that the pointer fields spell a config out.
 */
module SplayShape {

  /** One element: its key and its SPLAY_ENTRY fields. */
  class Node {
    const key: int
    var left: Node?
    var right: Node?

    constructor (key: int)
      ensures this.key == key && left == null && right == null
    {
      this.key := key;
      left, right := null, null;
    }
  }

  datatype Tree = Leaf | T(left: Tree, node: Node, right: Tree)

  datatype Side = L | R

  /** The open edge of a growing side tree: the left tree grows at its right edge, the right
      tree at its left edge; `sub` is the other subtree of an edge node. The innermost node,
      whose edge field is still open, comes first. */
  datatype Spine = Nil | Hang(up: Spine, node: Node, sub: Tree)

  datatype Config = Config(ls: Spine, mid: Tree, rs: Spine)

  datatype Entry = Entry(left: Node?, right: Node?)

  function Root(t: Tree): Node? {
    if t.Leaf? then null else t.node
  }

  ghost function Nodes(t: Tree): set<Node> {
    if t.Leaf? then {} else Nodes(t.left) + {t.node} + Nodes(t.right)
  }

  ghost function SpineNodes(sp: Spine): set<Node> {
    if sp.Nil? then {} else SpineNodes(sp.up) + {sp.node} + Nodes(sp.sub)
  }

  ghost function AllNodes(c: Config): set<Node> {
    SpineNodes(c.ls) + Nodes(c.mid) + SpineNodes(c.rs)
  }

  // ---------- Order ----------

  function Inorder(t: Tree): seq<Node> {
    if t.Leaf? then [] else Inorder(t.left) + [t.node] + Inorder(t.right)
  }

  function LeftOrder(sp: Spine): seq<Node> {
    if sp.Nil? then [] else LeftOrder(sp.up) + Inorder(sp.sub) + [sp.node]
  }

  function RightOrder(sp: Spine): seq<Node> {
    if sp.Nil? then [] else [sp.node] + Inorder(sp.sub) + RightOrder(sp.up)
  }

  function Order(c: Config): seq<Node> {
    LeftOrder(c.ls) + Inorder(c.mid) + RightOrder(c.rs)
  }

  ghost predicate Sorted(s: seq<Node>) {
    forall i, j :: 0 <= i < j < |s| ==> s[i].key < s[j].key
  }

  lemma SortedCat(a: seq<Node>, b: seq<Node>)
    requires Sorted(a + b)
    ensures Sorted(a) && Sorted(b)
    ensures forall x, y :: x in a && y in b ==> x.key < y.key
  {
    var s := a + b;
    assert forall i :: 0 <= i < |a| ==> s[i] == a[i];
    assert forall i :: 0 <= i < |b| ==> s[|a| + i] == b[i];
    forall x, y | x in a && y in b ensures x.key < y.key {
      var i :| 0 <= i < |a| && a[i] == x;
      var j :| 0 <= j < |b| && b[j] == y;
      assert s[i].key < s[|a| + j].key;
    }
  }

  lemma {:induction false} InorderNodes(t: Tree, x: Node)
    ensures x in Inorder(t) <==> x in Nodes(t)
  {
    if t.Leaf? {
    } else {
      InorderNodes(t.left, x);
      InorderNodes(t.right, x);
    }
  }

  lemma {:induction false} LeftOrderNodes(sp: Spine, x: Node)
    ensures x in LeftOrder(sp) <==> x in SpineNodes(sp)
  {
    if sp.Nil? {
    } else {
      LeftOrderNodes(sp.up, x);
      InorderNodes(sp.sub, x);
    }
  }

  lemma {:induction false} RightOrderNodes(sp: Spine, x: Node)
    ensures x in RightOrder(sp) <==> x in SpineNodes(sp)
  {
    if sp.Nil? {
    } else {
      RightOrderNodes(sp.up, x);
      InorderNodes(sp.sub, x);
    }
  }

  /** A sorted tree keeps smaller keys left and larger keys right of its root. */
  lemma SortedParts(t: Tree)
    requires Sorted(Inorder(t)) && t.T?
    ensures Sorted(Inorder(t.left)) && Sorted(Inorder(t.right))
    ensures forall x :: x in Nodes(t.left) ==> x.key < t.node.key
    ensures forall x :: x in Nodes(t.right) ==> t.node.key < x.key
    ensures Nodes(t.left) !! Nodes(t.right)
  {
    var a, b := Inorder(t.left), Inorder(t.right);
    SortedCat(a + [t.node], b);
    SortedCat(a, [t.node]);
    forall x | x in Nodes(t.left) ensures x.key < t.node.key {
      InorderNodes(t.left, x);
    }
    assert t.node in a + [t.node];
    forall x | x in Nodes(t.right) ensures t.node.key < x.key {
      InorderNodes(t.right, x);
    }
  }

  /** The three parts of a sorted config are sorted, and share no node. */
  lemma SortedConfig(c: Config)
    requires Sorted(Order(c))
    ensures Sorted(Inorder(c.mid)) && Sorted(LeftOrder(c.ls)) && Sorted(RightOrder(c.rs))
    ensures SpineNodes(c.ls) !! Nodes(c.mid) && Nodes(c.mid) !! SpineNodes(c.rs)
    ensures SpineNodes(c.ls) !! SpineNodes(c.rs)
  {
    SortedCat(LeftOrder(c.ls) + Inorder(c.mid), RightOrder(c.rs));
    SortedCat(LeftOrder(c.ls), Inorder(c.mid));
    forall x | x in SpineNodes(c.ls) ensures x !in Nodes(c.mid) && x !in SpineNodes(c.rs) {
      LeftOrderNodes(c.ls, x);
      InorderNodes(c.mid, x);
      RightOrderNodes(c.rs, x);
      assert x in LeftOrder(c.ls) + Inorder(c.mid);
    }
    forall x | x in Nodes(c.mid) ensures x !in SpineNodes(c.rs) {
      InorderNodes(c.mid, x);
      assert x in LeftOrder(c.ls) + Inorder(c.mid);
      RightOrderNodes(c.rs, x);
    }
  }

  // ---------- Links ----------

  ghost function EntryOf(x: Node): Entry
    reads x
  {
    Entry(x.left, x.right)
  }

  /** What the fields of node `x` of `t` must be. */
  ghost function Fields(t: Tree, x: Node): Entry
    requires x in Nodes(t)
  {
    if x == t.node then Entry(Root(t.left), Root(t.right))
    else if x in Nodes(t.left) then Fields(t.left, x)
    else Fields(t.right, x)
  }

  /** The same on a spine whose innermost node has `hole` in its open field. */
  ghost function SpineFields(side: Side, sp: Spine, hole: Node?, x: Node): Entry
    requires x in SpineNodes(sp)
  {
    if x == sp.node then (if side == L then Entry(Root(sp.sub), hole) else Entry(hole, Root(sp.sub)))
    else if x in Nodes(sp.sub) then Fields(sp.sub, x)
    else SpineFields(side, sp.up, sp.node, x)
  }

  ghost function ConfigFields(c: Config, hl: Node?, hr: Node?, x: Node): Entry
    requires x in AllNodes(c)
  {
    if x in Nodes(c.mid) then Fields(c.mid, x)
    else if x in SpineNodes(c.ls) then SpineFields(L, c.ls, hl, x)
    else SpineFields(R, c.rs, hr, x)
  }

  /** The outermost node of a spine; an empty spine is its hole. */
  function Outer(sp: Spine, hole: Node?): Node? {
    if sp.Nil? then hole else Outer(sp.up, sp.node)
  }

  /** The node whose field is open: the innermost node of the spine, or the header. */
  function Last(sp: Spine, header: Node): Node {
    if sp.Nil? then header else sp.node
  }

  /** What the open field of the innermost node of a spine happens to hold. */
  ghost function Hole(side: Side, sp: Spine): Node?
    reads if sp.Nil? then {} else {sp.node}
  {
    if sp.Nil? then null else if side == L then sp.node.right else sp.node.left
  }

  ghost predicate Linked(t: Tree)
    reads Nodes(t)
  {
    forall x :: x in Nodes(t) ==> EntryOf(x) == Fields(t, x)
  }

  /** The nodes spell out `c`, and the header holds the outer ends of the spines: the left
      tree in its right field and the right tree in its left field. */
  ghost predicate Laid(c: Config, header: Node)
    reads header, AllNodes(c)
  {
    && header !in AllNodes(c)
    && Sorted(Order(c))
    && header.right == Outer(c.ls, header.right)
    && header.left == Outer(c.rs, header.left)
    && forall x :: x in AllNodes(c) ==> EntryOf(x) == ConfigFields(c, Hole(L, c.ls), Hole(R, c.rs), x)
  }
}
