/** What the steps of a splay do to a config: rotations in the middle, and links to a side. */
module SplaySurgery {
  import opened SplayShape

  function TurnRight(t: Tree): Tree
    requires t.T? && t.left.T?
  {
    T(t.left.left, t.left.node, T(t.left.right, t.node, t.right))
  }

  function TurnLeft(t: Tree): Tree
    requires t.T? && t.right.T?
  {
    T(T(t.left, t.node, t.right.left), t.right.node, t.right.right)
  }

  /** SPLAY_LINKLEFT: the middle root and its right subtree go to the right tree. */
  function ToRight(c: Config): Config
    requires c.mid.T?
  {
    Config(c.ls, c.mid.left, Hang(c.rs, c.mid.node, c.mid.right))
  }

  /** SPLAY_LINKRIGHT: the middle root and its left subtree go to the left tree. */
  function ToLeft(c: Config): Config
    requires c.mid.T?
  {
    Config(Hang(c.ls, c.mid.node, c.mid.left), c.mid.right, c.rs)
  }

  function CloseLeft(sp: Spine, t: Tree): Tree {
    if sp.Nil? then t else CloseLeft(sp.up, T(sp.sub, sp.node, t))
  }

  function CloseRight(sp: Spine, t: Tree): Tree {
    if sp.Nil? then t else CloseRight(sp.up, T(t, sp.node, sp.sub))
  }

  /** SPLAY_ASSEMBLE: the middle root on top of the two side trees, each closed with the
      middle subtree of its side. */
  function Assembled(c: Config): Tree
    requires c.mid.T?
  {
    T(CloseLeft(c.ls, c.mid.left), c.mid.node, CloseRight(c.rs, c.mid.right))
  }

  // ---------- Order ----------

  lemma TurnRightOrder(t: Tree)
    requires t.T? && t.left.T?
    ensures Inorder(TurnRight(t)) == Inorder(t)
  {
    var a, x, b, y, c := Inorder(t.left.left), [t.left.node], Inorder(t.left.right), [t.node], Inorder(t.right);
    Reassociate(a, x, b, y, c);
  }

  lemma Reassociate(a: seq<Node>, x: seq<Node>, b: seq<Node>, y: seq<Node>, c: seq<Node>)
    ensures a + x + (b + y + c) == (a + x + b) + y + c
  {
  }

  lemma TurnLeftOrder(t: Tree)
    requires t.T? && t.right.T?
    ensures Inorder(TurnLeft(t)) == Inorder(t)
  {
    var a, x, b, y, c := Inorder(t.left), [t.node], Inorder(t.right.left), [t.right.node], Inorder(t.right.right);
    Reassociate(a, x, b, y, c);
  }

  lemma TurnOrder(t: Tree)
    ensures t.T? && t.left.T? ==> Inorder(TurnRight(t)) == Inorder(t)
    ensures t.T? && t.right.T? ==> Inorder(TurnLeft(t)) == Inorder(t)
  {
    if t.T? && t.left.T? {
      TurnRightOrder(t);
    }
    if t.T? && t.right.T? {
      TurnLeftOrder(t);
    }
  }

  lemma LinkOrder(c: Config)
    requires c.mid.T?
    ensures Order(ToRight(c)) == Order(c) == Order(ToLeft(c))
  {
    var a, l, m, r, b := LeftOrder(c.ls), Inorder(c.mid.left), [c.mid.node], Inorder(c.mid.right), RightOrder(c.rs);
    assert (a + l) + (m + r + b) == a + (l + m + r) + b == (a + l + m) + r + b;
  }

  lemma Regroup(a: seq<Node>, b: seq<Node>, c: seq<Node>, d: seq<Node>)
    ensures a + (b + c + d) == (a + b + c) + d
    ensures (a + b + c) + d == a + (b + c + d)
  {
  }

  lemma {:induction false} CloseLeftOrder(sp: Spine, t: Tree)
    ensures Inorder(CloseLeft(sp, t)) == LeftOrder(sp) + Inorder(t)
  {
    if sp.Nil? {
    } else {
      CloseLeftOrder(sp.up, T(sp.sub, sp.node, t));
      Regroup(LeftOrder(sp.up), Inorder(sp.sub), [sp.node], Inorder(t));
    }
  }

  lemma {:induction false} CloseRightOrder(sp: Spine, t: Tree)
    ensures Inorder(CloseRight(sp, t)) == Inorder(t) + RightOrder(sp)
  {
    if sp.Nil? {
    } else {
      CloseRightOrder(sp.up, T(t, sp.node, sp.sub));
      Regroup(Inorder(t), [sp.node], Inorder(sp.sub), RightOrder(sp.up));
    }
  }

  lemma Group5(a: seq<Node>, l: seq<Node>, m: seq<Node>, r: seq<Node>, b: seq<Node>)
    ensures (a + l) + m + (r + b) == a + (l + m + r) + b
  {
  }

  lemma AssembledOrder(c: Config)
    requires c.mid.T?
    ensures Inorder(Assembled(c)) == Order(c)
  {
    CloseLeftOrder(c.ls, c.mid.left);
    CloseRightOrder(c.rs, c.mid.right);
    Group5(LeftOrder(c.ls), Inorder(c.mid.left), [c.mid.node], Inorder(c.mid.right), RightOrder(c.rs));
  }

  // ---------- Fields ----------

  lemma TurnRightFields(t: Tree, x: Node)
    requires t.T? && t.left.T? && Sorted(Inorder(t)) && x in Nodes(t)
    ensures x in Nodes(TurnRight(t))
    ensures Fields(TurnRight(t), x) ==
            var e := Fields(t, x);
            if x == t.node then e.(left := Root(t.left.right))
            else if x == t.left.node then e.(right := t.node)
            else e
  {
    SortedParts(t);
    SortedParts(t.left);
  }

  lemma TurnLeftFields(t: Tree, x: Node)
    requires t.T? && t.right.T? && Sorted(Inorder(t)) && x in Nodes(t)
    ensures x in Nodes(TurnLeft(t))
    ensures Fields(TurnLeft(t), x) ==
            var e := Fields(t, x);
            if x == t.node then e.(right := Root(t.right.left))
            else if x == t.right.node then e.(left := t.node)
            else e
  {
    SortedParts(t);
    SortedParts(t.right);
  }

  /** Linking the middle root to a side needs one write: the open field of that side. */
  lemma ToRightFields(c: Config, hl: Node?, hr: Node?, x: Node)
    requires c.mid.T? && Sorted(Order(c)) && x in AllNodes(c)
    ensures x in AllNodes(ToRight(c))
    ensures ConfigFields(ToRight(c), hl, Root(c.mid.left), x) ==
            var e := ConfigFields(c, hl, hr, x);
            if c.rs.Hang? && x == c.rs.node then e.(left := c.mid.node) else e
  {
    SortedConfig(c);
    SortedParts(c.mid);
    if c.rs.Hang? { Rehole(R, c.rs, hr, c.mid.node, x); }
  }

  /** Only the innermost node of a spine depends on the hole. */
  lemma Rehole(side: Side, sp: Spine, was: Node?, now: Node?, x: Node)
    requires sp.Hang?
    ensures x in SpineNodes(sp) && x != sp.node ==> SpineFields(side, sp, now, x) == SpineFields(side, sp, was, x)
    ensures SpineFields(side, sp, now, sp.node) ==
            var e := SpineFields(side, sp, was, sp.node);
            if side == L then e.(right := now) else e.(left := now)
  {
  }

  lemma ToLeftFields(c: Config, hl: Node?, hr: Node?, x: Node)
    requires c.mid.T? && Sorted(Order(c)) && x in AllNodes(c)
    ensures x in AllNodes(ToLeft(c))
    ensures ConfigFields(ToLeft(c), Root(c.mid.right), hr, x) ==
            var e := ConfigFields(c, hl, hr, x);
            if c.ls.Hang? && x == c.ls.node then e.(right := c.mid.node) else e
  {
    SortedConfig(c);
    SortedParts(c.mid);
    if c.ls.Hang? { Rehole(L, c.ls, hl, c.mid.node, x); }
  }

  lemma {:induction false} CloseLeftFields(sp: Spine, t: Tree, x: Node)
    requires Sorted(LeftOrder(sp) + Inorder(t)) && x in SpineNodes(sp) + Nodes(t)
    ensures x in Nodes(CloseLeft(sp, t)) && Root(CloseLeft(sp, t)) == Outer(sp, Root(t))
    ensures Fields(CloseLeft(sp, t), x) ==
            if x in Nodes(t) then Fields(t, x) else SpineFields(L, sp, Root(t), x)
  {
    if sp.Nil? {
    } else {
      var u := T(sp.sub, sp.node, t);
      assert LeftOrder(sp.up) + Inorder(u) == LeftOrder(sp) + Inorder(t);
      SortedCat(LeftOrder(sp.up), Inorder(u));
      SortedParts(u);
      CloseLeftFields(sp.up, u, x);
      if x in SpineNodes(sp.up) {
        LeftOrderNodes(sp.up, x);
        InorderNodes(u, x);
      }
    }
  }

  lemma {:induction false} CloseRightFields(sp: Spine, t: Tree, x: Node)
    requires Sorted(Inorder(t) + RightOrder(sp)) && x in SpineNodes(sp) + Nodes(t)
    ensures x in Nodes(CloseRight(sp, t)) && Root(CloseRight(sp, t)) == Outer(sp, Root(t))
    ensures Fields(CloseRight(sp, t), x) ==
            if x in Nodes(t) then Fields(t, x) else SpineFields(R, sp, Root(t), x)
  {
    if sp.Nil? {
    } else {
      var u := T(t, sp.node, sp.sub);
      assert Inorder(u) + RightOrder(sp.up) == Inorder(t) + RightOrder(sp);
      SortedCat(Inorder(u), RightOrder(sp.up));
      SortedParts(u);
      CloseRightFields(sp.up, u, x);
      if x in SpineNodes(sp.up) {
        RightOrderNodes(sp.up, x);
        InorderNodes(u, x);
      }
    }
  }

  /** Which fields assembling changes: the two open ones and those of the middle root. */
  lemma AssembledFields(c: Config, hl: Node?, hr: Node?, x: Node)
    requires c.mid.T? && Sorted(Order(c)) && x in AllNodes(c)
    ensures x in Nodes(Assembled(c))
    ensures Fields(Assembled(c), x) ==
            var e := ConfigFields(c, hl, hr, x);
            if x == c.mid.node then Entry(Outer(c.ls, Root(c.mid.left)), Outer(c.rs, Root(c.mid.right)))
            else if c.ls.Hang? && x == c.ls.node then e.(right := Root(c.mid.left))
            else if c.rs.Hang? && x == c.rs.node then e.(left := Root(c.mid.right))
            else e
  {
    SortedConfig(c);
    SortedParts(c.mid);
    AssembledSorted(c);
    var t := Assembled(c);
    SortedParts(t);
    if x in SpineNodes(c.ls) + Nodes(c.mid.left) {
      CloseLeftFields(c.ls, c.mid.left, x);
      if c.ls.Hang? { Rehole(L, c.ls, hl, Root(c.mid.left), x); }
    } else if x in SpineNodes(c.rs) + Nodes(c.mid.right) {
      CloseRightFields(c.rs, c.mid.right, x);
      if c.rs.Hang? { Rehole(R, c.rs, hr, Root(c.mid.right), x); }
    }
    if c.ls.Hang? { CloseLeftFields(c.ls, c.mid.left, c.ls.node); }
    if c.rs.Hang? { CloseRightFields(c.rs, c.mid.right, c.rs.node); }
  }

  lemma AssembledSorted(c: Config)
    requires c.mid.T? && Sorted(Order(c))
    ensures Inorder(Assembled(c)) == Order(c) && Sorted(Inorder(Assembled(c)))
    ensures Sorted(LeftOrder(c.ls) + Inorder(c.mid.left)) && Sorted(Inorder(c.mid.right) + RightOrder(c.rs))
    ensures Nodes(Assembled(c)) == AllNodes(c)
  {
    AssembledOrder(c);
    CloseLeftOrder(c.ls, c.mid.left);
    CloseRightOrder(c.rs, c.mid.right);
    SortedParts(Assembled(c));
    CloseNodes(c.ls, c.mid.left, c.rs, c.mid.right);
  }

  lemma {:induction false} CloseLeftNodes(sp: Spine, t: Tree)
    ensures Nodes(CloseLeft(sp, t)) == SpineNodes(sp) + Nodes(t)
  {
    if sp.Nil? {
    } else {
      CloseLeftNodes(sp.up, T(sp.sub, sp.node, t));
    }
  }

  lemma {:induction false} CloseRightNodes(sp: Spine, t: Tree)
    ensures Nodes(CloseRight(sp, t)) == SpineNodes(sp) + Nodes(t)
  {
    if sp.Nil? {
    } else {
      CloseRightNodes(sp.up, T(t, sp.node, sp.sub));
    }
  }

  lemma CloseNodes(ls: Spine, l: Tree, rs: Spine, r: Tree)
    ensures Nodes(CloseLeft(ls, l)) == SpineNodes(ls) + Nodes(l)
    ensures Nodes(CloseRight(rs, r)) == SpineNodes(rs) + Nodes(r)
  {
    CloseLeftNodes(ls, l);
    CloseRightNodes(rs, r);
  }

  /** A rotation in the middle changes the fields of the two nodes it turns. */
  lemma MidFields(c: Config, t: Tree, hl: Node?, hr: Node?, x: Node)
    requires Sorted(Order(c)) && Nodes(t) == Nodes(c.mid) && x in AllNodes(c)
    ensures x in AllNodes(c.(mid := t))
    ensures ConfigFields(c.(mid := t), hl, hr, x) ==
            if x in Nodes(c.mid) then Fields(t, x) else ConfigFields(c, hl, hr, x)
  {
  }

  lemma SwapMid(c: Config, t: Tree)
    requires Inorder(t) == Inorder(c.mid)
    ensures Order(c.(mid := t)) == Order(c) && Nodes(t) == Nodes(c.mid) && AllNodes(c.(mid := t)) == AllNodes(c)
  {
    forall x | x in Nodes(t) + Nodes(c.mid) ensures x in Nodes(t) && x in Nodes(c.mid) {
      InorderNodes(t, x);
      InorderNodes(c.mid, x);
    }
  }

  lemma TurnRightConfig(c: Config, hl: Node?, hr: Node?, x: Node)
    requires Sorted(Order(c)) && c.mid.T? && c.mid.left.T? && x in AllNodes(c)
    ensures var c' := c.(mid := TurnRight(c.mid));
      && Order(c') == Order(c) && AllNodes(c') == AllNodes(c)
      && ConfigFields(c', hl, hr, x) ==
         var e := ConfigFields(c, hl, hr, x);
         if x == c.mid.node then e.(left := Root(c.mid.left.right))
         else if x == c.mid.left.node then e.(right := c.mid.node)
         else e
  {
    TurnOrder(c.mid);
    SwapMid(c, TurnRight(c.mid));
    SortedConfig(c);
    MidFields(c, TurnRight(c.mid), hl, hr, x);
    if x in Nodes(c.mid) {
      TurnRightFields(c.mid, x);
    } else {
      assert Nodes(c.mid.left) <= Nodes(c.mid);
    }
  }

  lemma TurnLeftConfig(c: Config, hl: Node?, hr: Node?, x: Node)
    requires Sorted(Order(c)) && c.mid.T? && c.mid.right.T? && x in AllNodes(c)
    ensures var c' := c.(mid := TurnLeft(c.mid));
      && Order(c') == Order(c) && AllNodes(c') == AllNodes(c)
      && ConfigFields(c', hl, hr, x) ==
         var e := ConfigFields(c, hl, hr, x);
         if x == c.mid.node then e.(right := Root(c.mid.right.left))
         else if x == c.mid.right.node then e.(left := c.mid.node)
         else e
  {
    TurnOrder(c.mid);
    SwapMid(c, TurnLeft(c.mid));
    SortedConfig(c);
    MidFields(c, TurnLeft(c.mid), hl, hr, x);
    if x in Nodes(c.mid) {
      TurnLeftFields(c.mid, x);
    } else {
      assert Nodes(c.mid.right) <= Nodes(c.mid);
    }
  }

  /** The nodes near the middle root are nodes of the config, and differ from each other and
      from the ends of the spines. */
  lemma MidNodes(c: Config)
    requires Sorted(Order(c)) && c.mid.T?
    ensures c.mid.node in AllNodes(c)
    ensures c.mid.left.T? ==>
      c.mid.left.node in AllNodes(c) && c.mid.left.node in Nodes(c.mid) && c.mid.left.node != c.mid.node
    ensures c.mid.right.T? ==>
      c.mid.right.node in AllNodes(c) && c.mid.right.node in Nodes(c.mid) && c.mid.right.node != c.mid.node
    ensures c.ls.Hang? ==> c.ls.node in AllNodes(c) && c.ls.node !in Nodes(c.mid)
    ensures c.rs.Hang? ==> c.rs.node in AllNodes(c) && c.rs.node !in Nodes(c.mid)
    ensures c.ls.Hang? && c.rs.Hang? ==> c.ls.node != c.rs.node
  {
    SortedConfig(c);
    SortedParts(c.mid);
  }

  lemma MidEntries(c: Config, hl: Node?, hr: Node?)
    requires Sorted(Order(c)) && c.mid.T?
    ensures c.mid.node in AllNodes(c) && ConfigFields(c, hl, hr, c.mid.node) == Entry(Root(c.mid.left), Root(c.mid.right))
    ensures var l := c.mid.left;
      l.T? ==> l.node in AllNodes(c) && ConfigFields(c, hl, hr, l.node) == Entry(Root(l.left), Root(l.right))
    ensures var r := c.mid.right;
      r.T? ==> r.node in AllNodes(c) && ConfigFields(c, hl, hr, r.node) == Entry(Root(r.left), Root(r.right))
  {
    SortedConfig(c);
    SortedParts(c.mid);
    var l, r := c.mid.left, c.mid.right;
    if l.T? {
      assert l.node in Nodes(l) && Fields(c.mid, l.node) == Fields(l, l.node);
    }
    if r.T? {
      assert r.node in Nodes(r) && Fields(c.mid, r.node) == Fields(r, r.node);
    }
  }

  lemma OuterEnds(c: Config)
    ensures c.ls.Hang? ==> forall h: Node? :: Outer(c.ls, h) == Outer(c.ls, null)
    ensures c.rs.Hang? ==> forall h: Node? :: Outer(c.rs, h) == Outer(c.rs, null)
  {
  }

  lemma LinkNodes(c: Config)
    requires c.mid.T?
    ensures AllNodes(ToRight(c)) == AllNodes(c) == AllNodes(ToLeft(c))
  {
  }

  // ---------- What a splay looks for ----------

  /** The side trees hold smaller and larger keys than `k`. */
  ghost predicate Around(c: Config, k: int) {
    (forall x :: x in LeftOrder(c.ls) ==> x.key < k) && (forall x :: x in RightOrder(c.rs) ==> k < x.key)
  }

  lemma AroundLink(c: Config, k: int)
    requires c.mid.T? && Sorted(Order(c)) && Around(c, k)
    ensures k < c.mid.node.key ==> Around(ToRight(c), k)
    ensures k > c.mid.node.key ==> Around(ToLeft(c), k)
  {
    SortedConfig(c);
    SortedParts(c.mid);
    forall x | x in Inorder(c.mid.left) ensures x.key < c.mid.node.key {
      InorderNodes(c.mid.left, x);
    }
    forall x | x in Inorder(c.mid.right) ensures c.mid.node.key < x.key {
      InorderNodes(c.mid.right, x);
    }
  }

  /** The splay may stop: the middle root has the key, or nothing is left on the key's side. */
  ghost predicate Stops(t: Tree, k: int) {
    t.T? && (t.node.key == k || (k < t.node.key && t.left == Leaf) || (t.node.key < k && t.right == Leaf))
  }

  /** The root has the key, or is the next larger or next smaller node. */
  ghost predicate Near(t: Tree, k: int) {
    t.T? &&
    (|| t.node.key == k
     || (k < t.node.key && forall x :: x in Nodes(t.left) ==> x.key < k)
     || (t.node.key < k && forall x :: x in Nodes(t.right) ==> k < x.key))
  }

  lemma AssembledNear(c: Config, k: int)
    requires c.mid.T? && Around(c, k) && Stops(c.mid, k)
    ensures Near(Assembled(c), k)
  {
    CloseNodes(c.ls, c.mid.left, c.rs, c.mid.right);
    forall x | x in SpineNodes(c.ls) ensures x.key < k {
      LeftOrderNodes(c.ls, x);
    }
    forall x | x in SpineNodes(c.rs) ensures k < x.key {
      RightOrderNodes(c.rs, x);
    }
  }

  /** A near root decides membership: no other node can have the key. */
  lemma NearDecides(t: Tree, k: int, x: Node)
    requires Near(t, k) && Sorted(Inorder(t)) && x in Nodes(t)
    ensures x.key == k ==> x == t.node
    ensures k < t.node.key ==> x.key < k || t.node.key <= x.key
    ensures t.node.key < k ==> x.key <= t.node.key || k < x.key
  {
    SortedParts(t);
  }

  lemma {:induction false} NodesAllocated(t: Tree)
    ensures forall x :: x in Nodes(t) ==> allocated(x)
  {
    if t.Leaf? {
    } else {
      NodesAllocated(t.left);
      NodesAllocated(t.right);
    }
  }

  lemma StartConfig(t: Tree)
    ensures Order(Config(Nil, t, Nil)) == Inorder(t) && AllNodes(Config(Nil, t, Nil)) == Nodes(t)
    ensures forall x, hl, hr :: x in Nodes(t) ==> ConfigFields(Config(Nil, t, Nil), hl, hr, x) == Fields(t, x)
  {
  }

  // ---------- Whole trees ----------

  lemma SubLinked(t: Tree)
    requires t.T? && Linked(t) && Sorted(Inorder(t))
    ensures Linked(t.left) && Linked(t.right)
    ensures EntryOf(t.node) == Entry(Root(t.left), Root(t.right))
  {
    SortedParts(t);
    forall x | x in Nodes(t.left) ensures EntryOf(x) == Fields(t.left, x) {
      assert x in Nodes(t) && EntryOf(x) == Fields(t, x);
    }
    forall x | x in Nodes(t.right) ensures EntryOf(x) == Fields(t.right, x) {
      assert x in Nodes(t) && EntryOf(x) == Fields(t, x);
    }
    assert EntryOf(t.node) == Fields(t, t.node);
  }

  /** In a tree of keys below `k`, the root next to `k` is the largest node. */
  lemma LargestRoot(t: Tree, k: int)
    requires Near(t, k) && forall x :: x in Nodes(t) ==> x.key < k
    ensures t.right == Leaf
  {
    RootIn(t);
    RootIn(t.right);
  }

  /** The node with the key of `elm` is `elm` itself exactly if `elm` is in the tree. */
  lemma OwnNode(t: Tree, at: nat, elm: Node)
    requires Sorted(Inorder(t)) && at < |Inorder(t)| && Inorder(t)[at].key == elm.key
    ensures Inorder(t)[at] == elm <==> elm in Nodes(t)
  {
    InorderNodes(t, elm);
  }

  lemma RootIn(t: Tree)
    ensures t.T? ==> t.node in Nodes(t)
  {
  }

  /** A near root whose key is missing splits the order where the key belongs. */
  lemma SplitByKey(t: Tree, elm: Node)
    requires Near(t, elm.key) && Sorted(Inorder(t)) && elm.key != t.node.key
    ensures forall x :: x in Nodes(t) ==> x.key != elm.key
    ensures elm.key < t.node.key ==> Sorted(Inorder(t.left) + [elm] + ([t.node] + Inorder(t.right)))
    ensures elm.key > t.node.key ==> Sorted((Inorder(t.left) + [t.node]) + [elm] + Inorder(t.right))
  {
    forall x | x in Nodes(t) ensures x.key != elm.key {
      NearDecides(t, elm.key, x);
    }
    SortedParts(t);
    forall x | x in Inorder(t.left) ensures x.key < t.node.key && (elm.key < t.node.key ==> x.key < elm.key) {
      InorderNodes(t.left, x);
    }
    forall x | x in Inorder(t.right) ensures t.node.key < x.key && (t.node.key < elm.key ==> elm.key < x.key) {
      InorderNodes(t.right, x);
    }
    SortedAround(Inorder(t.left), t.node, Inorder(t.right), elm);
  }

  /** A new key fits in right next to the middle one, on either side. */
  lemma SortedAround(a: seq<Node>, n: Node, b: seq<Node>, x: Node)
    requires Sorted(a + [n] + b)
    requires forall y :: y in a ==> y.key < n.key && (x.key < n.key ==> y.key < x.key)
    requires forall y :: y in b ==> n.key < y.key && (n.key < x.key ==> x.key < y.key)
    ensures x.key < n.key ==> Sorted(a + [x] + ([n] + b))
    ensures x.key > n.key ==> Sorted((a + [n]) + [x] + b)
  {
    if x.key < n.key {
      assert a + ([n] + b) == a + [n] + b;
      SortedInsert(a, x, [n] + b);
    } else if x.key > n.key {
      SortedInsert(a + [n], x, b);
    }
  }

  lemma SortedInsert(a: seq<Node>, x: Node, b: seq<Node>)
    requires Sorted(a + b)
    requires (forall y :: y in a ==> y.key < x.key) && (forall y :: y in b ==> x.key < y.key)
    ensures Sorted(a + [x] + b)
  {
    SortedCat(a, b);
  }

  lemma SortedWithout(a: seq<Node>, x: Node, b: seq<Node>)
    requires Sorted(a + [x] + b)
    ensures Sorted(a + b)
  {
    SortedCat(a + [x], b);
    SortedCat(a, [x]);
    assert forall y :: y in a ==> y in a + [x];
  }

  lemma LongerPrefix(a: seq<Node>, b: seq<Node>)
    requires a <= b && |a| < |b|
    ensures a + [b[|a|]] <= b
  {
  }

  lemma CutAt(a: seq<Node>, x: Node, b: seq<Node>)
    ensures var s := a + [x] + b; s[..|a|] == a && s[|a| + 1..] == b && s[|a|] == x
  {
  }

  /** Putting `x` on top, right before the old root. */
  lemma SplitBefore(l: Tree, x: Node, n: Node, r: Tree)
    ensures Inorder(T(l, x, T(Leaf, n, r))) == Inorder(l) + [x] + ([n] + Inorder(r))
    ensures Inorder(T(l, n, r))[..|Inorder(l)|] == Inorder(l)
    ensures Inorder(T(l, n, r))[|Inorder(l)|..] == [n] + Inorder(r)
  {
    assert Inorder(T(Leaf, n, r)) == [n] + Inorder(r);
    SplitAt(Inorder(l), n, Inorder(r));
  }

  lemma SplitAt(a: seq<Node>, n: Node, b: seq<Node>)
    ensures (a + [n] + b)[..|a|] == a && (a + [n] + b)[|a|..] == [n] + b
    ensures (a + [n] + b)[..|a| + 1] == a + [n] && (a + [n] + b)[|a| + 1..] == b
  {
  }

  /** Putting `x` on top, right after the old root. */
  lemma SplitAfter(l: Tree, n: Node, x: Node, r: Tree)
    ensures Inorder(T(T(l, n, Leaf), x, r)) == (Inorder(l) + [n]) + [x] + Inorder(r)
    ensures Inorder(T(l, n, r))[..|Inorder(l)| + 1] == Inorder(l) + [n]
    ensures Inorder(T(l, n, r))[|Inorder(l)| + 1..] == Inorder(r)
  {
    assert Inorder(T(l, n, Leaf)) == Inorder(l) + [n];
    SplitAt(Inorder(l), n, Inorder(r));
  }

  lemma BeforeFields(l: Tree, x: Node, n: Node, r: Tree, y: Node)
    requires Sorted(Inorder(T(l, n, r))) && x !in Nodes(T(l, n, r))
    requires y in Nodes(T(l, n, r)) + {x}
    ensures var t := T(l, x, T(Leaf, n, r));
      && Nodes(t) == Nodes(T(l, n, r)) + {x}
      && Fields(t, y) == if y == x then Entry(Root(l), n) else if y == n then Entry(null, Root(r)) else Fields(T(l, n, r), y)
  {
    SortedParts(T(l, n, r));
    assert Nodes(T(Leaf, n, r)) == {n} + Nodes(r);
  }

  lemma AfterFields(l: Tree, n: Node, x: Node, r: Tree, y: Node)
    requires Sorted(Inorder(T(l, n, r))) && x !in Nodes(T(l, n, r))
    requires y in Nodes(T(l, n, r)) + {x}
    ensures var t := T(T(l, n, Leaf), x, r);
      && Nodes(t) == Nodes(T(l, n, r)) + {x}
      && Fields(t, y) == if y == x then Entry(n, Root(r)) else if y == n then Entry(Root(l), null) else Fields(T(l, n, r), y)
  {
    SortedParts(T(l, n, r));
    assert Nodes(T(l, n, Leaf)) == Nodes(l) + {n};
  }
}
