/** The splay tree of linked nodes and its operations. */
module SplayTree {
  import opened SplayShape
  import opened SplaySurgery
  import opened SplayFunction

  class Splay {
    var root: Node?
    ghost var shape: Tree
    ghost var turns: nat // that the loops of all splays have made

    ghost predicate Valid()
      reads this, Nodes(shape)
    {
      root == Root(shape) && Linked(shape) && Sorted(Inorder(shape))
    }

    /** SPLAY_INIT */
    constructor ()
      ensures Valid() && shape == Leaf && turns == 0
    {
      root, shape, turns := null, Leaf, 0;
    }

    /** A splay is under way: the nodes spell out `c`, and the root is that of the middle. */
    ghost predicate Open(c: Config, header: Node)
      reads this, header, AllNodes(c)
    {
      Laid(c, header) && c.mid.T? && root == c.mid.node
    }

    lemma MidLinks(c: Config, header: Node)
      requires Open(c, header)
      ensures root.left == Root(c.mid.left) && root.right == Root(c.mid.right)
      ensures c.mid.node in AllNodes(c)
      ensures (c.mid.left.T? ==> c.mid.left.node in AllNodes(c)) && (c.mid.right.T? ==> c.mid.right.node in AllNodes(c))
    {
      MidEntries(c, Hole(L, c.ls), Hole(R, c.rs));
    }

    /** SPLAY_ROTATE_RIGHT, as pointer assignments among the nodes `all`. */
    method RelinkRight(tmp: Node, ghost all: set<Node>)
      requires root != null && root in all && tmp in all && tmp == root.left && tmp != root
      modifies this`root, all
      ensures root == tmp
      ensures forall x :: x in all ==>
        var e := old(EntryOf(x));
        EntryOf(x) == if x == old(root) then e.(left := old(tmp.right)) else if x == tmp then e.(right := old(root)) else e
    {
      root.left := tmp.right;
      tmp.right := root;
      root := tmp;
    }

    method RotateRight(tmp: Node, ghost c: Config, ghost header: Node)
      requires Open(c, header) && c.mid.left.T? && tmp == c.mid.left.node
      modifies this`root, AllNodes(c)
      ensures Open(c.(mid := TurnRight(c.mid)), header)
      ensures Order(c.(mid := TurnRight(c.mid))) == Order(c)
      ensures AllNodes(c.(mid := TurnRight(c.mid))) == AllNodes(c)
    {
      ghost var c', hl, hr := c.(mid := TurnRight(c.mid)), Hole(L, c.ls), Hole(R, c.rs);
      MidNodes(c);
      MidEntries(c, hl, hr);
      TurnRightConfig(c, hl, hr, tmp);
      RelinkRight(tmp, AllNodes(c));
      forall x | x in AllNodes(c) ensures EntryOf(x) == ConfigFields(c', hl, hr, x) {
        TurnRightConfig(c, hl, hr, x);
      }
    }

    /** SPLAY_ROTATE_LEFT, as pointer assignments among the nodes `all`. */
    method RelinkLeft(tmp: Node, ghost all: set<Node>)
      requires root != null && root in all && tmp in all && tmp == root.right && tmp != root
      modifies this`root, all
      ensures root == tmp
      ensures forall x :: x in all ==>
        var e := old(EntryOf(x));
        EntryOf(x) == if x == old(root) then e.(right := old(tmp.left)) else if x == tmp then e.(left := old(root)) else e
    {
      root.right := tmp.left;
      tmp.left := root;
      root := tmp;
    }

    method RotateLeft(tmp: Node, ghost c: Config, ghost header: Node)
      requires Open(c, header) && c.mid.right.T? && tmp == c.mid.right.node
      modifies this`root, AllNodes(c)
      ensures Open(c.(mid := TurnLeft(c.mid)), header)
      ensures Order(c.(mid := TurnLeft(c.mid))) == Order(c)
      ensures AllNodes(c.(mid := TurnLeft(c.mid))) == AllNodes(c)
    {
      ghost var c', hl, hr := c.(mid := TurnLeft(c.mid)), Hole(L, c.ls), Hole(R, c.rs);
      MidNodes(c);
      MidEntries(c, hl, hr);
      TurnLeftConfig(c, hl, hr, tmp);
      RelinkLeft(tmp, AllNodes(c));
      forall x | x in AllNodes(c) ensures EntryOf(x) == ConfigFields(c', hl, hr, x) {
        TurnLeftConfig(c, hl, hr, x);
      }
    }

    /** SPLAY_LINKLEFT; `last` is the node whose left field is open. */
    method LinkLeft(last: Node, ghost c: Config, header: Node) returns (tmp: Node)
      requires Open(c, header) && c.mid.left.T? && last == Last(c.rs, header)
      modifies this`root, header, AllNodes(c)
      ensures Open(ToRight(c), header) && tmp == Last(ToRight(c).rs, header)
      ensures Order(ToRight(c)) == Order(c) && AllNodes(ToRight(c)) == AllNodes(c)
    {
      ghost var c', hl, hr := ToRight(c), Hole(L, c.ls), Hole(R, c.rs);
      MidNodes(c);
      MidEntries(c, hl, hr);
      LinkOrder(c);
      OuterEnds(c);
      tmp := last;
      tmp.left := root;
      tmp := root;
      root := root.left;
      forall x | x in AllNodes(c) ensures EntryOf(x) == ConfigFields(c', hl, Root(c.mid.left), x) {
        ToRightFields(c, hl, hr, x);
      }
      LinkNodes(c);
      OuterEnds(c');
      assert Hole(R, c'.rs) == Root(c.mid.left);
      assert header.right == Outer(c'.ls, header.right) && header.left == Outer(c'.rs, header.left);
    }

    /** SPLAY_LINKRIGHT; `last` is the node whose right field is open. */
    method LinkRight(last: Node, ghost c: Config, header: Node) returns (tmp: Node)
      requires Open(c, header) && c.mid.right.T? && last == Last(c.ls, header)
      modifies this`root, header, AllNodes(c)
      ensures Open(ToLeft(c), header) && tmp == Last(ToLeft(c).ls, header)
      ensures Order(ToLeft(c)) == Order(c) && AllNodes(ToLeft(c)) == AllNodes(c)
    {
      ghost var c', hl, hr := ToLeft(c), Hole(L, c.ls), Hole(R, c.rs);
      MidNodes(c);
      MidEntries(c, hl, hr);
      LinkOrder(c);
      OuterEnds(c);
      tmp := last;
      tmp.right := root;
      tmp := root;
      root := root.right;
      forall x | x in AllNodes(c) ensures EntryOf(x) == ConfigFields(c', Root(c.mid.right), hr, x) {
        ToLeftFields(c, hl, hr, x);
      }
      LinkNodes(c);
      OuterEnds(c');
      assert Hole(L, c'.ls) == Root(c.mid.right);
      assert header.right == Outer(c'.ls, header.right) && header.left == Outer(c'.rs, header.left);
    }

    /** One turn of a splay loop towards the left, below a root with a left child `tmp`. */
    method GoLeft(tmp: Node, rotate: bool, last: Node, ghost c: Config, header: Node, ghost k: int)
      returns (done: bool, last': Node, ghost c': Config)
      requires Open(c, header) && c.mid.left.T? && tmp == c.mid.left.node && last == Last(c.rs, header)
      requires k < root.key && rotate == (k < tmp.key)
      modifies this`root, header, AllNodes(c)
      ensures Open(c', header) && last' == Last(c'.rs, header) && c'.ls == c.ls
      ensures Order(c') == Order(c) && AllNodes(c') == AllNodes(c) && Advanced(c, k, done, c', 1)
    {
      c', last' := c, last;
      if rotate {
        RotateRight(tmp, c, header);
        c' := c.(mid := TurnRight(c.mid));
        MidEntries(c', Hole(L, c'.ls), Hole(R, c'.rs));
        if root.left == null {
          TurnedOnce(c, k, true, c');
          return true, last', c';
        }
      }
      last' := LinkLeft(last, c', header);
      done, c' := false, ToRight(c');
      TurnedOnce(c, k, done, c');
    }

    /** One turn of a splay loop towards the right, below a root with a right child `tmp`. */
    method GoRight(tmp: Node, rotate: bool, last: Node, ghost c: Config, header: Node, ghost k: int)
      returns (done: bool, last': Node, ghost c': Config)
      requires Open(c, header) && c.mid.right.T? && tmp == c.mid.right.node && last == Last(c.ls, header)
      requires k > root.key && rotate == (k > tmp.key)
      modifies this`root, header, AllNodes(c)
      ensures Open(c', header) && last' == Last(c'.ls, header) && c'.rs == c.rs
      ensures Order(c') == Order(c) && AllNodes(c') == AllNodes(c) && Advanced(c, k, done, c', 1)
    {
      c', last' := c, last;
      if rotate {
        RotateLeft(tmp, c, header);
        c' := c.(mid := TurnLeft(c.mid));
        MidEntries(c', Hole(L, c'.ls), Hole(R, c'.rs));
        if root.right == null {
          TurnedOnce(c, k, true, c');
          return true, last', c';
        }
      }
      last' := LinkRight(last, c', header);
      done, c' := false, ToLeft(c');
      TurnedOnce(c, k, done, c');
    }

    /** SPLAY_ASSEMBLE */
    method Assemble(node: Node, left: Node, right: Node, ghost c: Config)
      requires Open(c, node) && left == Last(c.ls, node) && right == Last(c.rs, node)
      modifies this`shape, node, AllNodes(c)
      ensures Valid() && shape == Assembled(c) && Inorder(shape) == Order(c) && Nodes(shape) == AllNodes(c)
    {
      ghost var hl, hr := Hole(L, c.ls), Hole(R, c.rs);
      MidNodes(c);
      MidEntries(c, hl, hr);
      OuterEnds(c);
      AssembledSorted(c);
      left.right := root.left;
      right.left := root.right;
      root.left := node.right;
      root.right := node.left;
      forall x | x in AllNodes(c) ensures EntryOf(x) == Fields(Assembled(c), x) {
        AssembledFields(c, hl, hr, x);
      }
      shape := Assembled(c);
    }

    /** One round of the splay loop for a key on the left; `stop` where the source breaks out. */
    method RoundLeft(elm: Node, last: Node, ghost c: Config, node: Node)
      returns (stop: bool, last': Node, ghost c': Config)
      requires Open(c, node) && last == Last(c.rs, node) && elm.key - root.key < 0
      modifies this`root, this`turns, node, AllNodes(c)
      ensures Open(c', node) && last' == Last(c'.rs, node) && c'.ls == c.ls
      ensures Order(c') == Order(c) && AllNodes(c') == AllNodes(c)
      ensures turns >= old(turns) && Advanced(c, elm.key, stop, c', turns - old(turns))
    {
      MidLinks(c, node);
      var tmp := root.left;
      if tmp == null {
        StoppedHere(c, elm.key);
        return true, last, c;
      }
      stop, last', c' := GoLeft(tmp, elm.key - tmp.key < 0, last, c, node, elm.key);
      turns := turns + 1;
    }

    /** One round of the splay loop for a key on the right; `stop` where the source breaks out. */
    method RoundRight(elm: Node, last: Node, ghost c: Config, node: Node)
      returns (stop: bool, last': Node, ghost c': Config)
      requires Open(c, node) && last == Last(c.ls, node) && elm.key - root.key > 0
      modifies this`root, this`turns, node, AllNodes(c)
      ensures Open(c', node) && last' == Last(c'.ls, node) && c'.rs == c.rs
      ensures Order(c') == Order(c) && AllNodes(c') == AllNodes(c)
      ensures turns >= old(turns) && Advanced(c, elm.key, stop, c', turns - old(turns))
    {
      MidLinks(c, node);
      var tmp := root.right;
      if tmp == null {
        StoppedHere(c, elm.key);
        return true, last, c;
      }
      stop, last', c' := GoRight(tmp, elm.key - tmp.key > 0, last, c, node, elm.key);
      turns := turns + 1;
    }

    /** One round of the splay loop. */
    method Round(elm: Node, left: Node, right: Node, ghost c: Config, node: Node)
      returns (stop: bool, left': Node, right': Node, ghost c': Config)
      requires Open(c, node) && left == Last(c.ls, node) && right == Last(c.rs, node) && elm.key != root.key
      modifies this`root, this`turns, node, AllNodes(c)
      ensures Open(c', node) && left' == Last(c'.ls, node) && right' == Last(c'.rs, node)
      ensures Order(c') == Order(c) && AllNodes(c') == AllNodes(c)
      ensures turns >= old(turns) && Advanced(c, elm.key, stop, c', turns - old(turns))
    {
      left', right' := left, right;
      if elm.key - root.key < 0 {
        stop, right', c' := RoundLeft(elm, right, c, node);
      } else {
        stop, left', c' := RoundRight(elm, left, c, node);
      }
    }

    /** SPLAY: brings the node with the key of `elm`, or one next to it, to the root. */
    method SplayTo(elm: Node)
      requires Valid() && root != null
      modifies this, Nodes(shape)
      ensures Valid() && Inorder(shape) == old(Inorder(shape)) && Nodes(shape) == old(Nodes(shape))
      ensures Near(shape, elm.key)
      ensures shape == Splayed(old(shape), elm.key) && turns == old(turns) + Turns(old(shape), elm.key)
    {
      NodesAllocated(shape);
      var node := new Node(0);
      ghost var c := Config(Nil, shape, Nil);
      StartConfig(shape);
      FinishStart(shape, elm.key);
      var left, right, stop := node, node, false;
      while !stop && elm.key - root.key != 0
        invariant Open(c, node) && left == Last(c.ls, node) && right == Last(c.rs, node)
        invariant Order(c) == old(Inorder(shape)) && AllNodes(c) == old(Nodes(shape))
        invariant Around(c, elm.key) && (stop ==> Stops(c.mid, elm.key))
        invariant Finish(c, elm.key) == Splayed(old(shape), elm.key)
        invariant turns + Turns(c.mid, elm.key) == old(turns) + Turns(old(shape), elm.key)
        decreases |Inorder(c.mid)|, !stop
      {
        stop, left, right, c := Round(elm, left, right, c, node);
      }
      AssembledNear(c, elm.key);
      FinishStopped(c, elm.key);
      Assemble(node, left, right, c);
    }

    /** One round of SPLAY_MINMAX's loop to the left, for a `k` beyond all keys on that side. */
    method OutLeft(last: Node, ghost c: Config, node: Node, ghost k: int)
      returns (stop: bool, last': Node, ghost c': Config)
      requires Open(c, node) && last == Last(c.rs, node) && forall x :: x in AllNodes(c) ==> k < x.key
      modifies this`root, this`turns, node, AllNodes(c)
      ensures Open(c', node) && last' == Last(c'.rs, node) && c'.ls == c.ls
      ensures Order(c') == Order(c) && AllNodes(c') == AllNodes(c)
      ensures turns >= old(turns) && Advanced(c, k, stop, c', turns - old(turns))
    {
      MidLinks(c, node);
      var tmp := root.left;
      if tmp == null {
        StoppedHere(c, k);
        return true, last, c;
      }
      stop, last', c' := GoLeft(tmp, true, last, c, node, k);
      turns := turns + 1;
    }

    /** One round of SPLAY_MINMAX's loop to the right, for a `k` beyond all keys on that side. */
    method OutRight(last: Node, ghost c: Config, node: Node, ghost k: int)
      returns (stop: bool, last': Node, ghost c': Config)
      requires Open(c, node) && last == Last(c.ls, node) && forall x :: x in AllNodes(c) ==> k > x.key
      modifies this`root, this`turns, node, AllNodes(c)
      ensures Open(c', node) && last' == Last(c'.ls, node) && c'.rs == c.rs
      ensures Order(c') == Order(c) && AllNodes(c') == AllNodes(c)
      ensures turns >= old(turns) && Advanced(c, k, stop, c', turns - old(turns))
    {
      MidLinks(c, node);
      var tmp := root.right;
      if tmp == null {
        StoppedHere(c, k);
        return true, last, c;
      }
      stop, last', c' := GoRight(tmp, true, last, c, node, k);
      turns := turns + 1;
    }

    /** One round of SPLAY_MINMAX's loop, which always goes to the side of `val`, and nowhere if
        that is zero. */
    method RoundOut(val: int, left: Node, right: Node, ghost c: Config, node: Node, ghost k: int)
      returns (stop: bool, left': Node, right': Node, ghost c': Config)
      requires Open(c, node) && left == Last(c.ls, node) && right == Last(c.rs, node)
      requires val != 0 ==> forall x :: x in AllNodes(c) ==> if val < 0 then k < x.key else x.key < k
      modifies this`root, this`turns, node, AllNodes(c)
      ensures Open(c', node) && left' == Last(c'.ls, node) && right' == Last(c'.rs, node)
      ensures Order(c') == Order(c) && AllNodes(c') == AllNodes(c)
      ensures val != 0 ==> turns >= old(turns) && Advanced(c, k, stop, c', turns - old(turns))
      ensures if val < 0 then c'.ls == c.ls else c'.rs == c.rs
      ensures val == 0 ==> !stop && c' == c && root == old(root) && left' == left && right' == right && turns == old(turns)
    {
      stop, left', right', c' := false, left, right, c;
      if val < 0 {
        stop, right', c' := OutLeft(right, c, node, k);
      } else if val > 0 {
        stop, left', c' := OutRight(left, c, node, k);
      }
    }

    /** SPLAY_MINMAX; `k` lies beyond all keys on the side of `val`. */
    method MinMaxTo(val: int, ghost k: int)
      requires Valid() && root != null && val != 0
      requires forall x :: x in Nodes(shape) ==> if val < 0 then k < x.key else x.key < k
      modifies this, Nodes(shape)
      ensures Valid() && Inorder(shape) == old(Inorder(shape)) && Nodes(shape) == old(Nodes(shape))
      ensures if val < 0 then shape.left == Leaf else shape.right == Leaf
      ensures shape == Splayed(old(shape), k) && turns == old(turns) + Turns(old(shape), k)
    {
      ghost var goal, total := Splayed(shape, k), turns + Turns(shape, k);
      NodesAllocated(shape);
      var node := new Node(0);
      ghost var c := Config(Nil, shape, Nil);
      StartConfig(shape);
      FinishStart(shape, k);
      var left, right, stop := node, node, false;
      while !stop
        invariant Open(c, node) && left == Last(c.ls, node) && right == Last(c.rs, node)
        invariant Order(c) == old(Inorder(shape)) && AllNodes(c) == old(Nodes(shape))
        invariant if val < 0 then c.ls == Nil else c.rs == Nil
        invariant stop ==> Stops(c.mid, k)
        invariant Finish(c, k) == goal && turns + Turns(c.mid, k) == total
        decreases |Inorder(c.mid)|, !stop
      {
        stop, left, right, c := RoundOut(val, left, right, c, node, k);
      }
      StoppedOutside(c, k, val < 0);
      FinishStopped(c, k);
      Assemble(node, left, right, c);
    }

    /** SPLAY_MIN and SPLAY_MAX */
    method MinMax(val: int) returns (res: Node?)
      requires Valid() && val != 0
      modifies this, Nodes(shape)
      ensures Valid() && Inorder(shape) == old(Inorder(shape)) && Nodes(shape) == old(Nodes(shape))
      ensures old(shape) == Leaf ==> shape == Leaf && turns == old(turns)
      ensures old(shape).T? ==>
        var k := Outside(old(shape), val < 0); shape == Splayed(old(shape), k) && turns == old(turns) + Turns(old(shape), k)
      ensures if |Inorder(shape)| == 0 then res == null
              else res == Inorder(shape)[if val < 0 then 0 else |Inorder(shape)| - 1]
    {
      if root == null {
        return null;
      }
      ghost var k := Outside(shape, val < 0);
      OutsideBound(shape, val < 0);
      MinMaxTo(val, k);
      res := root;
    }

    /** SPLAY_FIND */
    method Find(elm: Node) returns (res: Node?)
      requires Valid()
      modifies this, Nodes(shape)
      ensures Valid() && Inorder(shape) == old(Inorder(shape)) && Nodes(shape) == old(Nodes(shape))
      ensures shape == (if old(shape).T? then Splayed(old(shape), elm.key) else Leaf)
      ensures turns == old(turns) + Turns(old(shape), elm.key)
      ensures res != null ==> res in Nodes(shape) && res.key == elm.key && res == root
      ensures res == null ==> forall x :: x in Nodes(shape) ==> x.key != elm.key
    {
      if root == null {
        return null;
      }
      SplayTo(elm);
      if elm.key - root.key == 0 {
        return root;
      }
      SplitByKey(shape, elm);
      res := null;
    }

    /** SPLAY_NEXT, from the i-th node. */
    method Next(node: Node, ghost i: nat) returns (elm: Node?)
      requires Valid() && i < |Inorder(shape)| && Inorder(shape)[i] == node
      modifies this, Nodes(shape)
      ensures Valid() && Inorder(shape) == old(Inorder(shape)) && Nodes(shape) == old(Nodes(shape))
      ensures elm == if i + 1 < |Inorder(shape)| then Inorder(shape)[i + 1] else null
    {
      InorderNodes(shape, node);
      SplayTo(node);
      NearDecides(shape, node.key, node);
      CutAt(Inorder(shape.left), node, Inorder(shape.right));
      SubLinked(shape);
      elm := node;
      if elm.right != null {
        SortedParts(shape);
        NodesAllocated(shape);
        elm := Leftmost(elm.right, shape.right);
      } else {
        elm := null;
      }
    }

    /** Down the left links, as in SPLAY_NEXT. */
    static method Leftmost(node: Node, ghost t: Tree) returns (elm: Node)
      requires t.T? && node == t.node && Linked(t) && Sorted(Inorder(t))
      ensures elm == Inorder(t)[0]
    {
      elm := node;
      ghost var u := t;
      SubLinked(u);
      while elm.left != null
        invariant u.T? && elm == u.node && elm.left == Root(u.left)
        invariant Linked(u) && Sorted(Inorder(u)) && Inorder(u)[0] == Inorder(t)[0]
        decreases u
      {
        SubLinked(u);
        SortedParts(u);
        elm := elm.left;
        u := u.left;
        SubLinked(u);
      }
    }

    /** SPLAY_INSERT's relinking when the element goes right before the root. */
    method PutBefore(elm: Node)
      requires Valid() && Near(shape, elm.key) && elm.key < root.key
      modifies this`root, this`shape, Nodes(shape), elm
      ensures Valid() && Nodes(shape) == old(Nodes(shape)) + {elm}
      ensures var l, n, r := old(shape.left), old(shape.node), old(shape.right); shape == T(l, elm, T(Leaf, n, r))
    {
      ghost var l, n, r := shape.left, shape.node, shape.right;
      SubLinked(shape);
      SortedParts(shape);
      SplitByKey(shape, elm);
      SplitBefore(l, elm, n, r);
      elm.left := root.left;
      elm.right := root;
      root.left := null;
      root := elm;
      forall x | x in Nodes(shape) + {elm} ensures EntryOf(x) == Fields(T(l, elm, T(Leaf, n, r)), x) {
        BeforeFields(l, elm, n, r, x);
      }
      BeforeFields(l, elm, n, r, elm);
      shape := T(l, elm, T(Leaf, n, r));
    }

    /** SPLAY_INSERT's relinking when the element goes right after the root. */
    method PutAfter(elm: Node)
      requires Valid() && Near(shape, elm.key) && elm.key > root.key
      modifies this`root, this`shape, Nodes(shape), elm
      ensures Valid() && Nodes(shape) == old(Nodes(shape)) + {elm}
      ensures var l, n, r := old(shape.left), old(shape.node), old(shape.right); shape == T(T(l, n, Leaf), elm, r)
    {
      ghost var l, n, r := shape.left, shape.node, shape.right;
      SubLinked(shape);
      SortedParts(shape);
      SplitByKey(shape, elm);
      SplitAfter(l, n, elm, r);
      elm.right := root.right;
      elm.left := root;
      root.right := null;
      root := elm;
      forall x | x in Nodes(shape) + {elm} ensures EntryOf(x) == Fields(T(T(l, n, Leaf), elm, r), x) {
        AfterFields(l, n, elm, r, x);
      }
      AfterFields(l, n, elm, r, elm);
      shape := T(T(l, n, Leaf), elm, r);
    }

    /** SPLAY_INSERT. `at` is where the element went. */
    method Insert(elm: Node) returns (res: Node?, ghost at: nat)
      requires Valid()
      modifies this, Nodes(shape), elm
      ensures Valid()
      ensures shape == Put(old(shape), elm) && turns == old(turns) + Turns(old(shape), elm.key)
      ensures res != null ==>
        res in Nodes(shape) && res.key == elm.key && Inorder(shape) == old(Inorder(shape)) && Nodes(shape) == old(Nodes(shape))
      ensures res == null ==>
        && (forall x :: x in old(Nodes(shape)) ==> x.key != elm.key)
        && at <= |old(Inorder(shape))|
        && Inorder(shape) == old(Inorder(shape))[..at] + [elm] + old(Inorder(shape))[at..]
        && Nodes(shape) == old(Nodes(shape)) + {elm}
    {
      at := 0;
      if root == null {
        elm.left, elm.right := null, null;
        shape := T(Leaf, elm, Leaf);
      } else {
        SplayTo(elm);
        var comp := elm.key - root.key;
        if comp == 0 {
          return root, at;
        }
        at := PutBeside(elm, comp);
      }
      root := elm;
      res := null;
    }

    /** SPLAY_INSERT's relinking of a new element, on either side of the root. */
    method PutBeside(elm: Node, comp: int) returns (ghost at: nat)
      requires Valid() && Near(shape, elm.key) && comp == elm.key - root.key != 0
      modifies this`root, this`shape, Nodes(shape), elm
      ensures Valid() && root == elm
      ensures forall x :: x in old(Nodes(shape)) ==> x.key != elm.key
      ensures var l, n, r := old(shape.left), old(shape.node), old(shape.right);
        shape == if comp < 0 then T(l, elm, T(Leaf, n, r)) else T(T(l, n, Leaf), elm, r)
      ensures at <= |old(Inorder(shape))|
      ensures Inorder(shape) == old(Inorder(shape))[..at] + [elm] + old(Inorder(shape))[at..]
      ensures Nodes(shape) == old(Nodes(shape)) + {elm}
    {
      ghost var l, n, r := shape.left, shape.node, shape.right;
      SplitByKey(shape, elm);
      if comp < 0 {
        SplitBefore(l, elm, n, r);
        PutBefore(elm);
        at := |Inorder(l)|;
      } else {
        SplitAfter(l, n, elm, r);
        PutAfter(elm);
        at := |Inorder(l)| + 1;
      }
    }

    /** The end of SPLAY_REMOVE when the node has a left subtree: the largest node of that
        subtree comes up without a right child, and the right subtree is attached there. */
    method Rejoin(elm: Node, ghost l: Tree, ghost r: Tree)
      requires root != null && root.left != null && shape.T? && l == shape.left && r == shape.right
      requires Valid() && root.key == elm.key
      modifies this, Nodes(shape)
      ensures Valid() && Inorder(shape) == Inorder(l) + Inorder(r) && Nodes(shape) == Nodes(l) + Nodes(r)
      ensures var v := Splayed(l, elm.key); shape == T(v.left, v.node, r) && turns == old(turns) + Turns(l, elm.key)
    {
      SubLinked(shape);
      SortedParts(shape);
      SortedWithout(Inorder(l), shape.node, Inorder(r));
      NodesAllocated(r);
      var tmp := root.right;
      root := root.left;
      shape := l;
      SplayTo(elm);
      LargestRoot(shape, elm.key);
      AttachRight(tmp, r);
    }

    method AttachRight(tmp: Node?, ghost r: Tree)
      requires Valid() && shape.T? && shape.right == Leaf && tmp == Root(r) && Linked(r)
      requires Nodes(r) !! Nodes(shape) && Sorted(Inorder(shape) + Inorder(r))
      modifies this`shape, Nodes(shape)
      ensures Valid() && shape == T(old(shape.left), old(shape.node), r)
      ensures Inorder(shape) == old(Inorder(shape)) + Inorder(r) && Nodes(shape) == old(Nodes(shape)) + Nodes(r)
    {
      ghost var l, n := shape.left, shape.node;
      SubLinked(shape);
      SortedParts(shape);
      assert Inorder(shape) + Inorder(r) == Inorder(l) + [n] + Inorder(r);
      root.right := tmp;
      shape := T(l, n, r);
    }

    /** SPLAY_REMOVE: the node with the key of `elm` goes, whether or not it is `elm` itself. */
    method Remove(elm: Node) returns (res: Node?, ghost at: nat)
      requires Valid()
      modifies this, Nodes(shape)
      ensures Valid() && Nodes(shape) <= old(Nodes(shape))
      ensures shape == Cut(old(shape), elm.key) && turns == old(turns) + CutTurns(old(shape), elm.key)
      ensures res == null ==> Inorder(shape) == old(Inorder(shape)) && forall x :: x in Nodes(shape) ==> x.key != elm.key
      ensures res != null ==>
        && res == elm && at < |old(Inorder(shape))| && old(Inorder(shape))[at].key == elm.key
        && Inorder(shape) == old(Inorder(shape))[..at] + old(Inorder(shape))[at + 1..]
      ensures res != null ==> (res == old(Inorder(shape))[at] <==> elm in old(Nodes(shape)))
    {
      at := 0;
      ghost var was := shape;
      if root == null {
        return null, at;
      }
      SplayTo(elm);
      if elm.key - root.key == 0 {
        SubLinked(shape);
        SortedParts(shape);
        CutAt(Inorder(shape.left), shape.node, Inorder(shape.right));
        at := |Inorder(shape.left)|;
        OwnNode(was, at, elm);
        if root.left == null {
          root := root.right;
          shape := shape.right;
        } else {
          Rejoin(elm, shape.left, shape.right);
        }
        return elm, at;
      }
      SplitByKey(shape, elm);
      res := null;
    }

    /** SPLAY_FOREACH: the nodes its body sees, although every step reshapes the tree. */
    method ForEach() returns (visited: seq<Node>)
      requires Valid()
      modifies this, Nodes(shape)
      ensures Valid() && Inorder(shape) == old(Inorder(shape)) && visited == Inorder(shape)
    {
      ghost var all, nodes := Inorder(shape), Nodes(shape);
      visited := [];
      var x := MinMax(-1);
      while x != null
        invariant Valid() && Inorder(shape) == all && Nodes(shape) == nodes
        invariant visited <= all && x == if |visited| < |all| then all[|visited|] else null
        decreases |all| - |visited|
      {
        var y := Next(x, |visited|);
        LongerPrefix(visited, all);
        visited := visited + [x];
        x := y;
      }
    }
  }
}
