/** The red-black tree of linked nodes and its operations. */
module RedBlackTree {
  import opened RbShape
  import opened RbSurgery
  import opened RbBalance
  import opened RbSearch

  class RbTree {
    var root: Node?
    ghost var shape: Tree
    ghost var rotations: nat

    /** The pointers spell out `shape`, and it is in key order. */
    ghost predicate Shaped()
      reads this, Nodes(shape)
    {
      root == Root(shape) && Linked(shape) && Sorted(Inorder(shape))
    }

    ghost predicate Valid()
      reads this, Nodes(shape)
    {
      Shaped() && RedBlack(shape)
    }

    /** RB_INIT */
    constructor ()
      ensures Valid() && shape == Leaf && rotations == 0
    {
      root, shape, rotations := null, Leaf, 0;
    }

    /** RB_COLOR(n) = c, for the node at a position of the tree. */
    method Paint(n: Node, c: Color, ghost p: Path, ghost s: Tree)
      requires Shaped() && shape == Plug(p, s) && s.T? && s.node == n
      modifies this`shape, n`color
      ensures Shaped() && shape == Plug(p, s.(color := c))
      ensures Nodes(shape) == old(Nodes(shape)) && Inorder(shape) == old(Inorder(shape))
    {
      ghost var s' := s.(color := c);
      ghost var shape' := Plug(p, s');
      SwapInorder(p, s, s');
      PlugNodes(p, s);
      n.color := c;
      forall x | x in Nodes(shape)
        ensures EntryOf(x) == Fields(shape', null, x)
      {
        SwapFields(p, s, s', x);
        if x in Nodes(s) {
          PlugFields(p, s, x);
        } else if x == Parent(p) {
          StepFields(p, s);
        }
      }
      PlugRoot(p, s, s');
      shape := shape';
    }

    /** RB_ROTATE_LEFT, as pointer assignments among the nodes `all`. */
    method RelinkLeft(elm: Node, ghost all: set<Node>) returns (tmp: Node)
      requires elm in all && elm.right != null && elm.right in all && elm.right != elm
      requires elm.right.left != null ==> elm.right.left in all && elm.right.left !in {elm, elm.right}
      requires elm.parent != null ==> elm.parent in all && elm.parent !in {elm, elm.right} && elm.parent != elm.right.left
      modifies this`root, all`left, all`right, all`parent
      ensures tmp == old(elm.right)
      ensures root == if old(elm.parent) == null then tmp else old(root)
      ensures forall x :: x in all ==>
        EntryOf(x) == TurnedLeft(old(EntryOf(x)), x, elm, tmp, old(elm.right.left), old(elm.parent),
                                     if old(elm.parent != null && elm.parent.left != elm) then R else L)
    {
      tmp := elm.right;
      elm.right := tmp.left;
      if elm.right != null {
        tmp.left.parent := elm;
      }
      tmp.parent := elm.parent;
      if tmp.parent != null {
        if elm == elm.parent.left {
          elm.parent.left := tmp;
        } else {
          elm.parent.right := tmp;
        }
      } else {
        root := tmp;
      }
      tmp.left := elm;
      elm.parent := tmp;
    }

    /** What RB_ROTATE_LEFT does to the tree. */
    method RotateLeft(elm: Node, ghost p: Path, ghost s: Tree) returns (tmp: Node)
      requires Shaped() && shape == Plug(p, s) && s.T? && s.node == elm && s.right.T?
      modifies this`root, this`shape, this`rotations, Nodes(shape)`left, Nodes(shape)`right, Nodes(shape)`parent
      ensures Shaped() && shape == Plug(p, TurnLeft(s)) && tmp == s.right.node
      ensures Nodes(shape) == old(Nodes(shape)) && Inorder(shape) == old(Inorder(shape))
      ensures rotations == old(rotations) + 1
    {
      ghost var s' := TurnLeft(s);
      TurnLeftInorder(s);
      SwapInorder(p, s, s');
      TurnAt(p, s, s.right);
      tmp := RelinkLeft(elm, Nodes(shape));
      forall x | x in Nodes(shape) ensures EntryOf(x) == Fields(Plug(p, s'), null, x) {
        TurnLeftFields(p, s, x);
      }
      PlugRoot(p, s, s');
      shape := Plug(p, s');
      rotations := rotations + 1;
    }

    /** RB_ROTATE_RIGHT, as pointer assignments among the nodes `all`. */
    method RelinkRight(elm: Node, ghost all: set<Node>) returns (tmp: Node)
      requires elm in all && elm.left != null && elm.left in all && elm.left != elm
      requires elm.left.right != null ==> elm.left.right in all && elm.left.right !in {elm, elm.left}
      requires elm.parent != null ==> elm.parent in all && elm.parent !in {elm, elm.left} && elm.parent != elm.left.right
      modifies this`root, all`left, all`right, all`parent
      ensures tmp == old(elm.left)
      ensures root == if old(elm.parent) == null then tmp else old(root)
      ensures forall x :: x in all ==>
        EntryOf(x) == TurnedRight(old(EntryOf(x)), x, elm, tmp, old(elm.left.right), old(elm.parent),
                                     if old(elm.parent != null && elm.parent.left != elm) then R else L)
    {
      tmp := elm.left;
      elm.left := tmp.right;
      if elm.left != null {
        tmp.right.parent := elm;
      }
      tmp.parent := elm.parent;
      if tmp.parent != null {
        if elm == elm.parent.left {
          elm.parent.left := tmp;
        } else {
          elm.parent.right := tmp;
        }
      } else {
        root := tmp;
      }
      tmp.right := elm;
      elm.parent := tmp;
    }

    /** What RB_ROTATE_RIGHT does to the tree. */
    method RotateRight(elm: Node, ghost p: Path, ghost s: Tree) returns (tmp: Node)
      requires Shaped() && shape == Plug(p, s) && s.T? && s.node == elm && s.left.T?
      modifies this`root, this`shape, this`rotations, Nodes(shape)`left, Nodes(shape)`right, Nodes(shape)`parent
      ensures Shaped() && shape == Plug(p, TurnRight(s)) && tmp == s.left.node
      ensures Nodes(shape) == old(Nodes(shape)) && Inorder(shape) == old(Inorder(shape))
      ensures rotations == old(rotations) + 1
    {
      ghost var s' := TurnRight(s);
      TurnRightInorder(s);
      SwapInorder(p, s, s');
      TurnAt(p, s, s.left);
      tmp := RelinkRight(elm, Nodes(shape));
      forall x | x in Nodes(shape) ensures EntryOf(x) == Fields(Plug(p, s'), null, x) {
        TurnRightFields(p, s, x);
      }
      PlugRoot(p, s, s');
      shape := Plug(p, s');
      rotations := rotations + 1;
    }

    /** RB_SET_BLACKRED, for a node `black` below a node `red`. */
    method SetBlackRed(black: Node, red: Node, ghost p: Path, ghost s: Tree)
      requires Shaped() && shape == Plug(p, s) && s.T? && s.node == black && p.Step? && p.node == red
      modifies this`shape, black`color, red`color
      ensures Shaped() && shape == Plug(p.(color := Red), s.(color := Black))
      ensures Nodes(shape) == old(Nodes(shape)) && Inorder(shape) == old(Inorder(shape))
    {
      Paint(black, Black, p, s);
      Paint(red, Red, p.up, Join(p.side, p.color, s.(color := Black), p.node, p.other));
    }

    /** The fields of the node at a position of the tree. */
    lemma Here(p: Path, s: Tree)
      requires Shaped() && shape == Plug(p, s) && s.T?
      ensures s.node in Nodes(shape)
      ensures EntryOf(s.node) == Entry(Root(s.left), Root(s.right), Parent(p), s.color)
      ensures p.Step? ==> Root(p.other) != s.node
    {
      PlugFields(p, s, s.node);
      if p.Step? {
        StepFields(p, s);
      }
    }

    /** The first rotation there, when the node is the inner child; the node and its parent
        change places. */
    method StraightenLeft(node: Node, parent0: Node, ghost at: Path, ghost below: Tree)
      returns (elm: Node, parent: Node, ghost s: Tree)
      requires Shaped() && shape == Plug(at, below) && below.T? && at.Step? && node == below.node && parent0 == at.node
      modifies this, Nodes(shape)
      ensures Shaped() && Inorder(shape) == old(Inorder(shape)) && Nodes(shape) == old(Nodes(shape))
      ensures var u := Join(at.side, at.color, below, at.node, at.other);
        s == if at.side == R then TurnLeft(u) else u
      ensures shape == Plug(at.up, s) && parent == s.node && elm == s.left.node && rotations <= old(rotations) + 1
    {
      elm, parent, s := node, parent0, Join(at.side, at.color, below, at.node, at.other);
      Here(at.up, s);
      if parent.right == elm {
        Here(at, below);
        var tmp := RotateLeft(parent, at.up, s);
        s := TurnLeft(s);
        tmp := parent;
        parent := elm;
        elm := tmp;
      }
    }

    /** The rotating end of RB_INSERT_COLOR, for a parent that is a left child. */
    method InsertRotateLeft(node: Node, parent0: Node, gparent: Node, ghost at: Path, ghost below: Tree)
      returns (elm: Node, ghost p: Path, ghost s: Tree)
      requires Shaped() && shape == Plug(at, below) && InsertHole(at, below) && RedAbove(at)
      requires node == below.node && parent0 == at.node && gparent == at.up.node
      requires at.up.side == L && ColorOf(at.up.other) == Black
      modifies this, Nodes(shape)
      ensures Shaped() && Inorder(shape) == old(Inorder(shape)) && Nodes(shape) == old(Nodes(shape))
      ensures shape == Plug(p, s) && InsertHole(p, s) && elm == s.node
      ensures p.Step? && p.color == Black && p.up == at.up.up && rotations <= old(rotations) + 2
    {
      var parent, tmp;
      ghost var g, s1 := at.up, below;
      elm, parent, s1 := StraightenLeft(node, parent0, at, below);
      Here(g, s1);
      Here(g.up, Join(g.side, g.color, s1, g.node, g.other));
      SetBlackRed(parent, gparent, g, s1);
      tmp := RotateRight(gparent, g.up, T(Red, s1.(color := Black), g.node, g.other));
      p, s := Step(g.up, L, Black, s1.node, T(Red, s1.right, g.node, g.other)), s1.left;
      InsertCases(at, below);
    }

    /** One turn of the loop of RB_INSERT_COLOR, for a parent that is a left child. */
    method InsertTurnLeft(node: Node, parent: Node, gparent: Node, ghost at: Path, ghost below: Tree)
      returns (elm: Node, ghost p: Path, ghost s: Tree)
      requires Shaped() && shape == Plug(at, below) && InsertHole(at, below) && RedAbove(at)
      requires node == below.node && parent == at.node && gparent == at.up.node && at.up.side == L
      modifies this, Nodes(shape)
      ensures Shaped() && Inorder(shape) == old(Inorder(shape)) && Nodes(shape) == old(Nodes(shape))
      ensures shape == Plug(p, s) && InsertHole(p, s) && elm == s.node && Depth(p) < Depth(at)
      ensures rotations == old(rotations) ||
              (rotations <= old(rotations) + 2 && p.Step? && p.color == Black)
    {
      ghost var g, s1 := at.up, Join(at.side, at.color, below, at.node, at.other);
      ghost var q := Step(g.up, R, g.color, g.node, s1);
      Here(g, s1);
      Here(g.up, Join(g.side, g.color, s1, g.node, g.other));
      if g.other.T? { Here(q, g.other); }
      var tmp := gparent.right;
      if tmp != null && tmp.color == Red {
        Paint(tmp, Black, q, g.other);
        SetBlackRed(parent, gparent, Step(g.up, L, g.color, g.node, g.other.(color := Black)), s1);
        p, s := g.up, T(Red, s1.(color := Black), g.node, g.other.(color := Black));
        elm := gparent;
        InsertRecolored(at, below);
      } else {
        elm, p, s := InsertRotateLeft(node, parent, gparent, at, below);
      }
    }

    /** The first rotation there, when the node is the inner child; the node and its parent
        change places. */
    method StraightenRight(node: Node, parent0: Node, ghost at: Path, ghost below: Tree)
      returns (elm: Node, parent: Node, ghost s: Tree)
      requires Shaped() && shape == Plug(at, below) && below.T? && at.Step? && node == below.node && parent0 == at.node
      modifies this, Nodes(shape)
      ensures Shaped() && Inorder(shape) == old(Inorder(shape)) && Nodes(shape) == old(Nodes(shape))
      ensures var u := Join(at.side, at.color, below, at.node, at.other);
        s == if at.side == L then TurnRight(u) else u
      ensures shape == Plug(at.up, s) && parent == s.node && elm == s.right.node && rotations <= old(rotations) + 1
    {
      elm, parent, s := node, parent0, Join(at.side, at.color, below, at.node, at.other);
      Here(at.up, s);
      if parent.left == elm {
        Here(at, below);
        var tmp := RotateRight(parent, at.up, s);
        s := TurnRight(s);
        tmp := parent;
        parent := elm;
        elm := tmp;
      }
    }

    /** The rotating end of RB_INSERT_COLOR, for a parent that is a right child. */
    method InsertRotateRight(node: Node, parent0: Node, gparent: Node, ghost at: Path, ghost below: Tree)
      returns (elm: Node, ghost p: Path, ghost s: Tree)
      requires Shaped() && shape == Plug(at, below) && InsertHole(at, below) && RedAbove(at)
      requires node == below.node && parent0 == at.node && gparent == at.up.node
      requires at.up.side == R && ColorOf(at.up.other) == Black
      modifies this, Nodes(shape)
      ensures Shaped() && Inorder(shape) == old(Inorder(shape)) && Nodes(shape) == old(Nodes(shape))
      ensures shape == Plug(p, s) && InsertHole(p, s) && elm == s.node
      ensures p.Step? && p.color == Black && p.up == at.up.up && rotations <= old(rotations) + 2
    {
      var parent, tmp;
      ghost var g, s1 := at.up, below;
      elm, parent, s1 := StraightenRight(node, parent0, at, below);
      Here(g, s1);
      Here(g.up, Join(g.side, g.color, s1, g.node, g.other));
      SetBlackRed(parent, gparent, g, s1);
      tmp := RotateLeft(gparent, g.up, T(Red, g.other, g.node, s1.(color := Black)));
      p, s := Step(g.up, R, Black, s1.node, T(Red, g.other, g.node, s1.left)), s1.right;
      InsertCases(at, below);
    }

    /** One turn of the loop of RB_INSERT_COLOR, for a parent that is a right child. */
    method InsertTurnRight(node: Node, parent: Node, gparent: Node, ghost at: Path, ghost below: Tree)
      returns (elm: Node, ghost p: Path, ghost s: Tree)
      requires Shaped() && shape == Plug(at, below) && InsertHole(at, below) && RedAbove(at)
      requires node == below.node && parent == at.node && gparent == at.up.node && at.up.side == R
      modifies this, Nodes(shape)
      ensures Shaped() && Inorder(shape) == old(Inorder(shape)) && Nodes(shape) == old(Nodes(shape))
      ensures shape == Plug(p, s) && InsertHole(p, s) && elm == s.node && Depth(p) < Depth(at)
      ensures rotations == old(rotations) ||
              (rotations <= old(rotations) + 2 && p.Step? && p.color == Black)
    {
      ghost var g, s1 := at.up, Join(at.side, at.color, below, at.node, at.other);
      ghost var q := Step(g.up, L, g.color, g.node, s1);
      Here(g, s1);
      Here(g.up, Join(g.side, g.color, s1, g.node, g.other));
      if g.other.T? { Here(q, g.other); }
      var tmp := gparent.left;
      if tmp != null && tmp.color == Red {
        Paint(tmp, Black, q, g.other);
        SetBlackRed(parent, gparent, Step(g.up, R, g.color, g.node, g.other.(color := Black)), s1);
        p, s := g.up, T(Red, g.other.(color := Black), g.node, s1.(color := Black));
        elm := gparent;
        InsertRecolored(at, below);
      } else {
        elm, p, s := InsertRotateRight(node, parent, gparent, at, below);
      }
    }

    /** One turn of the loop of RB_INSERT_COLOR. */
    method InsertTurn(node: Node, above: Node, ghost at: Path, ghost below: Tree)
      returns (elm: Node, parent: Node?, ghost p: Path, ghost s: Tree)
      requires Shaped() && shape == Plug(at, below) && InsertHole(at, below)
      requires node == below.node && at.Step? && at.color == Red && above == at.node
      modifies this, Nodes(shape)
      ensures Shaped() && Inorder(shape) == old(Inorder(shape)) && Nodes(shape) == old(Nodes(shape))
      ensures shape == Plug(p, s) && InsertHole(p, s) && elm == s.node && Depth(p) < Depth(at)
      ensures parent == Parent(p) && (p.Step? ==> parent.color == p.color)
      ensures rotations == old(rotations) ||
              (rotations <= old(rotations) + 2 && p.Step? && p.color == Black)
    {
      ghost var g, s1 := at.up, Join(at.side, at.color, below, at.node, at.other);
      InsertAbove(at, below);
      Here(g, s1);
      Here(g.up, Join(g.side, g.color, s1, g.node, g.other));
      var gparent := above.parent;
      if above == gparent.left {
        elm, p, s := InsertTurnLeft(node, above, gparent, at, below);
      } else {
        elm, p, s := InsertTurnRight(node, above, gparent, at, below);
      }
      Here(p, s);
      Above(p, s);
      parent := elm.parent;
    }

    /** The fields of the node above a position of the tree. */
    lemma Above(p: Path, s: Tree)
      requires Shaped() && shape == Plug(p, s)
      ensures p.Step? ==> p.node in Nodes(shape) && EntryOf(p.node) == StepEntry(p, Root(s))
    {
      if p.Step? {
        StepFields(p, s);
      }
    }

    /** RB_INSERT_COLOR */
    method InsertColor(node: Node, ghost at: Path, ghost below: Tree)
      requires Shaped() && shape == Plug(at, below) && InsertHole(at, below) && node == below.node
      modifies this, Nodes(shape)
      ensures Valid() && Inorder(shape) == old(Inorder(shape)) && Nodes(shape) == old(Nodes(shape))
      ensures rotations <= old(rotations) + 2
    {
      ghost var p, s := at, below;
      Here(p, s);
      Above(p, s);
      var elm, parent := node, node.parent;
      while parent != null && parent.color == Red
        invariant Shaped() && Inorder(shape) == old(Inorder(shape)) && Nodes(shape) == old(Nodes(shape))
        invariant shape == Plug(p, s) && InsertHole(p, s) && elm == s.node && parent == Parent(p)
        invariant p.Step? ==> parent.color == p.color
        invariant rotations == old(rotations) ||
                  (rotations <= old(rotations) + 2 && p.Step? && p.color == Black)
        decreases Depth(p)
      {
        elm, parent, p, s := InsertTurn(elm, parent, p, s);
      }
      BlackenRoot(p, s);
    }

    /** The last line of RB_INSERT_COLOR. */
    method BlackenRoot(ghost p: Path, ghost s: Tree)
      requires Shaped() && shape == Plug(p, s) && InsertHole(p, s) && (p.Step? ==> p.color == Black)
      modifies this`shape, Nodes(shape)`color
      ensures Valid() && Inorder(shape) == old(Inorder(shape)) && Nodes(shape) == old(Nodes(shape))
    {
      InsertDone(p, s);
      Paint(root, Black, Top, shape);
    }

    /** The end of RB_INSERT's descent: RB_SET and the link from the parent. */
    method Attach(elm: Node, parent: Node?, comp: int, ghost p: Path)
      requires Shaped() && shape == Plug(p, Leaf) && parent == Parent(p) && Between(p, elm.key)
      requires p.Step? ==> (comp < 0 <==> p.side == L)
      modifies this`root, this`shape, elm, Nodes(shape)`left, Nodes(shape)`right
      ensures Shaped() && shape == Plug(p, T(Red, Leaf, elm, Leaf)) && elm !in old(Nodes(shape))
      ensures Nodes(shape) == old(Nodes(shape)) + {elm}
    {
      ghost var s' := T(Red, Leaf, elm, Leaf);
      Attached(p, elm);
      if p.Step? { StepFields(p, Leaf); }
      elm.parent := parent;
      elm.left, elm.right := null, null;
      elm.color := Red;
      if parent != null {
        if comp < 0 {
          parent.left := elm;
        } else {
          parent.right := elm;
        }
      } else {
        root := elm;
      }
      forall x | x in Nodes(shape) + {elm} ensures EntryOf(x) == Fields(Plug(p, s'), null, x) {
        SwapFields(p, Leaf, s', x);
      }
      PlugRoot(p, Leaf, s');
      shape := Plug(p, s');
    }

    /** The rest of RB_INSERT once the descent has found no equal key. */
    method Place(elm: Node, parent: Node?, comp: int, ghost p: Path)
      requires Valid() && shape == Plug(p, Leaf) && parent == Parent(p) && Between(p, elm.key)
      requires p.Step? ==> (comp < 0 <==> p.side == L)
      modifies this, Nodes(shape), elm
      ensures Valid() && Inorder(shape) == Inorder(Plug(p, T(Red, Leaf, elm, Leaf)))
      ensures Nodes(shape) == old(Nodes(shape)) + {elm}
      ensures rotations <= old(rotations) + 2
    {
      PlugRedBlack(p, Leaf);
      Attach(elm, parent, comp, p);
      InsertColor(elm, p, T(Red, Leaf, elm, Leaf));
    }

    /** The descent of RB_INSERT: to an equal key, or to the empty position `p` where the key
        belongs. `steps` is how many nodes it looks at. */
    method Seek(elm: Node) returns (tmp: Node?, parent: Node?, comp: int, ghost p: Path, ghost steps: nat)
      requires Valid()
      ensures Valid()
      ensures tmp != null ==> tmp in Nodes(shape) && tmp.key == elm.key
      ensures tmp == null ==>
        && shape == Plug(p, Leaf) && parent == Parent(p) && Between(p, elm.key)
        && (p.Step? ==> (comp < 0 <==> p.side == L))
      ensures steps <= Height(shape) && Logarithmic(steps, shape)
    {
      tmp, parent, comp := root, null, 0;
      p, steps := Top, 0;
      ghost var s := shape;
      while tmp != null
        invariant Valid() && shape == Plug(p, s) && tmp == Root(s) && parent == Parent(p) && Between(p, elm.key)
        invariant p.Step? ==> (comp < 0 <==> p.side == L)
        invariant steps == Depth(p)
        decreases s
      {
        Here(p, s);
        DescentBound(p, s);
        steps := steps + 1;
        parent := tmp;
        comp := elm.key - parent.key;
        Descend(p, s, elm.key);
        if comp < 0 {
          tmp := tmp.left;
          p, s := Down(p, s, L), s.left;
        } else if comp > 0 {
          tmp := tmp.right;
          p, s := Down(p, s, R), s.right;
        } else {
          return;
        }
      }
      DescentBound(p, Leaf);
    }

    /** RB_INSERT. `at` is where the element went, `steps` how many nodes were looked at. */
    method Insert(elm: Node) returns (res: Node?, ghost at: nat, ghost steps: nat)
      requires Valid()
      modifies this, Nodes(shape), elm
      ensures Valid()
      ensures res != null ==>
        res in old(Nodes(shape)) && res.key == elm.key && unchanged(this) && unchanged(elm)
      ensures res == null ==>
        && (forall x :: x in old(Nodes(shape)) ==> x.key != elm.key)
        && at <= |old(Inorder(shape))|
        && Inorder(shape) == old(Inorder(shape))[..at] + [elm] + old(Inorder(shape))[at..]
        && Nodes(shape) == old(Nodes(shape)) + {elm}
      ensures rotations <= old(rotations) + 2
      ensures steps <= old(Height(shape)) && Logarithmic(steps, old(shape))
    {
      var parent, comp;
      ghost var p;
      at := 0;
      res, parent, comp, p, steps := Seek(elm);
      if res == null {
        Attached(p, elm);
        Place(elm, parent, comp, p);
        at := |Before(p)|;
      }
    }

    /** RB_FIND */
    method Find(elm: Node) returns (res: Node?, ghost steps: nat)
      requires Valid()
      ensures Valid()
      ensures res != null ==> res in Nodes(shape) && res.key == elm.key
      ensures res == null ==> forall x :: x in Nodes(shape) ==> x.key != elm.key
      ensures steps <= Height(shape) && Logarithmic(steps, shape)
    {
      var tmp := root;
      ghost var p, s := Top, shape;
      steps := 0;
      while tmp != null
        invariant Valid() && shape == Plug(p, s) && tmp == Root(s) && Between(p, elm.key) && steps == Depth(p)
        decreases s
      {
        Here(p, s);
        DescentBound(p, s);
        steps := steps + 1;
        var comp := elm.key - tmp.key;
        Descend(p, s, elm.key);
        if comp < 0 {
          tmp := tmp.left;
          p, s := Down(p, s, L), s.left;
        } else if comp > 0 {
          tmp := tmp.right;
          p, s := Down(p, s, R), s.right;
        } else {
          return tmp, steps;
        }
      }
      DescentBound(p, Leaf);
      forall x | x in Nodes(shape) ensures x.key != elm.key {
        Absent(p, elm.key, x);
      }
      res := null;
    }

    /** RB_NFIND */
    method NFind(elm: Node) returns (res: Node?, ghost steps: nat)
      requires Valid()
      ensures Valid()
      ensures res != null ==> res in Nodes(shape) && res.key >= elm.key
      ensures res != null ==> forall x :: x in Nodes(shape) && x.key >= elm.key ==> x.key >= res.key
      ensures res == null ==> forall x :: x in Nodes(shape) ==> x.key < elm.key
      ensures steps <= Height(shape) && Logarithmic(steps, shape)
    {
      var tmp := root;
      res := null;
      ghost var p, s := Top, shape;
      steps := 0;
      while tmp != null
        invariant Valid() && shape == Plug(p, s) && tmp == Root(s) && Between(p, elm.key) && steps == Depth(p)
        invariant res == if After(p) == [] then null else After(p)[0]
        decreases s
      {
        Here(p, s);
        DescentBound(p, s);
        steps := steps + 1;
        var comp := elm.key - tmp.key;
        Descend(p, s, elm.key);
        if comp < 0 {
          res := tmp;
          tmp := tmp.left;
          p, s := Down(p, s, L), s.left;
        } else if comp > 0 {
          tmp := tmp.right;
          p, s := Down(p, s, R), s.right;
        } else {
          return tmp, steps;
        }
      }
      DescentBound(p, Leaf);
      NearestAbove(p, elm.key);
    }

    /** RB_MINMAX; RB_MIN passes -1 and RB_MAX passes 1. */
    method MinMax(val: int) returns (parent: Node?, ghost steps: nat)
      requires Valid()
      ensures Valid()
      ensures shape == Leaf ==> parent == null
      ensures shape.T? ==> parent == Inorder(shape)[if val < 0 then 0 else |Inorder(shape)| - 1]
      ensures steps <= Height(shape) && Logarithmic(steps, shape)
    {
      var tmp := root;
      parent := null;
      ghost var p, s := Top, shape;
      steps := 0;
      while tmp != null
        invariant Valid() && shape == Plug(p, s) && tmp == Root(s) && parent == Parent(p) && steps == Depth(p)
        invariant OneWay(p, if val < 0 then L else R)
        decreases s
      {
        Here(p, s);
        DescentBound(p, s);
        steps := steps + 1;
        parent := tmp;
        if val < 0 {
          tmp := tmp.left;
          p, s := Down(p, s, L), s.left;
        } else {
          tmp := tmp.right;
          p, s := Down(p, s, R), s.right;
        }
      }
      DescentBound(p, Leaf);
      Extreme(p);
    }

    /** Down the left links, as in RB_NEXT and in RB_REMOVE's search for the successor. */
    method Leftmost(node: Node, ghost at: Path, ghost below: Tree) returns (elm: Node, ghost p: Path, ghost s: Tree)
      requires Shaped() && shape == Plug(at, below) && below.T? && below.node == node
      ensures Shaped() && shape == Plug(p, s) && s.T? && s.node == elm && s.left == Leaf
      ensures elm in Nodes(shape) && EntryOf(elm) == Entry(Root(s.left), Root(s.right), Parent(p), s.color)
      ensures Before(p) == Before(at) && LeftOf(p, at)
    {
      elm := node;
      p, s := at, below;
      Here(p, s);
      while elm.left != null
        invariant Shaped() && shape == Plug(p, s) && s.T? && s.node == elm
        invariant elm in Nodes(shape) && EntryOf(elm) == Entry(Root(s.left), Root(s.right), Parent(p), s.color)
        invariant Before(p) == Before(at) && LeftOf(p, at)
        decreases s
      {
        elm := elm.left;
        p, s := Down(p, s, L), s.left;
        Here(p, s);
      }
    }

    /** Down the right links, as in RB_PREV. */
    method Rightmost(node: Node, ghost at: Path, ghost below: Tree) returns (elm: Node, ghost p: Path, ghost s: Tree)
      requires Shaped() && shape == Plug(at, below) && below.T? && below.node == node
      ensures Shaped() && shape == Plug(p, s) && s.T? && s.node == elm && s.right == Leaf
      ensures elm in Nodes(shape) && EntryOf(elm) == Entry(Root(s.left), Root(s.right), Parent(p), s.color)
      ensures After(p) == After(at)
    {
      elm := node;
      p, s := at, below;
      Here(p, s);
      while elm.right != null
        invariant Shaped() && shape == Plug(p, s) && s.T? && s.node == elm
        invariant elm in Nodes(shape) && EntryOf(elm) == Entry(Root(s.left), Root(s.right), Parent(p), s.color)
        invariant After(p) == After(at)
        decreases s
      {
        elm := elm.right;
        p, s := Down(p, s, R), s.right;
        Here(p, s);
      }
    }

    /** RB_NEXT, from the i-th node. */
    method Next(node: Node, ghost i: nat) returns (res: Node?)
      requires Shaped() && i < |Inorder(shape)| && Inorder(shape)[i] == node
      ensures Shaped()
      ensures res == if i + 1 < |Inorder(shape)| then Inorder(shape)[i + 1] else null
    {
      var elm := node;
      ghost var p, s := LocateIndex(shape, i);
      Here(p, s);
      if elm.right != null {
        res := NextDown(elm, p, s);
      } else {
        Beside(p, s);
        res := NextUp(elm, p, s);
      }
    }

    /** The descending part of RB_NEXT, from a node with a right child. */
    method NextDown(node: Node, ghost at: Path, ghost below: Tree) returns (res: Node)
      requires Shaped() && shape == Plug(at, below) && below.T? && below.node == node && below.right.T?
      ensures Shaped()
      ensures var i := |Before(at)| + |Inorder(below.left)| + 1; i < |Inorder(shape)| && res == Inorder(shape)[i]
    {
      ghost var p, s;
      Here(at, below);
      res, p, s := Leftmost(node.right, Down(at, below, R), below.right);
      FirstHere(p, s);
    }

    /** The climbing part of RB_NEXT, from a node without a right child. */
    method NextUp(node: Node, ghost at: Path, ghost below: Tree) returns (res: Node?)
      requires Shaped() && shape == Plug(at, below) && below.T? && below.node == node
      ensures Shaped()
      ensures res == if After(at) == [] then null else After(at)[0]
    {
      var elm := node;
      ghost var p, s := at, below;
      Here(p, s);
      if p.Step? { Here(p.up, Join(p.side, p.color, s, p.node, p.other)); }
      if elm.parent != null && elm == elm.parent.left {
        return elm.parent;
      } else {
        while elm.parent != null && elm == elm.parent.right
          invariant Shaped() && shape == Plug(p, s) && s.T? && s.node == elm && elm.parent == Parent(p)
          invariant p.Step? ==> (elm == p.node.right <==> p.side == R)
          invariant After(p) == After(at)
          decreases Depth(p)
        {
          elm := elm.parent;
          p, s := p.up, Join(p.side, p.color, s, p.node, p.other);
          if p.Step? { Here(p.up, Join(p.side, p.color, s, p.node, p.other)); }
          Here(p, s);
        }
        return elm.parent;
      }
    }

    /** RB_PREV, from the i-th node. */
    method Prev(node: Node, ghost i: nat) returns (res: Node?)
      requires Shaped() && i < |Inorder(shape)| && Inorder(shape)[i] == node
      ensures Shaped()
      ensures res == if 0 < i then Inorder(shape)[i - 1] else null
    {
      var elm := node;
      ghost var p, s := LocateIndex(shape, i);
      Here(p, s);
      if elm.left != null {
        res := PrevDown(elm, p, s);
      } else {
        Beside(p, s);
        res := PrevUp(elm, p, s);
      }
    }

    /** The descending part of RB_PREV, from a node with a left child. */
    method PrevDown(node: Node, ghost at: Path, ghost below: Tree) returns (res: Node)
      requires Shaped() && shape == Plug(at, below) && below.T? && below.node == node && below.left.T?
      ensures Shaped()
      ensures var i := |Before(at)| + |Inorder(below.left)| - 1; 0 <= i < |Inorder(shape)| && res == Inorder(shape)[i]
    {
      ghost var p, s;
      Here(at, below);
      res, p, s := Rightmost(node.left, Down(at, below, L), below.left);
      LastHere(p, s);
      Beside(at, below);
    }

    /** The climbing part of RB_PREV, from a node without a left child. */
    method PrevUp(node: Node, ghost at: Path, ghost below: Tree) returns (res: Node?)
      requires Shaped() && shape == Plug(at, below) && below.T? && below.node == node
      ensures Shaped()
      ensures res == if Before(at) == [] then null else Before(at)[|Before(at)| - 1]
    {
      var elm := node;
      ghost var p, s := at, below;
      Here(p, s);
      if p.Step? { Here(p.up, Join(p.side, p.color, s, p.node, p.other)); }
      if elm.parent != null && elm == elm.parent.right {
        return elm.parent;
      } else {
        while elm.parent != null && elm == elm.parent.left
          invariant Shaped() && shape == Plug(p, s) && s.T? && s.node == elm && elm.parent == Parent(p)
          invariant p.Step? ==> (elm == p.node.left <==> p.side == L)
          invariant Before(p) == Before(at)
          decreases Depth(p)
        {
          elm := elm.parent;
          p, s := p.up, Join(p.side, p.color, s, p.node, p.other);
          if p.Step? { Here(p.up, Join(p.side, p.color, s, p.node, p.other)); }
          Here(p, s);
        }
        return elm.parent;
      }
    }

    /** A red sibling of a left child in RB_REMOVE_COLOR is rotated up first. */
    method RemoveSiblingLeft(parent: Node, sibling: Node, ghost at: Path, ghost s: Tree) returns (tmp: Node, ghost p: Path)
      requires Shaped() && shape == Plug(at, s) && RemoveHole(at, s) && at.Step? && at.side == L
      requires parent == at.node && at.other.T? && sibling == at.other.node
      modifies this, Nodes(shape)
      ensures Shaped() && Inorder(shape) == old(Inorder(shape)) && Nodes(shape) == old(Nodes(shape))
      ensures shape == Plug(p, s) && RemoveHole(p, s) && p.Step? && p.side == L && p.node == parent
      ensures p.other.T? && p.other.color == Black && tmp == p.other.node
      ensures (p == at && rotations == old(rotations)) ||
              (rotations == old(rotations) + 1 && p.color == Red && Depth(p) == Depth(at) + 1)
    {
      tmp, p := sibling, at;
      Sibling(at, s);
      ghost var w, q := at.other, Step(at.up, R, at.color, at.node, s);
      Here(q, w);
      Here(at.up, Join(at.side, at.color, s, at.node, w));
      if tmp.color == Red {
        SetBlackRed(tmp, parent, q, w);
        tmp := RotateLeft(parent, at.up, T(Red, s, at.node, w.(color := Black)));
        p := Step(Step(at.up, L, Black, w.node, w.right), L, Red, at.node, w.left);
        RemoveRedSibling(at, s, w.left, w.right);
        Here(p.up, T(Red, s, at.node, w.left));
        tmp := parent.right;
      }
    }

    /** The colours before the sibling is rotated: its near child, on this side, becomes black
        and the sibling red. */
    method PaintNear(tmp: Node, ghost q: Path, ghost w: Tree, side: Side)
      requires Shaped() && shape == Plug(q, w) && w.T? && tmp == w.node && Child(w, side).T?
      modifies this`shape, Nodes(shape)`color
      ensures Shaped() && Inorder(shape) == old(Inorder(shape)) && Nodes(shape) == old(Nodes(shape))
      ensures shape == Plug(q, if side == L then T(Red, w.left.(color := Black), w.node, w.right)
                               else T(Red, w.left, w.node, w.right.(color := Black)))
    {
      Here(q, w);
      Here(Down(q, w, side), Child(w, side));
      var near := if side == L then tmp.left else tmp.right;
      if near != null {
        Paint(near, Black, Down(q, w, side), Child(w, side));
      }
      Paint(tmp, Red, q, if side == L then T(w.color, w.left.(color := Black), w.node, w.right)
                         else T(w.color, w.left, w.node, w.right.(color := Black)));
    }

    /** A black sibling of a left child whose right child is black is rotated away first. */
    method RemoveNearLeft(parent: Node, sibling: Node, ghost p: Path, ghost s: Tree)
      returns (tmp: Node)
      requires Shaped() && shape == Plug(p, s) && p.Step? && p.side == L && parent == p.node
      requires p.other.T? && sibling == p.other.node && p.other.left.T?
      modifies this, Nodes(shape)
      ensures Shaped() && Inorder(shape) == old(Inorder(shape)) && Nodes(shape) == old(Nodes(shape))
      ensures var w := p.other;
        && shape == Plug(p.(other := T(Black, w.left.left, w.left.node, T(Red, w.left.right, w.node, w.right))), s)
        && tmp == w.left.node
      ensures rotations == old(rotations) + 1
    {
      tmp := sibling;
      ghost var w, q := p.other, Step(p.up, R, p.color, p.node, s);
      PaintNear(tmp, q, w, L);
      w := T(w.color, w.left.(color := Black), w.node, w.right);
      var near := RotateRight(tmp, q, w.(color := Red));
      w := TurnRight(w.(color := Red));
      Here(p.up, T(p.color, s, p.node, w));
      tmp := parent.right;
    }

    /** The colours before the last rotation: the sibling gets that of the parent, the parent and
        the sibling's far child, on this side, become black. */
    method PaintFar(parent: Node, tmp: Node, ghost p: Path, ghost s: Tree, side: Side)
      requires Shaped() && shape == Plug(p, s) && p.Step? && p.side != side && parent == p.node
      requires p.other.T? && tmp == p.other.node && Child(p.other, side).T?
      modifies this`shape, Nodes(shape)`color
      ensures Shaped() && Inorder(shape) == old(Inorder(shape)) && Nodes(shape) == old(Nodes(shape))
      ensures var w := p.other;
        shape == Plug(p.(color := Black, other :=
          if side == L then T(p.color, w.left.(color := Black), w.node, w.right)
          else T(p.color, w.left, w.node, w.right.(color := Black))), s)
    {
      ghost var w, q := p.other, Step(p.up, side, p.color, p.node, s);
      Here(p.up, Join(p.side, p.color, s, p.node, w));
      Here(q, w);
      Paint(tmp, parent.color, q, w);
      w := w.(color := p.color);
      Paint(parent, Black, p.up, Join(p.side, p.color, s, p.node, w));
      q := q.(color := Black);
      Here(q, w);
      var far := if side == L then tmp.left else tmp.right;
      if far != null {
        Here(Down(q, w, side), Child(w, side));
        Paint(far, Black, Down(q, w, side), Child(w, side));
      }
    }

    /** A sibling of a left child whose right child is red takes the place of the parent. */
    method RemoveFarLeft(parent: Node, tmp: Node, ghost p: Path, ghost s: Tree)
      requires Shaped() && shape == Plug(p, s) && p.Step? && p.side == L && parent == p.node
      requires p.other.T? && tmp == p.other.node && p.other.right.T?
      modifies this, Nodes(shape)
      ensures Shaped() && Inorder(shape) == old(Inorder(shape)) && Nodes(shape) == old(Nodes(shape))
      ensures var w := p.other;
        shape == Plug(p.up, T(p.color, T(Black, s, p.node, w.left), w.node, w.right.(color := Black)))
      ensures rotations == old(rotations) + 1
    {
      ghost var w := p.other;
      PaintFar(parent, tmp, p, s, R);
      var top := RotateLeft(parent, p.up, T(Black, s, p.node, T(p.color, w.left, w.node, w.right.(color := Black))));
    }

    /** The rotating end of RB_REMOVE_COLOR, for a left child. */
    method RemoveEndLeft(parent: Node, sibling: Node, ghost p: Path, ghost s: Tree)
      requires Shaped() && shape == Plug(p, s) && RemoveHole(p, s) && ColorOf(s) == Black
      requires p.Step? && p.side == L && parent == p.node
      requires p.other.T? && sibling == p.other.node && p.other.color == Black
      requires ColorOf(p.other.left) == Red || ColorOf(p.other.right) == Red
      modifies this, Nodes(shape)
      ensures Shaped() && Inorder(shape) == old(Inorder(shape)) && Nodes(shape) == old(Nodes(shape))
      ensures RedBlack(shape) && rotations <= old(rotations) + 2
    {
      var tmp := sibling;
      ghost var w, q := p.other, Step(p.up, R, p.color, p.node, s);
      Here(q, w);
      if w.right.T? { Here(Down(q, w, R), w.right); }
      if tmp.right == null || tmp.right.color == Black {
        RemoveNear(p, s, w.left, w.right, w.left.left, w.left.right);
        tmp := RemoveNearLeft(parent, tmp, p, s);
        w := T(Black, w.left.left, w.left.node, T(Red, w.left.right, w.node, w.right));
      } else {
        RemoveFar(p, s, w.left, w.right);
      }
      RemoveFarLeft(parent, tmp, p.(other := w), s);
    }

    /** The rest of a turn of RB_REMOVE_COLOR's loop, for a left child whose sibling `tmp` is
        black; `done` is its break. */
    method RemoveBlackSiblingLeft(above: Node, tmp: Node, ghost at: Path, ghost below: Tree)
      returns (elm: Node?, parent: Node?, done: bool, ghost p: Path, ghost s: Tree)
      requires Shaped() && shape == Plug(at, below) && RemoveHole(at, below) && ColorOf(below) == Black
      requires at.Step? && at.side == L && above == at.node
      requires at.other.T? && at.other.color == Black && tmp == at.other.node
      modifies this, Nodes(shape)
      ensures Shaped() && Inorder(shape) == old(Inorder(shape)) && Nodes(shape) == old(Nodes(shape))
      ensures shape == Plug(p, s) && elm == Root(s)
      ensures done ==> p == Top && RedBlack(s) && rotations <= old(rotations) + 2
      ensures !done ==> RemoveHole(p, s) && parent == Parent(p) && rotations == old(rotations)
      ensures !done ==> p == at.up && ColorOf(s) == at.color
    {
      ghost var w, q := at.other, Step(at.up, R, at.color, at.node, below);
      Here(q, w);
      if w.left.T? { Here(Down(q, w, L), w.left); }
      if w.right.T? { Here(Down(q, w, R), w.right); }
      if (tmp.left == null || tmp.left.color == Black) && (tmp.right == null || tmp.right.color == Black) {
        RemoveRecolored(at, below);
        Paint(tmp, Red, q, w);
        p, s := at.up, T(at.color, below, at.node, w.(color := Red));
        Here(p, s);
        elm := above;
        parent := elm.parent;
        done := false;
      } else {
        RemoveEndLeft(above, tmp, at, below);
        elm, parent, done := root, above, true;
        p, s := Top, shape;
      }
    }

    /** One turn of the loop of RB_REMOVE_COLOR, for a left child. */
    method RemoveTurnLeft(above: Node, ghost at: Path, ghost below: Tree)
      returns (elm: Node?, parent: Node?, done: bool, ghost p: Path, ghost s: Tree)
      requires Shaped() && shape == Plug(at, below) && RemoveHole(at, below) && ColorOf(below) == Black
      requires at.Step? && at.side == L && above == at.node
      modifies this, Nodes(shape)
      ensures Shaped() && Inorder(shape) == old(Inorder(shape)) && Nodes(shape) == old(Nodes(shape))
      ensures shape == Plug(p, s) && elm == Root(s)
      ensures done ==> p == Top && RedBlack(s) && rotations <= old(rotations) + 3
      ensures !done ==> RemoveHole(p, s) && parent == Parent(p)
      ensures !done ==>
        (Depth(p) < Depth(at) && rotations == old(rotations)) ||
        (Depth(p) == Depth(at) && ColorOf(s) == Red && rotations == old(rotations) + 1)
    {
      Sibling(at, below);
      Here(at.up, Join(at.side, at.color, below, at.node, at.other));
      var tmp := above.right;
      tmp, p := RemoveSiblingLeft(above, tmp, at, below);
      elm, parent, done, p, s := RemoveBlackSiblingLeft(above, tmp, p, below);
    }

    /** A red sibling of a right child in RB_REMOVE_COLOR is rotated up first. */
    method RemoveSiblingRight(parent: Node, sibling: Node, ghost at: Path, ghost s: Tree) returns (tmp: Node, ghost p: Path)
      requires Shaped() && shape == Plug(at, s) && RemoveHole(at, s) && at.Step? && at.side == R
      requires parent == at.node && at.other.T? && sibling == at.other.node
      modifies this, Nodes(shape)
      ensures Shaped() && Inorder(shape) == old(Inorder(shape)) && Nodes(shape) == old(Nodes(shape))
      ensures shape == Plug(p, s) && RemoveHole(p, s) && p.Step? && p.side == R && p.node == parent
      ensures p.other.T? && p.other.color == Black && tmp == p.other.node
      ensures (p == at && rotations == old(rotations)) ||
              (rotations == old(rotations) + 1 && p.color == Red && Depth(p) == Depth(at) + 1)
    {
      tmp, p := sibling, at;
      Sibling(at, s);
      ghost var w, q := at.other, Step(at.up, L, at.color, at.node, s);
      Here(q, w);
      Here(at.up, Join(at.side, at.color, s, at.node, w));
      if tmp.color == Red {
        SetBlackRed(tmp, parent, q, w);
        tmp := RotateRight(parent, at.up, T(Red, w.(color := Black), at.node, s));
        p := Step(Step(at.up, R, Black, w.node, w.left), R, Red, at.node, w.right);
        RemoveRedSibling(at, s, w.right, w.left);
        Here(p.up, T(Red, w.right, at.node, s));
        tmp := parent.left;
      }
    }

    /** A black sibling of a right child whose left child is black is rotated away first. */
    method RemoveNearRight(parent: Node, sibling: Node, ghost p: Path, ghost s: Tree)
      returns (tmp: Node)
      requires Shaped() && shape == Plug(p, s) && p.Step? && p.side == R && parent == p.node
      requires p.other.T? && sibling == p.other.node && p.other.right.T?
      modifies this, Nodes(shape)
      ensures Shaped() && Inorder(shape) == old(Inorder(shape)) && Nodes(shape) == old(Nodes(shape))
      ensures var w := p.other;
        && shape == Plug(p.(other := T(Black, T(Red, w.left, w.node, w.right.left), w.right.node, w.right.right)), s)
        && tmp == w.right.node
      ensures rotations == old(rotations) + 1
    {
      tmp := sibling;
      ghost var w, q := p.other, Step(p.up, L, p.color, p.node, s);
      PaintNear(tmp, q, w, R);
      w := T(w.color, w.left, w.node, w.right.(color := Black));
      var near := RotateLeft(tmp, q, w.(color := Red));
      w := TurnLeft(w.(color := Red));
      Here(p.up, T(p.color, w, p.node, s));
      tmp := parent.left;
    }

    /** A sibling of a right child whose left child is red takes the place of the parent. */
    method RemoveFarRight(parent: Node, tmp: Node, ghost p: Path, ghost s: Tree)
      requires Shaped() && shape == Plug(p, s) && p.Step? && p.side == R && parent == p.node
      requires p.other.T? && tmp == p.other.node && p.other.left.T?
      modifies this, Nodes(shape)
      ensures Shaped() && Inorder(shape) == old(Inorder(shape)) && Nodes(shape) == old(Nodes(shape))
      ensures var w := p.other;
        shape == Plug(p.up, T(p.color, w.left.(color := Black), w.node, T(Black, w.right, p.node, s)))
      ensures rotations == old(rotations) + 1
    {
      ghost var w := p.other;
      PaintFar(parent, tmp, p, s, L);
      var top := RotateRight(parent, p.up, T(Black, T(p.color, w.left.(color := Black), w.node, w.right), p.node, s));
    }

    /** The rotating end of RB_REMOVE_COLOR, for a right child. */
    method RemoveEndRight(parent: Node, sibling: Node, ghost p: Path, ghost s: Tree)
      requires Shaped() && shape == Plug(p, s) && RemoveHole(p, s) && ColorOf(s) == Black
      requires p.Step? && p.side == R && parent == p.node
      requires p.other.T? && sibling == p.other.node && p.other.color == Black
      requires ColorOf(p.other.left) == Red || ColorOf(p.other.right) == Red
      modifies this, Nodes(shape)
      ensures Shaped() && Inorder(shape) == old(Inorder(shape)) && Nodes(shape) == old(Nodes(shape))
      ensures RedBlack(shape) && rotations <= old(rotations) + 2
    {
      var tmp := sibling;
      ghost var w, q := p.other, Step(p.up, L, p.color, p.node, s);
      Here(q, w);
      if w.left.T? { Here(Down(q, w, L), w.left); }
      if tmp.left == null || tmp.left.color == Black {
        RemoveNear(p, s, w.right, w.left, w.right.right, w.right.left);
        tmp := RemoveNearRight(parent, tmp, p, s);
        w := T(Black, T(Red, w.left, w.node, w.right.left), w.right.node, w.right.right);
      } else {
        RemoveFar(p, s, w.right, w.left);
      }
      RemoveFarRight(parent, tmp, p.(other := w), s);
    }

    /** The rest of a turn of RB_REMOVE_COLOR's loop, for a right child whose sibling `tmp` is
        black; `done` is its break. */
    method RemoveBlackSiblingRight(above: Node, tmp: Node, ghost at: Path, ghost below: Tree)
      returns (elm: Node?, parent: Node?, done: bool, ghost p: Path, ghost s: Tree)
      requires Shaped() && shape == Plug(at, below) && RemoveHole(at, below) && ColorOf(below) == Black
      requires at.Step? && at.side == R && above == at.node
      requires at.other.T? && at.other.color == Black && tmp == at.other.node
      modifies this, Nodes(shape)
      ensures Shaped() && Inorder(shape) == old(Inorder(shape)) && Nodes(shape) == old(Nodes(shape))
      ensures shape == Plug(p, s) && elm == Root(s)
      ensures done ==> p == Top && RedBlack(s) && rotations <= old(rotations) + 2
      ensures !done ==> RemoveHole(p, s) && parent == Parent(p) && rotations == old(rotations)
      ensures !done ==> p == at.up && ColorOf(s) == at.color
    {
      ghost var w, q := at.other, Step(at.up, L, at.color, at.node, below);
      Here(q, w);
      if w.left.T? { Here(Down(q, w, L), w.left); }
      if w.right.T? { Here(Down(q, w, R), w.right); }
      if (tmp.left == null || tmp.left.color == Black) && (tmp.right == null || tmp.right.color == Black) {
        RemoveRecolored(at, below);
        Paint(tmp, Red, q, w);
        p, s := at.up, T(at.color, w.(color := Red), at.node, below);
        Here(p, s);
        elm := above;
        parent := elm.parent;
        done := false;
      } else {
        RemoveEndRight(above, tmp, at, below);
        elm, parent, done := root, above, true;
        p, s := Top, shape;
      }
    }

    /** One turn of the loop of RB_REMOVE_COLOR, for a right child. */
    method RemoveTurnRight(above: Node, ghost at: Path, ghost below: Tree)
      returns (elm: Node?, parent: Node?, done: bool, ghost p: Path, ghost s: Tree)
      requires Shaped() && shape == Plug(at, below) && RemoveHole(at, below) && ColorOf(below) == Black
      requires at.Step? && at.side == R && above == at.node
      modifies this, Nodes(shape)
      ensures Shaped() && Inorder(shape) == old(Inorder(shape)) && Nodes(shape) == old(Nodes(shape))
      ensures shape == Plug(p, s) && elm == Root(s)
      ensures done ==> p == Top && RedBlack(s) && rotations <= old(rotations) + 3
      ensures !done ==> RemoveHole(p, s) && parent == Parent(p)
      ensures !done ==>
        (Depth(p) < Depth(at) && rotations == old(rotations)) ||
        (Depth(p) == Depth(at) && ColorOf(s) == Red && rotations == old(rotations) + 1)
    {
      Sibling(at, below);
      Here(at.up, Join(at.side, at.color, below, at.node, at.other));
      var tmp := above.left;
      tmp, p := RemoveSiblingRight(above, tmp, at, below);
      elm, parent, done, p, s := RemoveBlackSiblingRight(above, tmp, p, below);
    }

    /** One turn of the loop of RB_REMOVE_COLOR; `done` is its break. */
    method RemoveTurn(short: Node?, above: Node, ghost at: Path, ghost below: Tree)
      returns (elm: Node?, parent: Node?, done: bool, ghost p: Path, ghost s: Tree)
      requires Shaped() && shape == Plug(at, below) && RemoveHole(at, below) && ColorOf(below) == Black
      requires short == Root(below) && at.Step? && above == at.node
      modifies this, Nodes(shape)
      ensures Inorder(shape) == old(Inorder(shape)) && Nodes(shape) == old(Nodes(shape))
      ensures Removing(done, elm, parent, p, s) && (done ==> rotations <= old(rotations) + 3)
      ensures !done ==>
        (Depth(p) < Depth(at) && rotations == old(rotations)) ||
        (Depth(p) == Depth(at) && ColorOf(s) == Red && rotations == old(rotations) + 1)
    {
      Sibling(at, below);
      Here(at.up, Join(at.side, at.color, below, at.node, at.other));
      if below.T? { Here(at, below); }
      if above.left == short {
        elm, parent, done, p, s := RemoveTurnLeft(above, at, below);
      } else {
        elm, parent, done, p, s := RemoveTurnRight(above, at, below);
      }
      AtRoot(p, s);
    }

    /** Only at the top is a subtree's root the root of the tree. */
    lemma AtRoot(p: Path, s: Tree)
      requires Shaped() && shape == Plug(p, s)
      ensures Root(s) == root <==> p.Top?
      ensures s.T? ==> s.node in Nodes(shape) && s.node.color == s.color
    {
      PlugRoot(p, s, s);
      SortedPlug(p, s);
      if s.T? { Here(p, s); }
    }

    /** Where the loop of RB_REMOVE_COLOR stands, `done` once it has broken out. */
    ghost predicate Removing(done: bool, elm: Node?, parent: Node?, p: Path, s: Tree)
      reads this, Nodes(shape)
    {
      && Shaped() && shape == Plug(p, s) && elm == Root(s)
      && if done then RedBlack(Plug(p, Blackened(s)))
         else parent == Parent(p) && RemoveHole(p, s) && (elm == root <==> p.Top?) && (elm != null ==> elm in Nodes(shape) && elm.color == s.color)
    }

    /** RB_REMOVE_COLOR */
    method RemoveColor(above: Node?, short: Node?, ghost at: Path, ghost below: Tree)
      requires Shaped() && shape == Plug(at, below) && RemoveHole(at, below)
      requires short == Root(below) && above == Parent(at)
      modifies this, Nodes(shape)
      ensures Valid() && Inorder(shape) == old(Inorder(shape)) && Nodes(shape) == old(Nodes(shape))
      ensures rotations <= old(rotations) + 3
    {
      var elm, parent, done := short, above, false;
      ghost var p, s := at, below;
      AtRoot(p, s);
      while !done && (elm == null || elm.color == Black) && elm != root
        invariant Removing(done, elm, parent, p, s)
        invariant Inorder(shape) == old(Inorder(shape)) && Nodes(shape) == old(Nodes(shape))
        invariant done ==> rotations <= old(rotations) + 3
        invariant !done ==> rotations == old(rotations) || (rotations == old(rotations) + 1 && ColorOf(s) == Red)
        decreases if done then 0 else 1, Depth(p), if ColorOf(s) == Black then 1 else 0
      {
        elm, parent, done, p, s := RemoveTurn(elm, parent, p, s);
      }
      Blacken(done, elm, parent, p, s);
    }

    /** The last line of RB_REMOVE_COLOR. */
    method Blacken(done: bool, elm: Node?, ghost parent: Node?, ghost p: Path, ghost s: Tree)
      requires Removing(done, elm, parent, p, s) && (!done ==> p.Top? || ColorOf(s) == Red)
      modifies this`shape, Nodes(shape)`color
      ensures Valid() && Inorder(shape) == old(Inorder(shape)) && Nodes(shape) == old(Nodes(shape))
    {
      if !done { RemoveDone(p, s); }
      if elm != null {
        AtRoot(p, s);
        Paint(elm, Black, p, s);
      }
    }

    /** Unlinking a node with at most one child, as pointer assignments among the nodes `all`. */
    method RelinkOut(elm: Node, child: Node?, parent: Node?, ghost all: set<Node>)
      requires elm in all && (child != null ==> child in all && child != elm)
      requires parent != null ==> parent in all && parent != elm && parent != child
      modifies this`root, all`left, all`right, all`parent
      ensures root == if parent == null then child else old(root)
      ensures forall x :: x in all ==>
        var e := old(EntryOf(x));
        EntryOf(x) ==
          if x == child then e.(parent := parent)
          else if x == parent then Redirected(e, if old(parent != null && parent.left != elm) then R else L, child)
          else e
    {
      if child != null {
        child.parent := parent;
      }
      if parent != null {
        if parent.left == elm {
          parent.left := child;
        } else {
          parent.right := child;
        }
      } else {
        root := child;
      }
    }

    method TakeOut(elm: Node, child: Node?, parent: Node?, ghost p: Path, ghost s: Tree, ghost c: Tree)
      requires Shaped() && shape == Plug(p, s) && OnlyChild(s, c)
      requires elm == s.node && child == Root(c) && parent == Parent(p)
      modifies this`root, this`shape, Nodes(shape)`left, Nodes(shape)`right, Nodes(shape)`parent
      ensures Shaped() && shape == Plug(p, c)
      ensures EntryOf(elm) == Entry(Root(s.left), Root(s.right), Parent(p), s.color)
    {
      TakeOutSorted(p, s, c);
      TakeOutNodes(p, s, c);
      Here(p, s);
      Above(p, s);
      PlugRoot(p, s, c);
      SortedPlug(p, s);
      SortedParts(s);
      PlugNodes(p, s);
      RelinkOut(elm, child, parent, Nodes(shape));
      forall x | x in Nodes(Plug(p, c)) ensures EntryOf(x) == Fields(Plug(p, c), null, x) {
        TakeOutFields(p, s, c, x);
      }
      shape := Plug(p, c);
    }

    /** Copying the fields of `gone` to `elm` and redirecting its neighbours to `elm`. */
    method RelinkIn(gone: Node, elm: Node, ghost all: set<Node>)
      requires {gone, elm} <= all && gone != elm && gone.left != null && gone.left in all
      requires gone.right != null ==> gone.right in all
      requires gone.parent != null ==> gone.parent in all
      requires gone.left !in {gone, elm} && gone.right !in {gone, elm} && gone.parent !in {gone, elm}
      requires gone.parent != null ==> gone.parent != gone.left && gone.parent != gone.right
      modifies this`root, all
      ensures root == if old(gone.parent) == null then elm else old(root)
      ensures EntryOf(elm) == old(EntryOf(gone))
      ensures forall x :: x in all && x != elm ==>
        EntryOf(x) == ReplacedEntry(old(EntryOf(x)), x, elm, old(gone.left), old(gone.right), old(gone.parent),
                                    if old(gone.parent != null && gone.parent.left != gone) then R else L)
    {
      elm.left, elm.right, elm.parent, elm.color := gone.left, gone.right, gone.parent, gone.color;
      if gone.parent != null {
        if gone.parent.left == gone {
          gone.parent.left := elm;
        } else {
          gone.parent.right := elm;
        }
      } else {
        root := elm;
      }
      gone.left.parent := elm;
      if gone.right != null {
        gone.right.parent := elm;
      }
    }

    method Replace(gone: Node, elm: Node, ghost p: Path, ghost s: Tree)
      requires Shaped() && shape == Plug(p, s) && s.T? && s.node == gone && s.left.T?
      requires elm !in Nodes(shape) && Sorted(Inorder(Plug(p, s.(node := elm))))
      modifies this`root, this`shape, elm, Nodes(shape)
      ensures Shaped() && shape == Plug(p, s.(node := elm))
    {
      ghost var s' := s.(node := elm);
      ReplaceNodes(p, s, elm);
      Here(p, s);
      Above(p, s);
      PlugRoot(p, s, s');
      SortedPlug(p, s);
      SortedParts(s);
      PlugNodes(p, s);
      RelinkIn(gone, elm, Nodes(shape) + {elm});
      forall x | x in Nodes(Plug(p, s')) ensures EntryOf(x) == Fields(Plug(p, s'), null, x) {
        ReplaceFields(p, s, elm, x);
      }
      shape := Plug(p, s');
    }

    /** RB_REMOVE for a node with two children, up to the label `color`: the successor is
        unlinked and takes the node's place; `q` and `c` are the position it left. */
    method SpliceSuccessor(gone: Node, ghost p: Path, ghost s: Tree)
      returns (child: Node?, parent: Node?, color: Color, ghost q: Path, ghost c: Tree)
      requires Valid() && shape == Plug(p, s) && s.T? && s.node == gone && s.left.T? && s.right.T?
      modifies this`root, this`shape, Nodes(shape)
      ensures Shaped() && shape == Plug(q, c) && child == Root(c) && parent == Parent(q)
      ensures Inorder(shape) == Lower(p, s) + Higher(p, s) && Nodes(shape) <= old(Nodes(shape))
      ensures color == Red ==> RedBlack(shape)
      ensures color == Black ==> RemoveHole(q, c)
    {
      ghost var t := Leaf;
      var elm: Node;
      Here(p, s);
      elm, q, t := Leftmost(gone.right, Down(p, s, R), s.right);
      c := t.right;
      child := elm.right;
      parent := elm.parent;
      color := elm.color;
      SuccessorMoved(p, s, q, t);
      SuccessorOrder(p, s, q, t);
      SuccessorNodes(p, s, q, t);
      TakeOut(elm, child, parent, q, t, c);
      if elm.parent == gone {
        parent := elm;
      }
      Replace(gone, elm, p, s.(right := Rest(p, s, q, t)));
      q := RenamePath(q, gone, elm);
    }

    /** RB_REMOVE up to the label `color`: the node is out of the tree, and `q` and `c` are the
        position that lost a node of colour `color`. */
    method Unlink(node: Node, ghost p: Path, ghost s: Tree)
      returns (child: Node?, parent: Node?, color: Color, ghost q: Path, ghost c: Tree)
      requires Valid() && shape == Plug(p, s) && s.T? && s.node == node
      modifies this`root, this`shape, Nodes(shape)
      ensures Shaped() && shape == Plug(q, c) && child == Root(c) && parent == Parent(q)
      ensures Inorder(shape) == Lower(p, s) + Higher(p, s) && Nodes(shape) <= old(Nodes(shape))
      ensures color == Red ==> RedBlack(shape)
      ensures color == Black ==> RemoveHole(q, c)
    {
      Here(p, s);
      q := p;
      if node.left == null {
        child := node.right;
        c := s.right;
      } else if node.right == null {
        child := node.left;
        c := s.left;
      } else {
        child, parent, color, q, c := SpliceSuccessor(node, p, s);
        return;
      }
      parent := node.parent;
      color := node.color;
      TakenOut(p, s, c);
      TakeOutOrder(p, s, c);
      TakeOutNodes(p, s, c);
      TakeOut(node, child, parent, p, s, c);
    }

    /** RB_REMOVE. `at` is where the element was. */
    method Remove(node: Node) returns (gone: Node, ghost at: nat)
      requires Valid() && node in Nodes(shape)
      modifies this, Nodes(shape)
      ensures Valid() && gone == node
      ensures at < |old(Inorder(shape))| && old(Inorder(shape))[at] == node
      ensures Inorder(shape) == old(Inorder(shape))[..at] + old(Inorder(shape))[at + 1..]
      ensures Nodes(shape) <= old(Nodes(shape))
      ensures rotations <= old(rotations) + 3
    {
      gone := node;
      ghost var p, s := Locate(shape, node);
      NodeOrder(p, s);
      CutAt(Lower(p, s), node, Higher(p, s));
      at := |Lower(p, s)|;
      var child, parent, color, q, c := Unlink(node, p, s);
      if color == Black {
        RemoveColor(parent, child, q, c);
      }
    }

    /** RB_NEXT and RB_PREV undo each other. */
    method NextThenPrev(node: Node, ghost i: nat) returns (next: Node?, back: Node?)
      requires Shaped() && i < |Inorder(shape)| && Inorder(shape)[i] == node
      ensures if i + 1 < |Inorder(shape)| then next == Inorder(shape)[i + 1] && back == node else next == null
    {
      next := Next(node, i);
      back := null;
      if next != null {
        back := Prev(next, i + 1);
      }
    }

    method PrevThenNext(node: Node, ghost i: nat) returns (prev: Node?, back: Node?)
      requires Shaped() && i < |Inorder(shape)| && Inorder(shape)[i] == node
      ensures if 0 < i then prev == Inorder(shape)[i - 1] && back == node else prev == null
    {
      prev := Prev(node, i);
      back := null;
      if prev != null {
        back := Next(prev, i - 1);
      }
    }

    /** RB_FOREACH: the nodes its body sees. */
    method ForEach() returns (visited: seq<Node>)
      requires Valid()
      ensures visited == Inorder(shape)
    {
      visited := [];
      var x, _ := MinMax(-1);
      while x != null
        invariant Shaped() && |visited| <= |Inorder(shape)| && visited == Inorder(shape)[..|visited|]
        invariant x == if |visited| < |Inorder(shape)| then Inorder(shape)[|visited|] else null
        decreases |Inorder(shape)| - |visited|
      {
        visited := visited + [x];
        x := Next(x, |visited| - 1);
      }
    }

    /** RB_FOREACH_REVERSE: the nodes its body sees. */
    method ForEachReverse() returns (visited: seq<Node>)
      requires Valid()
      ensures |visited| == |Inorder(shape)|
      ensures forall i :: 0 <= i < |visited| ==> visited[i] == Inorder(shape)[|visited| - 1 - i]
    {
      visited := [];
      var x, _ := MinMax(1);
      while x != null
        invariant Shaped() && |visited| <= |Inorder(shape)|
        invariant forall i :: 0 <= i < |visited| ==> visited[i] == Inorder(shape)[|Inorder(shape)| - 1 - i]
        invariant x == if |visited| < |Inorder(shape)| then Inorder(shape)[|Inorder(shape)| - 1 - |visited|] else null
        decreases |Inorder(shape)| - |visited|
      {
        visited := visited + [x];
        x := Prev(x, |Inorder(shape)| - |visited|);
      }
    }
  }
}
