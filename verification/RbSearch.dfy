/** Descents by key: what a position tells about where a key belongs. */
module RbSearch {
  import opened Powers
  import opened RbShape
  import opened RbSurgery

  /** Everything before the position is below `k`, everything after it is above. */
  ghost predicate Between(p: Path, k: int) {
    (forall x :: x in Before(p) ==> x.key < k) && (forall x :: x in After(p) ==> k < x.key)
  }

  function Down(p: Path, s: Tree, side: Side): Path
    requires s.T?
  {
    if side == L then Step(p, L, s.color, s.node, s.right) else Step(p, R, s.color, s.node, s.left)
  }

  function Child(s: Tree, side: Side): Tree
    requires s.T?
  {
    if side == L then s.left else s.right
  }

  lemma Descend(p: Path, s: Tree, k: int)
    requires s.T? && Sorted(Inorder(Plug(p, s))) && Between(p, k)
    ensures k < s.node.key ==> Between(Down(p, s, L), k)
    ensures k > s.node.key ==> Between(Down(p, s, R), k)
  {
    SortedPlug(p, s);
    SortedParts(s);
    forall x | x in Inorder(s.left) ensures x.key < s.node.key {
      InorderNodes(s.left, x);
    }
    forall x | x in Inorder(s.right) ensures s.node.key < x.key {
      InorderNodes(s.right, x);
    }
  }

  /** A key whose descent ends at an empty position is not in the tree. */
  lemma Absent(p: Path, k: int, x: Node)
    requires Between(p, k) && x in Nodes(Plug(p, Leaf))
    ensures x.key != k
  {
    PlugInorder(p, Leaf);
    InorderNodes(Plug(p, Leaf), x);
  }

  lemma {:induction false} Deep(p: Path, s: Tree)
    ensures Depth(p) + Height(s) <= Height(Plug(p, s))
  {
    if p.Top? {
    } else {
      Deep(p.up, Join(p.side, p.color, s, p.node, p.other));
    }
  }

  function Height(t: Tree): nat {
    if t.Leaf? then 0
    else 1 + if Height(t.left) < Height(t.right) then Height(t.right) else Height(t.left)
  }

  lemma CutAt(a: seq<Node>, x: Node, b: seq<Node>)
    ensures var s := a + [x] + b; s[..|a|] + s[|a| + 1..] == a + b && s[|a|] == x
  {
  }

  /** Inserting a key where its descent ends keeps the order. */
  lemma SortedInsert(a: seq<Node>, x: Node, b: seq<Node>)
    requires Sorted(a + b)
    requires (forall y :: y in a ==> y.key < x.key) && (forall y :: y in b ==> x.key < y.key)
    ensures Sorted(a + [x] + b)
  {
    SortedCat(a, b);
  }

  /** The tree with a new node where the descent for its key ended. */
  lemma Attached(p: Path, elm: Node)
    requires Sorted(Inorder(Plug(p, Leaf))) && Between(p, elm.key)
    ensures forall x :: x in Nodes(Plug(p, Leaf)) ==> x.key != elm.key
    ensures |Before(p)| <= |Inorder(Plug(p, Leaf))|
    ensures Inorder(Plug(p, T(Red, Leaf, elm, Leaf))) ==
            Inorder(Plug(p, Leaf))[..|Before(p)|] + [elm] + Inorder(Plug(p, Leaf))[|Before(p)|..]
    ensures Sorted(Inorder(Plug(p, T(Red, Leaf, elm, Leaf))))
    ensures Nodes(Plug(p, T(Red, Leaf, elm, Leaf))) == Nodes(Plug(p, Leaf)) + {elm}
  {
    forall x | x in Nodes(Plug(p, Leaf)) ensures x.key != elm.key {
      Absent(p, elm.key, x);
    }
    var s' := T(Red, Leaf, elm, Leaf);
    PlugInorder(p, Leaf);
    PlugInorder(p, s');
    assert Inorder(Plug(p, Leaf)) == Before(p) + After(p);
    assert Inorder(s') == [elm];
    SortedInsert(Before(p), elm, After(p));
    PlugNodes(p, Leaf);
    PlugNodes(p, s');
  }

  /** Where a descent found no equal key, the next node after it has the least key above. */
  lemma NearestAbove(p: Path, k: int)
    requires Sorted(Inorder(Plug(p, Leaf))) && Between(p, k)
    ensures After(p) == [] ==> forall x :: x in Nodes(Plug(p, Leaf)) ==> x.key < k
    ensures After(p) != [] ==>
      && After(p)[0] in Nodes(Plug(p, Leaf)) && After(p)[0].key >= k
      && forall x :: x in Nodes(Plug(p, Leaf)) && x.key >= k ==> x.key >= After(p)[0].key
  {
    PlugInorder(p, Leaf);
    SortedCat(Before(p) + [], After(p));
    forall x | x in Nodes(Plug(p, Leaf)) ensures x in Before(p) || x in After(p) {
      InorderNodes(Plug(p, Leaf), x);
    }
    if After(p) != [] {
      InorderNodes(Plug(p, Leaf), After(p)[0]);
    }
  }

  // ---------- Neighbours ----------

  lemma {:induction false} LocateIndexFrom(p: Path, t: Tree, i: nat) returns (q: Path, s: Tree)
    requires i < |Inorder(t)|
    ensures Plug(q, s) == Plug(p, t) && s.T? && s.node == Inorder(t)[i]
    ensures |Before(q)| + |Inorder(s.left)| == |Before(p)| + i
    decreases t
  {
    var n := |Inorder(t.left)|;
    if i == n {
      q, s := p, t;
    } else if i < n {
      q, s := LocateIndexFrom(Step(p, L, t.color, t.node, t.right), t.left, i);
    } else {
      q, s := LocateIndexFrom(Step(p, R, t.color, t.node, t.left), t.right, i - n - 1);
    }
  }

  /** The position of the i-th node in key order. */
  lemma LocateIndex(t: Tree, i: nat) returns (q: Path, s: Tree)
    requires i < |Inorder(t)|
    ensures Plug(q, s) == t && s.T? && s.node == Inorder(t)[i]
    ensures i == |Before(q)| + |Inorder(s.left)|
  {
    q, s := LocateIndexFrom(Top, t, i);
  }

  /** The first node of the subtree at a position, when it has no left child. */
  lemma FirstHere(p: Path, s: Tree)
    requires s.T? && s.left.Leaf?
    ensures |Before(p)| < |Inorder(Plug(p, s))| && Inorder(Plug(p, s))[|Before(p)|] == s.node
  {
    PlugInorder(p, s);
  }

  lemma LastHere(p: Path, s: Tree)
    requires s.T? && s.right.Leaf?
    ensures |Inorder(Plug(p, s))| == |Before(p)| + |Inorder(s)| + |After(p)|
    ensures Inorder(Plug(p, s))[|Before(p)| + |Inorder(s)| - 1] == s.node
  {
    PlugInorder(p, s);
  }

  /** What comes right after and right before the subtree at a position. */
  lemma Beside(p: Path, s: Tree)
    ensures |Inorder(Plug(p, s))| == |Before(p)| + |Inorder(s)| + |After(p)|
    ensures After(p) != [] ==> Inorder(Plug(p, s))[|Before(p)| + |Inorder(s)|] == After(p)[0]
    ensures Before(p) != [] ==> Inorder(Plug(p, s))[|Before(p)| - 1] == Before(p)[|Before(p)| - 1]
  {
    PlugInorder(p, s);
  }

  /** All steps of the path went to the same side. */
  ghost predicate OneWay(p: Path, side: Side) {
    p.Step? ==> p.side == side && if side == L then Before(p) == [] else After(p) == []
  }

  /** Going one way only, the last node met is the extreme one. */
  lemma Extreme(p: Path)
    requires OneWay(p, L) || OneWay(p, R)
    ensures p.Top? <==> Plug(p, Leaf).Leaf?
    ensures p.Step? ==> Inorder(Plug(p, Leaf)) != []
    ensures p.Step? && p.side == L ==> p.node == Inorder(Plug(p, Leaf))[0]
    ensures p.Step? && p.side == R ==> p.node == Inorder(Plug(p, Leaf))[|Inorder(Plug(p, Leaf))| - 1]
  {
    Beside(p, Leaf);
    PlugRoot(p, Leaf, Leaf);
  }

  // ---------- Successor ----------

  /** `p` leads down from `at` by left steps only. */
  ghost predicate LeftOf(p: Path, at: Path) {
    p == at || (p.Step? && p.side == L && LeftOf(p.up, at))
  }

  /** The subtree at `at` when the subtree at `p`, below it, is `t`. */
  ghost function Unwind(p: Path, at: Path, t: Tree): Tree
    requires LeftOf(p, at)
  {
    if p == at then t else Unwind(p.up, at, T(p.color, t, p.node, p.other))
  }

  lemma {:induction false} UnwindPlug(p: Path, at: Path, t: Tree)
    requires LeftOf(p, at)
    ensures Plug(p, t) == Plug(at, Unwind(p, at, t))
  {
    if p == at {
    } else {
      UnwindPlug(p.up, at, T(p.color, t, p.node, p.other));
    }
  }

  /** `t` at `q` is the leftmost position of the right subtree of `s` at `p`. */
  ghost predicate SuccessorAt(p: Path, s: Tree, q: Path, t: Tree) {
    && s.T? && t.T? && t.left == Leaf && Plug(q, t) == Plug(p, s)
    && LeftOf(q, Down(p, s, R)) && Before(q) == Before(Down(p, s, R))
  }

  /** What the right subtree of `s` is without its first node. */
  ghost function Rest(p: Path, s: Tree, q: Path, t: Tree): Tree
    requires SuccessorAt(p, s, q, t)
  {
    Unwind(q, Down(p, s, R), t.right)
  }

  lemma SuccessorRest(p: Path, s: Tree, q: Path, t: Tree)
    requires SuccessorAt(p, s, q, t)
    ensures Plug(q, t.right) == Plug(p, s.(right := Rest(p, s, q, t)))
    ensures Higher(p, s) == [t.node] + Higher(p, s.(right := Rest(p, s, q, t)))
  {
    var s1, a := s.(right := Rest(p, s, q, t)), Lower(p, s);
    UnwindPlug(q, Down(p, s, R), t.right);
    NodeOrder(p, s);
    NodeOrder(p, s1);
    NodeOrder(q, t);
    TakeOutOrder(q, t, t.right);
    assert Lower(q, t) == Before(q) == a + [s.node];
    Tails(a, s.node, t.node, Higher(p, s), Higher(p, s1), Higher(q, t));
  }

  lemma Tails(a: seq<Node>, n: Node, m: Node, high: seq<Node>, rest: seq<Node>, tail: seq<Node>)
    requires a + [n] + high == (a + [n]) + [m] + tail && a + [n] + rest == (a + [n]) + tail
    ensures high == [m] + rest
  {
    assert high == (a + [n] + high)[|a| + 1..];
    assert rest == (a + [n] + rest)[|a| + 1..];
    assert [m] + tail == ((a + [n]) + [m] + tail)[|a| + 1..];
  }

  /** Putting the successor in the place of the node takes the node out of the order. */
  lemma SuccessorOrder(p: Path, s: Tree, q: Path, t: Tree)
    requires SuccessorAt(p, s, q, t) && Sorted(Inorder(Plug(p, s)))
    ensures var s2 := T(s.color, s.left, t.node, Rest(p, s, q, t));
      Inorder(Plug(p, s2)) == Lower(p, s) + Higher(p, s) && Sorted(Inorder(Plug(p, s2)))
  {
    var s2 := T(s.color, s.left, t.node, Rest(p, s, q, t));
    SuccessorRest(p, s, q, t);
    NodeOrder(p, s);
    NodeOrder(p, s2);
    assert Lower(p, s) + [t.node] + Higher(p, s2) == Lower(p, s) + ([t.node] + Higher(p, s2));
    SortedWithout(Lower(p, s), s.node, Higher(p, s));
  }

  // ---------- Height ----------

  lemma {:induction false} BlackHeightBounds(t: Tree)
    requires Good(t)
    ensures Pow2(BlackHeight(t)) <= |Inorder(t)| + 1
    ensures Height(t) <= 2 * BlackHeight(t) + (if ColorOf(t) == Red then 1 else 0)
  {
    if t.Leaf? {
    } else {
      BlackHeightBounds(t.left);
      BlackHeightBounds(t.right);
    }
  }

  /** The height h of a red-black tree with n nodes is at most 2 lg (n + 1). */
  lemma HeightBound(t: Tree)
    requires RedBlack(t)
    ensures Pow2(Height(t)) <= (|Inorder(t)| + 1) * (|Inorder(t)| + 1)
  {
    var b, n := BlackHeight(t), |Inorder(t)| + 1;
    BlackHeightBounds(t);
    Pow2Mono(Height(t), b + b);
    Pow2Sum(b, b);
    MulLe(Pow2(b), n, Pow2(b), n);
  }

  /** A count of at most 2 lg (n + 1), for a tree of n nodes. */
  ghost predicate Logarithmic(steps: nat, t: Tree) {
    Pow2(steps) <= (|Inorder(t)| + 1) * (|Inorder(t)| + 1)
  }

  /** A descent looks at one node for each step of its path, and so at no more than that. */
  lemma DescentBound(p: Path, s: Tree)
    requires RedBlack(Plug(p, s))
    ensures Depth(p) + Height(s) <= Height(Plug(p, s))
    ensures Logarithmic(Depth(p) + Height(s), Plug(p, s))
    ensures s.T? ==> Logarithmic(Depth(p) + 1, Plug(p, s))
  {
    Deep(p, s);
    HeightBound(Plug(p, s));
    Pow2Mono(Depth(p) + Height(s), Height(Plug(p, s)));
    if s.T? {
      Pow2Mono(Depth(p) + 1, Height(Plug(p, s)));
    }
  }
}
