/**
 The amortised bound on the turns of splays. The potential of a tree is the product of the sizes
 of its subtrees, so that the bound can be stated on powers of two, without logarithms.
 */
module SplayCost {
  import opened SplayShape
  import opened SplayFunction
  import opened Powers

  function Size(t: Tree): nat {
    if t.Leaf? then 0 else Size(t.left) + 1 + Size(t.right)
  }

  function Potential(t: Tree): nat
    decreases t, 1
  {
    if t.Leaf? then 1 else Size(t) * Below(t)
  }

  /** The part of the potential that belongs to the proper subtrees. */
  function Below(t: Tree): nat
    requires t.T?
    decreases t, 0
  {
    Potential(t.left) * Potential(t.right)
  }

  lemma {:induction false} PotentialPositive(t: Tree)
    ensures Potential(t) > 0
  {
    if t.Leaf? {
    } else {
      PotentialPositive(t.left);
      PotentialPositive(t.right);
      MulPositive(Potential(t.left), Potential(t.right));
      MulPositive(Size(t), Below(t));
    }
  }

  lemma Sides(side: Side, t: Tree)
    requires t.T?
    ensures Size(t) == Size(Child(t, side)) + 1 + Size(Child(t, Flip(side)))
    ensures Below(t) == Potential(Child(t, side)) * Potential(Child(t, Flip(side)))
  {
    Commute(Potential(t.left), Potential(t.right));
  }

  lemma JoinPotential(side: Side, a: Tree, n: Node, b: Tree)
    ensures Size(Join(side, a, n, b)) == Size(a) + 1 + Size(b)
    ensures Potential(Join(side, a, n, b)) == (Size(a) + 1 + Size(b)) * (Potential(a) * Potential(b))
  {
    Sides(side, Join(side, a, n, b));
  }

  lemma HungParts(side: Side, t: Tree, v: Tree)
    requires t.T? && v.T?
    ensures var far := Size(Child(v, Flip(side))) + 1 + Size(Child(t, Flip(side)));
      && Size(Hung(side, t, v)) == Size(Child(v, side)) + 1 + far
      && Below(Hung(side, t, v)) ==
           Potential(Child(v, side)) * (far * (Potential(Child(v, Flip(side))) * Potential(Child(t, Flip(side)))))
  {
    var u := Hung(side, t, v);
    Sides(side, u);
    Sides(side, Child(u, Flip(side)));
  }

  // ---------- Arithmetic ----------

  /** Two parts of a whole. */
  lemma Halves(a: nat, b: nat, s: nat)
    requires a + b <= s
    ensures 4 * (a * b) <= s * s
  {
    assert (a + b) * (a + b) == 4 * (a * b) + (a - b) * (a - b);
    assert (a - b) * (a - b) >= 0;
    MulLe(a + b, s, a + b, s);
  }

  /** A step around a smaller splay. `mm` is the square of its size, `pg` the potential it started
      from and `ab` what it ended with below its root; `j` pays for the turns of the step, `z` and
      `y` are the sizes of the other subtrees that changed, after and before, `o` the rest. */
  lemma Compose(pw: nat, ab: nat, mm: nat, pg: nat, z: nat, y: nat, o: nat, ss: nat, j: nat)
    requires pw * ab <= (2 * mm) * pg
    requires (j * mm) * z <= ss * y
    ensures (j * pw) * ((ab * z) * o) <= (2 * ss) * ((y * pg) * o)
  {
    MulLe(pw * ab, (2 * mm) * pg, j * z, j * z);
    var q := (j * mm) * z;
    assert ((2 * mm) * pg) * (j * z) == (2 * pg) * q by {
      Cross(2 * mm, pg, j, z);
      Assoc(2, mm, j);
      Cross(2, mm * j, pg, z);
      assert mm * j == j * mm;
    }
    MulLe(q, ss * y, 2 * pg, 2 * pg);
    assert (2 * pg) * (ss * y) == (2 * ss) * (y * pg) by {
      Cross(2, pg, ss, y);
      assert pg * y == y * pg;
    }
    assert (j * pw) * (ab * z) <= (2 * ss) * (y * pg) by {
      assert z * ab == ab * z;
      Cross(j, pw, z, ab);
    }
    Assoc(j * pw, ab * z, o);
    Assoc(2 * ss, y * pg, o);
    MulLe((j * pw) * (ab * z), (2 * ss) * (y * pg), o, o);
  }

  // ---------- One splay ----------

  /** `pw` turns' worth of growth is paid for by the potential that `t` gives up as it becomes `v`. */
  ghost predicate Pays(pw: nat, v: Tree, t: Tree)
    requires t.T? && v.T?
  {
    pw * Below(v) <= (2 * (Size(t) * Size(t))) * Potential(t)
  }

  lemma {:induction false} SplayedSize(t: Tree, k: int)
    requires t.T?
    ensures Size(Splayed(t, k)) == Size(t)
    decreases t
  {
    var side := SideOf(t, k);
    var c := Child(t, side);
    Sides(side, t);
    if t.node.key != k && c.T? {
      Sides(side, c);
      if !Beyond(t, k) {
        SplayedSize(c, k);
        HungSize(side, t, Splayed(c, k));
      } else if Child(c, side).T? {
        SplayedSize(Child(c, side), k);
        HungSize(side, Turn(side, t), Splayed(Child(c, side), k));
      }
    }
  }

  lemma HungSize(side: Side, t: Tree, v: Tree)
    requires t.T? && v.T?
    ensures Size(Hung(side, t, v)) == Size(v) + 1 + Size(Child(t, Flip(side)))
  {
    HungParts(side, t, v);
    Sides(side, v);
  }

  /** The size and the potential of a turned tree's far subtree. */
  lemma TurnParts(side: Side, t: Tree)
    requires t.T? && Child(t, side).T?
    ensures var c, u, x := Child(t, side), Turn(side, t), Child(Turn(side, t), Flip(side));
      && Size(u) == Size(t) && Child(u, side) == Child(c, side) && x.T?
      && Size(x) == Size(Child(c, Flip(side))) + 1 + Size(Child(t, Flip(side)))
      && Below(x) == Potential(Child(c, Flip(side))) * Potential(Child(t, Flip(side)))
  {
    var c, u := Child(t, side), Turn(side, t);
    Sides(side, t);
    Sides(side, c);
    Sides(side, u);
    Sides(side, Child(u, Flip(side)));
  }

  /** Two links to the same side, the first node turned below the second: one turn. */
  lemma PaysStraight(side: Side, t: Tree, v: Tree, pw: nat)
    requires t.T? && v.T? && Child(t, side).T? && Child(Child(t, side), side).T?
    requires Size(v) == Size(Child(Child(t, side), side)) && Pays(pw, v, Child(Child(t, side), side))
    ensures Pays(2 * pw, Hung(side, Turn(side, t), v), t)
  {
    var f, c := Flip(side), Child(t, side);
    var g, u := Child(c, side), Turn(side, t);
    Sides(side, t);
    Sides(side, c);
    Sides(side, v);
    TurnParts(side, t);
    HungParts(side, u, v);
    StraightPays(pw, Potential(Child(v, side)), Potential(Child(v, f)), Potential(Child(c, f)), Potential(Child(t, f)),
                 Potential(g), Size(g), Size(c), Size(Child(u, f)), Size(Child(v, f)) + 1 + Size(Child(u, f)), Size(t));
  }

  lemma StraightPays(pw: nat, pa: nat, pb: nat, pc: nat, pd: nat, pg: nat, m: nat, sy: nat, sx: nat, far: nat, s: nat)
    requires m <= sy && far <= s && m + sx <= s
    requires pw * (pa * pb) <= (2 * (m * m)) * pg
    ensures (2 * pw) * (pa * (far * (pb * (sx * (pc * pd))))) <= (2 * (s * s)) * (s * ((sy * (pg * pc)) * pd))
  {
    StraightSizes(m, sy, sx, far, s);
    StraightTerms(pa, pb, pc, pd, pg, far, sx, s, sy);
    Compose(pw, pa * pb, m * m, pg, far * sx, s * sy, pc * pd, s * s, 2);
  }

  lemma StraightSizes(m: nat, sy: nat, sx: nat, far: nat, s: nat)
    requires m <= sy && far <= s && m + sx <= s
    ensures (2 * (m * m)) * (far * sx) <= (s * s) * (s * sy)
  {
    Halves(m, sx, s);
    MulLe(m, sy, far, s);
    MulLe(4 * (m * sx), s * s, m * far, sy * s);
    Cross(m, m, far, sx);
    Cross(m, far, m, sx);
    Assoc(2, m * m, far * sx);
    Assoc(4, m * sx, m * far);
    Commute(m * far, m * sx);
    Commute(s, sy);
  }

  lemma StraightTerms(pa: nat, pb: nat, pc: nat, pd: nat, pg: nat, far: nat, sx: nat, s: nat, sy: nat)
    ensures pa * (far * (pb * (sx * (pc * pd)))) == ((pa * pb) * (far * sx)) * (pc * pd)
    ensures s * ((sy * (pg * pc)) * pd) == ((s * sy) * pg) * (pc * pd)
  {
  }

  /** Two links to opposite sides: two turns. */
  lemma PaysAcross(side: Side, t: Tree, v: Tree, pw: nat)
    requires t.T? && v.T? && Child(t, side).T? && Child(Child(t, side), Flip(side)).T?
    requires var g := Child(Child(t, side), Flip(side)); Size(v) == Size(g) && Pays(pw, v, g)
    ensures Pays(4 * pw, Hung(side, t, Hung(Flip(side), Child(t, side), v)), t)
  {
    var f, c := Flip(side), Child(t, side);
    var u := Hung(side, t, Hung(f, c, v));
    var near, far := AcrossParts(side, t, v);
    AcrossBefore(side, t);
    Sides(side, v);
    AcrossPays(pw, Below(v), Potential(Child(v, side)), Potential(Child(v, f)), Potential(Child(c, side)), Potential(Child(t, f)),
               Potential(Child(c, f)), Size(Child(c, f)), Size(c), near, far, Size(t), Below(u), Potential(t));
  }

  /** What comes of the tree, with the sizes of the two trees on either side of the new root. */
  lemma AcrossParts(side: Side, t: Tree, v: Tree) returns (near: nat, far: nat)
    requires t.T? && v.T? && Child(t, side).T? && Child(Child(t, side), Flip(side)).T?
    requires Size(v) == Size(Child(Child(t, side), Flip(side)))
    ensures near + far <= Size(t)
    ensures var f, c := Flip(side), Child(t, side);
      Below(Hung(side, t, Hung(f, c, v))) ==
        (near * (Potential(Child(v, side)) * Potential(Child(c, side)))) * (far * (Potential(Child(v, f)) * Potential(Child(t, f))))
  {
    var f, c := Flip(side), Child(t, side);
    var w := Hung(f, c, v);
    near, far := Size(Child(w, side)), Size(Child(v, f)) + 1 + Size(Child(t, f));
    Sides(side, t);
    Sides(side, c);
    Sides(side, v);
    HungParts(side, t, w);
    Sides(f, w);
    JoinPotential(f, Child(v, side), c.node, Child(c, side));
  }

  lemma AcrossBefore(side: Side, t: Tree)
    requires t.T? && Child(t, side).T? && Child(Child(t, side), Flip(side)).T?
    ensures var f, c := Flip(side), Child(t, side);
      && Potential(t) ==
           Size(t) * ((Size(c) * (Potential(Child(c, side)) * Potential(Child(c, f)))) * Potential(Child(t, f)))
      && Size(Child(c, f)) <= Size(c) <= Size(t)
  {
    Sides(side, t);
    Sides(side, Child(t, side));
  }

  lemma AcrossPays(pw: nat, ab: nat, pa: nat, pb: nat, pc: nat, pd: nat, pg: nat, m: nat, sy: nat, near: nat, far: nat, s: nat,
                   b: nat, p: nat)
    requires m <= sy <= s && near + far <= s
    requires ab == pa * pb && pw * ab <= (2 * (m * m)) * pg
    requires b == (near * (pa * pc)) * (far * (pb * pd)) && p == s * ((sy * (pc * pg)) * pd)
    ensures (4 * pw) * b <= (2 * (s * s)) * p
  {
    AcrossSizes(m, sy, near, far, s);
    AcrossTerms(pa, pb, pc, pd, pg, near, far, s, sy);
    Compose(pw, ab, m * m, pg, near * far, s * sy, pc * pd, s * s, 4);
  }

  lemma AcrossSizes(m: nat, sy: nat, near: nat, far: nat, s: nat)
    requires m <= sy && near + far <= s && m <= s
    ensures (4 * (m * m)) * (near * far) <= (s * s) * (s * sy)
  {
    Halves(near, far, s);
    MulLe(m, s, m, sy);
    MulLe(4 * (near * far), s * s, m * m, s * sy);
    Cross(4, m * m, near * far, 1);
    Commute(m * m, 4 * (near * far));
  }

  lemma AcrossTerms(pa: nat, pb: nat, pc: nat, pd: nat, pg: nat, near: nat, far: nat, s: nat, sy: nat)
    ensures (near * (pa * pc)) * (far * (pb * pd)) == ((pa * pb) * (near * far)) * (pc * pd)
    ensures s * ((sy * (pc * pg)) * pd) == ((s * sy) * pg) * (pc * pd)
  {
  }

  /** A link to one side, then a turn and a link to the other: two turns. */
  lemma PaysAcrossStraight(side: Side, t: Tree, v: Tree, pw: nat)
    requires t.T? && v.T? && Child(t, side).T? && Child(Child(t, side), Flip(side)).T?
    requires Child(Child(Child(t, side), Flip(side)), Flip(side)).T?
    requires var g := Child(Child(Child(t, side), Flip(side)), Flip(side)); Size(v) == Size(g) && Pays(pw, v, g)
    ensures Pays(4 * pw, Hung(side, t, Hung(Flip(side), Turn(Flip(side), Child(t, side)), v)), t)
  {
    var f, c := Flip(side), Child(t, side);
    var d := Child(c, f);
    var g, u := Child(d, f), Turn(f, c);
    var w := Hung(f, u, v);
    Sides(side, t);
    Sides(f, c);
    Sides(f, d);
    Sides(side, v);
    TurnParts(f, c);
    HungParts(f, u, v);
    HungParts(side, t, w);
    Sides(f, w);
    Sides(f, Child(w, side));
    AcrossStraightPays(pw, Potential(Child(v, side)), Potential(Child(v, f)), Potential(Child(d, side)), Potential(Child(c, side)),
                       Potential(Child(t, f)), Potential(g), Size(g), Size(c), Size(d), Size(Child(u, side)), Size(Child(w, side)),
                       Size(Child(v, f)) + 1 + Size(Child(t, f)), Size(t));
  }

  lemma AcrossStraightPays(pw: nat, pa: nat, pb: nat, pc: nat, pe: nat, pd: nat, pg: nat, m: nat, sy: nat, sz: nat, sx: nat,
                           near: nat, far: nat, s: nat)
    requires m <= sz && m + sx <= sy <= s && near + far <= s
    requires pw * (pa * pb) <= (2 * (m * m)) * pg
    ensures (4 * pw) * ((near * (pa * (sx * (pc * pe)))) * (far * (pb * pd))) <=
            (2 * (s * s)) * (s * ((sy * ((sz * (pg * pc)) * pe)) * pd))
  {
    AcrossStraightSizes(m, sy, sz, sx, near, far, s);
    AcrossStraightTerms(pa, pb, pc, pe, pd, pg, sx, near, far, s, sy, sz);
    Compose(pw, pa * pb, m * m, pg, (near * far) * sx, (s * sy) * sz, (pc * pe) * pd, s * s, 4);
  }

  lemma AcrossStraightSizes(m: nat, sy: nat, sz: nat, sx: nat, near: nat, far: nat, s: nat)
    requires m <= sz && m + sx <= sy <= s && near + far <= s
    ensures (4 * (m * m)) * ((near * far) * sx) <= (s * s) * ((s * sy) * sz)
  {
    MulThree(m, s, sx, sy, m, sz);
    SwapLe(m, near, far, sx, s, (s * sy) * sz);
  }

  lemma MulThree(a: nat, b: nat, c: nat, d: nat, e: nat, f: nat)
    requires a <= b && c <= d && e <= f
    ensures (a * c) * e <= (b * d) * f
  {
    MulLe(a, b, c, d);
    MulLe(a * c, b * d, e, f);
  }

  lemma SwapLe(m: nat, near: nat, far: nat, b: nat, s: nat, d: nat)
    requires near + far <= s && (m * b) * m <= d
    ensures (4 * (m * m)) * ((near * far) * b) <= (s * s) * d
  {
    Halves(near, far, s);
    var a, c, e := near * far, s * s, (m * b) * m;
    MulLe(4 * a, c, e, d);
    SwapTerms(m, a, b);
  }

  lemma SwapTerms(m: nat, a: nat, b: nat)
    ensures (4 * (m * m)) * (a * b) == (4 * a) * ((m * b) * m)
  {
    Cross(4, m * m, a, b);
    Assoc(m, m, b);
    Commute(m, m * b);
  }

  lemma AcrossStraightTerms(pa: nat, pb: nat, pc: nat, pe: nat, pd: nat, pg: nat, sx: nat, near: nat, far: nat, s: nat, sy: nat, sz: nat)
    ensures (near * (pa * (sx * (pc * pe)))) * (far * (pb * pd)) == ((pa * pb) * ((near * far) * sx)) * ((pc * pe) * pd)
    ensures s * ((sy * ((sz * (pg * pc)) * pe)) * pd) == (((s * sy) * sz) * pg) * ((pc * pe) * pd)
  {
    var q := pc * pe;
    assert near * (pa * (sx * q)) == (near * sx) * (pa * q) by {
      Cross(near, sx, pa, q);
      Assoc(near, pa, sx * q);
    }
    AcrossTerms(pa, pb, q, pd, pg, near * sx, far, s, sy);
    assert (near * sx) * far == (near * far) * sx;
    Assoc(sz, pg, pc);
    Assoc(sz * pg, pc, pe);
    StraightTerms(pa, pb, q, pd, sz * pg, far, sx, s, sy);
    Assoc(s * sy, sz, pg);
  }

  /** The splay ends at the root. */
  lemma PaysStop(t: Tree)
    requires t.T?
    ensures Pays(1, t, t)
  {
    StopPays(1, 1, Below(t), 1, Size(t));
  }

  lemma StopPays(pw: nat, z: nat, o: nat, y: nat, s: nat)
    requires pw * z <= 2 * (s * s) && s > 0 && y > 0
    ensures pw * (z * o) <= (2 * (s * s)) * (s * (y * o))
  {
    MulPositive(s, y);
    MulLe(1, s * y, o, o);
    MulLe(pw * z, 2 * (s * s), o, (s * y) * o);
    Assoc(pw, z, o);
    Assoc(s, y, o);
  }

  /** The splay ends with a turn at the root. */
  lemma PaysTurn(side: Side, t: Tree)
    requires t.T? && Child(t, side).T?
    ensures Pays(2, Turn(side, t), t)
  {
    var f, c, u := Flip(side), Child(t, side), Turn(side, t);
    Sides(side, t);
    Sides(side, c);
    Sides(side, u);
    TurnParts(side, t);
    var pa, pc, pd := Potential(Child(c, side)), Potential(Child(c, f)), Potential(Child(t, f));
    EndTerms(pa, pc, pd, Size(Child(u, f)), Size(c));
    EndSizes(Size(Child(u, f)), Size(t));
    StopPays(2, Size(Child(u, f)), (pa * pc) * pd, Size(c), Size(t));
  }

  lemma EndTerms(pa: nat, pc: nat, pd: nat, sx: nat, sy: nat)
    ensures pa * (sx * (pc * pd)) == sx * ((pa * pc) * pd)
    ensures (sy * (pa * pc)) * pd == sy * ((pa * pc) * pd)
  {
  }

  lemma EndSizes(a: nat, s: nat)
    requires a < s
    ensures 2 * a <= 2 * (s * s)
  {
    MulLe(1, s, s, s);
  }

  /** The splay ends with a link. */
  lemma PaysLink(side: Side, t: Tree)
    requires t.T? && Child(t, side).T?
    ensures Pays(2, Hung(side, t, Child(t, side)), t)
  {
    var f, c := Flip(side), Child(t, side);
    Sides(side, t);
    Sides(side, c);
    HungParts(side, t, c);
    var far := Size(Child(c, f)) + 1 + Size(Child(t, f));
    var pa, pc, pd := Potential(Child(c, side)), Potential(Child(c, f)), Potential(Child(t, f));
    EndTerms(pa, pc, pd, far, Size(c));
    EndSizes(far, Size(t));
    StopPays(2, far, (pa * pc) * pd, Size(c), Size(t));
  }

  /** The splay ends with a link to one side and a turn on the other. */
  lemma PaysLinkTurn(side: Side, t: Tree)
    requires t.T? && Child(t, side).T? && Child(Child(t, side), Flip(side)).T?
    ensures Child(Child(Child(t, side), Flip(side)), Flip(side)) == Leaf ==>
      Pays(4, Hung(side, t, Turn(Flip(side), Child(t, side))), t)
  {
    var f, c := Flip(side), Child(t, side);
    var d, u := Child(c, f), Turn(f, c);
    if Child(d, f) == Leaf {
      Sides(side, t);
      Sides(f, c);
      Sides(f, d);
      Sides(f, u);
      TurnParts(f, c);
      HungParts(side, t, u);
      var near, far := Size(Child(u, side)), 1 + Size(Child(t, f));
      var pa, pc, pd := Potential(Child(d, side)), Potential(Child(c, side)), Potential(Child(t, f));
      LinkTurnPays(pa, pc, pd, near, far, Size(t), Size(c), Size(d));
    }
  }

  lemma LinkTurnPays(pa: nat, pc: nat, pd: nat, near: nat, far: nat, s: nat, sy: nat, sz: nat)
    requires near + far <= s && s > 0 && sy > 0 && sz > 0
    ensures 4 * ((near * (pa * pc)) * (far * (1 * pd))) <= (2 * (s * s)) * (s * ((sy * ((sz * (1 * pa)) * pc)) * pd))
  {
    Halves(near, far, s);
    MulPositive(sy, sz);
    StopPays(4, near * far, (pa * pc) * pd, sy * sz, s);
    Cross(near, pa * pc, far, pd);
    assert (sy * ((sz * pa) * pc)) * pd == (sy * sz) * ((pa * pc) * pd);
  }

  /** Splaying is paid for by the fall of the potential and the square of the size. */
  lemma {:induction false} SplayPays(t: Tree, k: int)
    requires t.T?
    ensures Pays(Pow2(Turns(t, k)), Splayed(t, k), t)
    decreases t
  {
    var side := SideOf(t, k);
    var f, c := Flip(side), Child(t, side);
    if t.node.key == k || c == Leaf {
      PaysStop(t);
    } else if Beyond(t, k) {
      var g := Child(c, side);
      if g == Leaf {
        PaysTurn(side, t);
      } else {
        SplayPays(g, k);
        SplayedSize(g, k);
        PaysStraight(side, t, Splayed(g, k), Pow2(Turns(g, k)));
      }
    } else if c.node.key == k || Child(c, f) == Leaf {
      PaysLink(side, t);
    } else if !Beyond(c, k) {
      var g := Child(c, f);
      SplayPays(g, k);
      SplayedSize(g, k);
      PaysAcross(side, t, Splayed(g, k), Pow2(Turns(g, k)));
    } else {
      var g := Child(Child(c, f), f);
      if g == Leaf {
        PaysLinkTurn(side, t);
      } else {
        SplayPays(g, k);
        SplayedSize(g, k);
        PaysAcrossStraight(side, t, Splayed(g, k), Pow2(Turns(g, k)));
      }
    }
  }

  // ---------- One operation ----------

  /** The price of an operation on fewer than `n` elements. */
  function Price(n: nat): nat {
    (2 * (n * n)) * (2 * (n * n * n))
  }

  /** The turns that made `now` of `was` are paid for at that price. */
  ghost predicate Afforded(turns: nat, was: Tree, now: Tree, n: nat) {
    Pow2(turns) * Potential(now) <= Price(n) * Potential(was)
  }

  /** What is below the root of `v` grows to the potential of `now`, with `more` turns, by no more
      than the price leaves after a splay. */
  ghost predicate Grows(more: nat, v: Tree, now: Tree, n: nat)
    requires v.T?
  {
    Pow2(more) * Potential(now) <= (2 * (n * n * n)) * Below(v)
  }

  lemma AffordTwo(turns: nat, more: nat, was: Tree, v: Tree, now: Tree, n: nat)
    requires was.T? && v.T? && Size(was) <= n && Pays(Pow2(turns), v, was) && Grows(more, v, now, n)
    ensures Afforded(turns + more, was, now, n)
  {
    AffordTerms(turns, more, Size(was), Potential(was), Below(v), Potential(now), n);
  }

  lemma AffordTerms(turns: nat, more: nat, s: nat, p: nat, b: nat, q: nat, n: nat)
    requires s <= n && Pow2(turns) * b <= (2 * (s * s)) * p && Pow2(more) * q <= (2 * (n * n * n)) * b
    ensures Pow2(turns + more) * q <= Price(n) * p
  {
    Pow2Sum(turns, more);
    MulLe(s, n, s, n);
    ChainTerms(Pow2(turns), Pow2(more), b, p, q, s * s, n * n, n * n * n);
  }

  lemma ChainTerms(pw: nat, pm: nat, b: nat, p: nat, q: nat, ss: nat, nn: nat, cube: nat)
    requires pw * b <= (2 * ss) * p && ss <= nn && pm * q <= (2 * cube) * b
    ensures (pw * pm) * q <= ((2 * nn) * (2 * cube)) * p
  {
    MulLe(pw, pw, pm * q, (2 * cube) * b);
    Assoc(pw, pm, q);
    Assoc(pw, b, 2 * cube);
    Commute(2 * cube, b);
    MulLe(2 * ss, 2 * nn, p, p);
    MulLe(pw * b, (2 * nn) * p, 2 * cube, 2 * cube);
    Cross(2 * nn, p, 2 * cube, 1);
  }

  lemma GrowsBy(v: Tree, now: Tree, w: nat, n: nat)
    requires v.T? && Potential(now) == w * Below(v) && w <= n * n && n > 0
    ensures Grows(0, v, now, n)
  {
    GrowTerms(w, n, Below(v));
  }

  lemma GrowTerms(w: nat, n: nat, b: nat)
    requires w <= n * n && n > 0
    ensures w * b <= (2 * (n * n * n)) * b
  {
    MulLe(1, n, n * n, n * n);
    Commute(n, n * n);
    MulLe(w, 2 * (n * n * n), b, b);
  }

  /** A search, whichever key it is for. */
  lemma SearchAfforded(t: Tree, k: int, n: nat)
    requires t.T? && Size(t) <= n
    ensures Afforded(Turns(t, k), t, Splayed(t, k), n)
  {
    var v := Splayed(t, k);
    SplayPays(t, k);
    SplayedSize(t, k);
    MulLe(1, n, n, n);
    GrowsBy(v, v, Size(v), n);
    AffordTwo(Turns(t, k), 0, t, v, v, n);
  }

  /** The new root with the old one below it on this side, as an insert leaves them. */
  function OnTop(side: Side, v: Tree, elm: Node): Tree
    requires v.T?
  {
    Join(side, Join(side, Child(v, side), v.node, Leaf), elm, Child(v, Flip(side)))
  }

  /** The factor by which a new root multiplies what is below the old one. */
  lemma OnTopFactor(side: Side, v: Tree, elm: Node, n: nat) returns (w: nat)
    requires v.T? && Size(v) < n
    ensures Potential(OnTop(side, v, elm)) == w * Below(v) && w <= n * n
  {
    Sides(side, v);
    JoinPotential(side, Child(v, side), v.node, Leaf);
    JoinPotential(side, Join(side, Child(v, side), v.node, Leaf), elm, Child(v, Flip(side)));
    var s, x := Size(v) + 1, Size(Child(v, side)) + 1;
    OnTopTerms(s, x, Potential(Child(v, side)), Potential(Child(v, Flip(side))));
    MulLe(s, n, x, n);
    w := s * x;
  }

  lemma OnTopTerms(s: nat, x: nat, pa: nat, pb: nat)
    ensures s * ((x * (pa * 1)) * pb) == (s * x) * (pa * pb)
  {
    Assoc(x, pa, pb);
    Assoc(s, x, pa * pb);
  }

  lemma OnTopAfforded(t: Tree, side: Side, elm: Node, n: nat)
    requires t.T? && Size(t) < n
    ensures Afforded(Turns(t, elm.key), t, OnTop(side, Splayed(t, elm.key), elm), n)
  {
    var v := Splayed(t, elm.key);
    SplayedSize(t, elm.key);
    SplayPays(t, elm.key);
    var w := OnTopFactor(side, v, elm, n);
    FactorAfforded(Turns(t, elm.key), t, v, OnTop(side, v, elm), w, n);
  }

  lemma FactorAfforded(turns: nat, t: Tree, v: Tree, u: Tree, w: nat, n: nat)
    requires t.T? && v.T? && Size(t) < n && Pays(Pow2(turns), v, t)
    requires Potential(u) == w * Below(v) && w <= n * n
    ensures Afforded(turns, t, u, n)
  {
    FactorPrice(turns, Size(t), Potential(t), Below(v), w, Potential(u), n);
  }

  lemma FactorPrice(turns: nat, s: nat, p: nat, b: nat, w: nat, q: nat, n: nat)
    requires s < n && Pow2(turns) * b <= (2 * (s * s)) * p && w <= n * n && q == w * b
    ensures Pow2(turns) * q <= Price(n) * p
  {
    GrowTerms(w, n, b);
    AffordTerms(turns, 0, s, p, b, q, n);
  }

  lemma PutOnTop(v: Tree, elm: Node)
    requires v.T?
    ensures OnTop(R, v, elm) == T(v.left, elm, T(Leaf, v.node, v.right))
    ensures OnTop(L, v, elm) == T(T(v.left, v.node, Leaf), elm, v.right)
  {
  }

  lemma InsertAfforded(t: Tree, elm: Node, n: nat)
    requires Size(t) < n
    ensures Afforded(Turns(t, elm.key), t, Put(t, elm), n)
  {
    if t == Leaf {
      PricePositive(n);
    } else if Splayed(t, elm.key).node.key == elm.key {
      SearchAfforded(t, elm.key, n);
    } else {
      var v := Splayed(t, elm.key);
      PutOnTop(v, elm);
      OnTopAfforded(t, if elm.key < v.node.key then R else L, elm, n);
    }
  }

  lemma PricePositive(n: nat)
    requires n > 0
    ensures Price(n) >= 4
  {
    MulPositive(n, n);
    MulPositive(n * n, n);
    MulLe(2, 2 * (n * n), 2, 2 * (n * n * n));
  }

  /** The second splay of a remove, of the left part, and the joined tree. */
  lemma JoinedGrows(v: Tree, k: int, n: nat)
    requires v.T? && v.left.T? && Size(v) <= n
    ensures var l := Splayed(v.left, k); Grows(Turns(v.left, k), v, T(l.left, l.node, v.right), n)
  {
    var l := Splayed(v.left, k);
    SplayPays(v.left, k);
    SplayedSize(v.left, k);
    PotentialPositive(l.right);
    MulLe(Potential(l.left), Potential(l.left), 1, Potential(l.right));
    MulLe(Size(v.left), n, Size(v.left), n);
    JoinTerms(Pow2(Turns(v.left, k)), Potential(l.left), Below(l), Potential(v.left), Potential(v.right),
              Size(T(l.left, l.node, v.right)), Size(v.left) * Size(v.left), n);
  }

  lemma RightGrows(v: Tree, n: nat)
    requires v.T? && v.left == Leaf && n > 0
    ensures Grows(0, v, v.right, n)
  {
    MulLe(1, n, 1, n);
    GrowsBy(v, v.right, 1, n);
  }

  lemma JoinTerms(pw: nat, a: nat, b: nat, p: nat, r: nat, s: nat, mm: nat, n: nat)
    requires a <= b && pw * b <= (2 * mm) * p && s <= n && mm <= n * n
    ensures pw * (s * (a * r)) <= (2 * (n * n * n)) * (p * r)
  {
    JoinChain(pw, a, b, p, r, s, mm, n, n * n);
    JoinLeft(pw, a, s, r);
    JoinRight(n * n, p, n, r);
  }

  lemma JoinChain(pw: nat, a: nat, b: nat, p: nat, r: nat, s: nat, mm: nat, n: nat, nn: nat)
    requires a <= b && pw * b <= (2 * mm) * p && s <= n && mm <= nn
    ensures ((pw * a) * s) * r <= (((2 * nn) * p) * n) * r
  {
    MulLe(pw, pw, a, b);
    MulLe(2 * mm, 2 * nn, p, p);
    MulLe(pw * a, (2 * nn) * p, s, n);
    MulLe((pw * a) * s, ((2 * nn) * p) * n, r, r);
  }

  lemma JoinLeft(pw: nat, a: nat, s: nat, r: nat)
    ensures ((pw * a) * s) * r == pw * (s * (a * r))
  {
    Assoc(pw, a, s);
    Assoc(pw, a * s, r);
    Commute(a, s);
    Assoc(s, a, r);
  }

  lemma JoinRight(nn: nat, p: nat, n: nat, r: nat)
    ensures (((2 * nn) * p) * n) * r == (2 * (nn * n)) * (p * r)
  {
    Cross(2 * nn, p, n, r);
    Assoc((2 * nn) * p, n, r);
    Assoc(2, nn, n);
  }

  /** What a remove does after its first splay has found the node. */
  lemma FoundGrows(v: Tree, k: int, n: nat)
    requires v.T? && Size(v) <= n
    ensures Grows(Turns(v.left, k), v,
                  if v.left == Leaf then v.right else var l := Splayed(v.left, k); T(l.left, l.node, v.right), n)
  {
    if v.left == Leaf {
      RightGrows(v, n);
    } else {
      JoinedGrows(v, k, n);
    }
  }

  lemma FoundAfforded(t: Tree, k: int, n: nat)
    requires t.T? && Size(t) < n && Splayed(t, k).node.key == k
    ensures Afforded(CutTurns(t, k), t, Cut(t, k), n)
  {
    var v := Splayed(t, k);
    SplayedSize(t, k);
    SplayPays(t, k);
    FoundGrows(v, k, n);
    AffordTwo(Turns(t, k), Turns(v.left, k), t, v, Cut(t, k), n);
  }

  lemma RemoveAfforded(t: Tree, k: int, n: nat)
    requires Size(t) < n
    ensures Afforded(CutTurns(t, k), t, Cut(t, k), n)
  {
    if t == Leaf {
      PricePositive(n);
    } else if Splayed(t, k).node.key == k {
      FoundAfforded(t, k, n);
    } else {
      SearchAfforded(t, k, n);
    }
  }

  /** The turns that made `now` of `was` are worth their price at every size. */
  ghost predicate Worth(turns: nat, was: Tree, now: Tree) {
    forall n: nat :: Size(was) < n ==> Afforded(turns, was, now, n)
  }

  lemma SearchWorth(t: Tree, k: int)
    ensures if t.T? then Worth(Turns(t, k), t, Splayed(t, k)) else Worth(0, t, t)
  {
    forall n: nat | Size(t) < n ensures if t.T? then Afforded(Turns(t, k), t, Splayed(t, k), n) else Afforded(0, t, t, n) {
      if t.T? {
        SearchAfforded(t, k, n);
      } else {
        PricePositive(n);
      }
    }
  }

  lemma InsertWorth(t: Tree, elm: Node)
    ensures Worth(Turns(t, elm.key), t, Put(t, elm))
  {
    forall n: nat | Size(t) < n ensures Afforded(Turns(t, elm.key), t, Put(t, elm), n) {
      InsertAfforded(t, elm, n);
    }
  }

  lemma RemoveWorth(t: Tree, k: int)
    ensures Worth(CutTurns(t, k), t, Cut(t, k))
  {
    forall n: nat | Size(t) < n ensures Afforded(CutTurns(t, k), t, Cut(t, k), n) {
      RemoveAfforded(t, k, n);
    }
  }

  // ---------- A history ----------

  /** After `m` operations at the price of `n` the tree is `t` and all turns so far are paid. */
  ghost predicate Within(turns: nat, t: Tree, m: nat, n: nat) {
    Pow2(turns) * Potential(t) <= Pow(Price(n), m)
  }

  lemma WithinNext(turns: nat, more: nat, was: Tree, now: Tree, m: nat, n: nat)
    requires Within(turns, was, m, n) && Afforded(more, was, now, n)
    ensures Within(turns + more, now, m + 1, n)
  {
    Pow2Sum(turns, more);
    NextTerms(Pow2(turns), Pow2(more), Potential(was), Potential(now), Price(n), Pow(Price(n), m));
  }

  lemma NextTerms(a: nat, b: nat, p: nat, q: nat, c: nat, d: nat)
    requires a * p <= d && b * q <= c * p
    ensures (a * b) * q <= c * d
  {
    MulLe(a, a, b * q, c * p);
    Assoc(a, b, q);
    Assoc(a, c, p);
    Commute(a, c);
    Assoc(c, a, p);
    MulLe(c, c, a * p, d);
  }

  lemma WithinTurns(turns: nat, t: Tree, m: nat, n: nat)
    requires Within(turns, t, m, n)
    ensures Pow2(turns) <= Pow(Price(n), m)
  {
    PotentialPositive(t);
    MulLe(Pow2(turns), Pow2(turns), 1, Potential(t));
  }
}
