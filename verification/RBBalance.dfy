/**
 The red-black rules on shapes, and what each fix-up case does to them.

 The two fix-up loops keep a shape split into a path and the subtree at the current node.
 `Climbing` is what the insert loop keeps and `Deficient` what the delete loop keeps; the
 lemmas give, case by case, the split after the case.  Each is stated once for both sides.
 */
module RBBalance {
  import opened RBShape

  ghost predicate IsBlack<N, V>(t: Tree<N, V>) {
    t.Leaf? || t.color.Black?
  }

  ghost function Weight(c: Color): nat {
    if c.Black? then 1 else 0
  }

  /** Black nodes on the leftmost way down; in a balanced tree, on every way down. */
  ghost function BlackHeight<N, V>(t: Tree<N, V>): nat {
    if t.Leaf? then 0 else BlackHeight(t.left) + Weight(t.color)
  }

  ghost predicate Balanced<N, V>(t: Tree<N, V>) {
    t.Leaf? || (Balanced(t.left) && Balanced(t.right) && BlackHeight(t.left) == BlackHeight(t.right))
  }

  ghost predicate NoRedRed<N, V>(t: Tree<N, V>) {
    t.Leaf? ||
    (NoRedRed(t.left) && NoRedRed(t.right) && (t.color.Red? ==> IsBlack(t.left) && IsBlack(t.right)))
  }

  ghost predicate RedBlack<N, V>(t: Tree<N, V>) {
    IsBlack(t) && NoRedRed(t) && Balanced(t)
  }

  // ---------- The same for paths ----------

  ghost predicate Fits<N, V>(p: Path<N, V>, h: nat) {
    p.Top? || (Balanced(p.sib) && BlackHeight(p.sib) == h && Fits(p.up, h + Weight(p.color)))
  }

  ghost predicate UnderBlack<N, V>(p: Path<N, V>) {
    p.Top? || p.color.Black?
  }

  ghost predicate NoRedRedAbove<N, V>(p: Path<N, V>) {
    p.Top? ||
    (NoRedRed(p.sib) && NoRedRedAbove(p.up) && (p.color.Red? ==> IsBlack(p.sib) && UnderBlack(p.up)))
  }

  ghost predicate TopBlack<N, V>(p: Path<N, V>) {
    p.Top? || (if p.up.Top? then p.color.Black? else TopBlack(p.up))
  }

  lemma {:induction false} PlugRules<N, V>(p: Path<N, V>, t: Tree<N, V>)
    ensures Balanced(Plug(p, t)) <==> Balanced(t) && Fits(p, BlackHeight(t))
    ensures NoRedRed(Plug(p, t)) <==> NoRedRed(t) && NoRedRedAbove(p) && (IsBlack(t) || UnderBlack(p))
    ensures IsBlack(Plug(p, t)) <==> if p.Top? then IsBlack(t) else TopBlack(p)
    decreases p
  {
    if p.In? {
      PlugRules(p.up, Join(p.side, t, p.e, p.color, p.sib));
    }
  }

  ghost function Paint<N, V>(t: Tree<N, V>, c: Color): Tree<N, V> {
    if t.Leaf? then t else t.(color := c)
  }

  // ---------- Insertion ----------

  /** `t` has a red root; everything is in order except that its parent may be red as well. */
  ghost predicate Climbing<N, V>(p: Path<N, V>, t: Tree<N, V>) {
    t.Node? && t.color.Red? && Balanced(t) && NoRedRed(t) &&
    Fits(p, BlackHeight(t)) && NoRedRedAbove(p) && TopBlack(p)
  }

  lemma InsertStart<N, V>(p: Path<N, V>, e: Entry<N, V>)
    requires p.In? && RedBlack(Plug(p, Leaf))
    ensures Climbing(p, Node(Leaf, e, Red, Leaf))
  {
    PlugRules(p, Leaf);
  }

  lemma InsertDone<N, V>(p: Path<N, V>, t: Tree<N, V>)
    requires Climbing(p, t) && UnderBlack(p)
    ensures RedBlack(Paint(Plug(p, t), Black))
    ensures p.In? ==> Paint(Plug(p, t), Black) == Plug(p, t)
  {
    PlugRules(p, t);
  }

  /** Under a red parent there is a black grandparent, so the fix-up never runs out of ancestors. */
  lemma InsertHasGrandparent<N, V>(p: Path<N, V>, t: Tree<N, V>)
    requires Climbing(p, t) && !UnderBlack(p)
    ensures p.up.In? && p.up.color.Black? && IsBlack(p.sib)
  {
  }

  /** Red uncle: recolour and climb two levels. */
  lemma InsertRecolour<N, V>(p: Path<N, V>, t: Tree<N, V>)
    requires Climbing(p, t) && !UnderBlack(p) && p.up.In? && !IsBlack(p.up.sib)
    ensures var g := p.up;
            Climbing(g.up, Join(g.side, Join(p.side, t, p.e, Black, p.sib), g.e, Red, Paint(g.sib, Black)))
  {
    var g := p.up;
    var q := Join(p.side, t, p.e, Black, p.sib);
    var u := Paint(g.sib, Black);
    assert TopBlack(g) && NoRedRedAbove(g) && Fits(g, BlackHeight(t)) && Balanced(g.sib) && NoRedRed(g.sib);
    assert Balanced(q) && NoRedRed(q) && Balanced(u) && NoRedRed(u);
    assert BlackHeight(q) == BlackHeight(t) + 1 && BlackHeight(u) == BlackHeight(q);
  }

  /** Black uncle, node on the inner side: rotating the parent moves it to the outer side. */
  lemma InsertInner<N, V>(p: Path<N, V>, t: Tree<N, V>)
    requires Climbing(p, t) && !UnderBlack(p) && p.up.In? && p.side != p.up.side
    ensures var q := Join(p.side, t, p.e, Red, p.sib);
            var t' := Join(p.up.side, p.sib, p.e, Red, t.Kid(p.up.side));
            var p' := In(p.up.side, t.e, Red, t.Kid(p.side), p.up);
            Climbing(p', t') && Plug(p', t') == Plug(p.up, Rotate(q, p.up.side)) && !UnderBlack(p')
  {
    var t' := Join(p.up.side, p.sib, p.e, Red, t.Kid(p.up.side));
    assert Balanced(t') && NoRedRed(t') && BlackHeight(t') == BlackHeight(t);
  }

  /** Black uncle, node on the outer side: recolour, rotate the grandparent, done. */
  lemma InsertOuter<N, V>(p: Path<N, V>, t: Tree<N, V>)
    requires Climbing(p, t) && !UnderBlack(p) && p.up.In? && p.side == p.up.side && IsBlack(p.up.sib)
    ensures var g := p.up;
            var q := Join(g.side, Join(p.side, t, p.e, Black, p.sib), g.e, Red, g.sib);
            var p' := In(p.side, p.e, Black, Join(p.side, p.sib, g.e, Red, g.sib), g.up);
            Climbing(p', t) && Plug(p', t) == Plug(g.up, Rotate(q, p.side.Flip()))
  {
    var g := p.up;
    var w := Join(p.side, p.sib, g.e, Red, g.sib);
    assert TopBlack(g) && NoRedRedAbove(g) && Fits(g, BlackHeight(t));
    assert Balanced(w) && NoRedRed(w) && BlackHeight(w) == BlackHeight(t);
  }

  // ---------- Deletion ----------

  /**
   `t` is one black short.  Its root may be red with red children below it: then blackening
   it ends the fix-up.
   */
  ghost predicate Deficient<N, V>(p: Path<N, V>, t: Tree<N, V>) {
    Balanced(t) && (t.Node? ==> NoRedRed(t.left) && NoRedRed(t.right)) &&
    Fits(p, BlackHeight(t) + 1) && NoRedRedAbove(p) && TopBlack(p)
  }

  lemma {:induction false} DeleteStart<N, V>(p: Path<N, V>, t: Tree<N, V>, e: Entry<N, V>, s: Side)
    requires RedBlack(Plug(p, Join(s, t, e, Black, Leaf)))
    ensures Deficient(p, t)
  {
    PlugRules(p, Join(s, t, e, Black, Leaf));
  }

  lemma DeleteRed<N, V>(p: Path<N, V>, t: Tree<N, V>, e: Entry<N, V>, s: Side)
    requires RedBlack(Plug(p, Join(s, t, e, Red, Leaf)))
    ensures RedBlack(Plug(p, t))
  {
    PlugRules(p, Join(s, t, e, Red, Leaf));
    PlugRules(p, t);
  }

  lemma CutRules<N, V>(p: Path<N, V>, t: Tree<N, V>, s: Side)
    requires t.Node? && t.Kid(s.Flip()).Leaf? && RedBlack(Plug(p, t))
    ensures if t.color.Black? then Deficient(p, t.Kid(s)) else RedBlack(Plug(p, t.Kid(s)))
  {
    if t.color.Black? {
      DeleteStart(p, t.Kid(s), t.e, s);
    } else {
      DeleteRed(p, t.Kid(s), t.e, s);
    }
  }

  lemma DeleteDone<N, V>(p: Path<N, V>, t: Tree<N, V>)
    requires Deficient(p, t) && (p.Top? || !IsBlack(t))
    ensures RedBlack(Plug(p, Paint(t, Black)))
  {
    PlugRules(p, Paint(t, Black));
  }

  /** A deficient position always has a real sibling. */
  lemma DeleteHasSibling<N, V>(p: Path<N, V>, t: Tree<N, V>)
    requires Deficient(p, t) && p.In?
    ensures p.sib.Node?
  {
  }

  /** Red sibling: rotate it up, which brings a black sibling next to the node. */
  lemma DeleteRedSibling<N, V>(p: Path<N, V>, t: Tree<N, V>)
    requires Deficient(p, t) && p.In? && !IsBlack(p.sib)
    ensures var s, w := p.side, p.sib;
            var q := Join(s, t, p.e, Red, Paint(w, Black));
            var p' := In(s, p.e, Red, w.Kid(s), In(s, w.e, Black, w.Kid(s.Flip()), p.up));
            Deficient(p', t) && Plug(p', t) == Plug(p.up, Rotate(q, s)) && p.color.Black? &&
            p'.sib.Node? && IsBlack(p'.sib)
  {
    var s, w := p.side, p.sib;
    assert Balanced(w.Kid(s)) && Balanced(w.Kid(s.Flip()));
    assert NoRedRed(w.Kid(s)) && NoRedRed(w.Kid(s.Flip()));
    var p1 := In(s, w.e, Black, w.Kid(s.Flip()), p.up);
    assert Fits(p1, BlackHeight(t) + 1) && NoRedRedAbove(p1) && TopBlack(p1);
  }

  /** Black sibling with black children: redden it and move the deficit up. */
  lemma DeleteRecolour<N, V>(p: Path<N, V>, t: Tree<N, V>)
    requires Deficient(p, t) && p.In? && p.sib.Node? && IsBlack(t) && IsBlack(p.sib)
    requires IsBlack(p.sib.left) && IsBlack(p.sib.right)
    ensures Deficient(p.up, Join(p.side, t, p.e, p.color, Paint(p.sib, Red)))
  {
    var w := Paint(p.sib, Red);
    assert Balanced(w) && NoRedRed(w) && BlackHeight(w) == BlackHeight(t);
    assert NoRedRed(t);
  }

  /** Black sibling whose far child is black and near child red: rotate the sibling outwards. */
  lemma DeleteNear<N, V>(p: Path<N, V>, t: Tree<N, V>)
    requires Deficient(p, t) && p.In? && p.sib.Node? && IsBlack(p.sib)
    requires !IsBlack(p.sib.Kid(p.side)) && IsBlack(p.sib.Kid(p.side.Flip()))
    ensures var s, w := p.side, p.sib;
            var q := Join(s, Paint(w.Kid(s), Black), w.e, Red, w.Kid(s.Flip()));
            var w' := Rotate(q, s.Flip());
            var p' := p.(sib := w');
            Deficient(p', t) && w'.Node? && IsBlack(w') && !IsBlack(w'.Kid(s.Flip()))
  {
    var s, w := p.side, p.sib;
    var n := w.Kid(s);
    var r := Join(s, n.Kid(s.Flip()), w.e, Red, w.Kid(s.Flip()));
    assert Balanced(n) && NoRedRed(n);
    assert Balanced(r) && NoRedRed(r) && BlackHeight(r) == BlackHeight(t);
    var w' := Join(s, n.Kid(s), n.e, Black, r);
    assert Balanced(w') && NoRedRed(w') && BlackHeight(w') == BlackHeight(t) + 1;
  }

  /** Black sibling with a red far child: one rotation of the parent ends the fix-up. */
  lemma DeleteFar<N, V>(p: Path<N, V>, t: Tree<N, V>)
    requires Deficient(p, t) && p.In? && p.sib.Node? && IsBlack(t) && IsBlack(p.sib)
    requires !IsBlack(p.sib.Kid(p.side.Flip()))
    ensures var s, w := p.side, p.sib;
            var q := Join(s, t, p.e, Black, Join(s, w.Kid(s), w.e, p.color, Paint(w.Kid(s.Flip()), Black)));
            RedBlack(Plug(p.up, Rotate(q, s)))
  {
    var s, w := p.side, p.sib;
    var f := Paint(w.Kid(s.Flip()), Black);
    assert Balanced(w.Kid(s.Flip())) && NoRedRed(w.Kid(s.Flip()));
    assert Balanced(w.Kid(s)) && Balanced(f) && NoRedRed(w.Kid(s)) && NoRedRed(f);
    var r := Join(s, t, p.e, Black, w.Kid(s));
    assert NoRedRed(t);
    assert Balanced(r) && NoRedRed(r) && BlackHeight(r) == BlackHeight(t) + 1 == BlackHeight(f);
    var t' := Join(s, r, w.e, p.color, f);
    assert Balanced(t') && NoRedRed(t');
    PlugRules(p.up, t');
  }

  // ---------- Deleting a node with two children ----------

  /** The rules do not see which entry a path node carries. */
  lemma {:induction false} Reentry<N, V>(q: Path<N, V>, b: Path<N, V>, e: Entry<N, V>, h: nat)
    requires b.In?
    ensures var b' := b.(e := e);
            (Fits(Append(q, b'), h) <==> Fits(Append(q, b), h)) &&
            (NoRedRedAbove(Append(q, b')) <==> NoRedRedAbove(Append(q, b))) &&
            (UnderBlack(Append(q, b')) <==> UnderBlack(Append(q, b))) &&
            (TopBlack(Append(q, b')) <==> TopBlack(Append(q, b)))
    decreases q
  {
    if q.In? {
      Reentry(q.up, b, e, h + Weight(q.color));
    }
  }

  /** The successor `y` moves up into the place of the deleted node; its right child takes its place. */
  lemma SpliceRules<N, V>(q: Path<N, V>, b: Path<N, V>, y: Tree<N, V>)
    requires b.In? && y.Node? && y.left.Leaf? && RedBlack(Plug(Append(q, b), y))
    ensures var p' := Append(q, b.(e := y.e));
            if y.color.Black? then Deficient(p', y.right) else RedBlack(Plug(p', y.right))
  {
    var p, p' := Append(q, b), Append(q, b.(e := y.e));
    Reentry(q, b, y.e, BlackHeight(y.right) + 1);
    Reentry(q, b, y.e, BlackHeight(y.right));
    if y.color.Black? {
      DeleteStart(p, y.right, y.e, Hi);
    } else {
      DeleteRed(p, y.right, y.e, Hi);
      PlugRules(p, y.right);
      PlugRules(p', y.right);
      assert q.Top? ==> p' == b.(e := y.e);
    }
  }

  // ---------- Counting blacks, and the height ----------

  /** Every way down to a missing child, entered with count `c`, ends with count `k`. */
  ghost predicate Uniform<N, V>(t: Tree<N, V>, c: int, k: int) {
    if t.Leaf? then c == k
    else Uniform(t.left, c + Weight(t.color), k) && Uniform(t.right, c + Weight(t.color), k)
  }

  lemma {:induction false} UniformIsBalanced<N, V>(t: Tree<N, V>, c: int, k: int)
    ensures Uniform(t, c, k) <==> Balanced(t) && k == c + BlackHeight(t)
    decreases t
  {
    if t.Node? {
      UniformIsBalanced(t.left, c + Weight(t.color), k);
      UniformIsBalanced(t.right, c + Weight(t.color), k);
    }
  }

  /** The black counts at the missing children, from left to right. */
  ghost function LeafCounts<N, V>(t: Tree<N, V>, c: int): (r: seq<int>)
    ensures |r| > 0
  {
    if t.Leaf? then [c]
    else LeafCounts(t.left, c + Weight(t.color)) + LeafCounts(t.right, c + Weight(t.color))
  }

  ghost predicate AllAre(s: seq<int>, k: int) {
    forall i :: 0 <= i < |s| ==> s[i] == k
  }

  lemma AllAreConcat(a: seq<int>, b: seq<int>, k: int)
    ensures AllAre(a + b, k) <==> AllAre(a, k) && AllAre(b, k)
  {
    if AllAre(a + b, k) {
      forall i | 0 <= i < |a| ensures a[i] == k { assert (a + b)[i] == a[i]; }
      forall i | 0 <= i < |b| ensures b[i] == k { assert (a + b)[|a| + i] == b[i]; }
    }
  }

  lemma {:induction false} LeafCountsUniform<N, V>(t: Tree<N, V>, c: int, k: int)
    ensures Uniform(t, c, k) <==> AllAre(LeafCounts(t, c), k)
    decreases t
  {
    if t.Node? {
      var c' := c + Weight(t.color);
      LeafCountsUniform(t.left, c', k);
      LeafCountsUniform(t.right, c', k);
      AllAreConcat(LeafCounts(t.left, c'), LeafCounts(t.right, c'), k);
    } else {
      assert LeafCounts(t, c)[0] == c;
    }
  }

  lemma {:induction false} LeafCountsFirst<N, V>(t: Tree<N, V>, c: int)
    ensures LeafCounts(t, c)[0] == c + BlackHeight(t)
    decreases t
  {
    if t.Node? {
      LeafCountsFirst(t.left, c + Weight(t.color));
    }
  }

  ghost function Height<N, V>(t: Tree<N, V>): nat {
    if t.Leaf? then 0
    else 1 + if Height(t.left) >= Height(t.right) then Height(t.left) else Height(t.right)
  }

  /** No node is deeper than the height. */
  lemma {:induction false} HeightAbove<N, V>(p: Path<N, V>, t: Tree<N, V>)
    ensures Depth(p) + Height(t) <= Height(Plug(p, t))
    decreases p
  {
    if p.In? {
      HeightAbove(p.up, Join(p.side, t, p.e, p.color, p.sib));
    }
  }

  /** Some node is as deep as that. */
  lemma {:induction false} HeightReached<N, V>(t: Tree<N, V>) returns (p: Path<N, V>, u: Tree<N, V>)
    requires t.Node?
    ensures Plug(p, u) == t && u.Node? && Depth(p) + 1 == Height(t)
    decreases t
  {
    var s := if Height(t.left) >= Height(t.right) then Lo else Hi;
    if t.Kid(s).Leaf? {
      p, u := Top, t;
    } else {
      var q;
      q, u := HeightReached(t.Kid(s));
      var top := In(s, t.e, t.color, t.Kid(s.Flip()), Top);
      AppendPlug(q, top, u);
      AppendDepth(q, top);
      p := Append(q, top);
    }
  }

  lemma {:induction false} AppendDepth<N, V>(q: Path<N, V>, b: Path<N, V>)
    ensures Depth(Append(q, b)) == Depth(q) + Depth(b)
  {
    if q.In? { AppendDepth(q.up, b); }
  }

  /** The height is one more than the depth of the deepest node. */
  lemma HeightIsDepth<N, V>(t: Tree<N, V>)
    ensures t.Leaf? ==> Height(t) == 0
    ensures forall p, u :: Plug(p, u) == t && u.Node? ==> Depth(p) < Height(t)
    ensures t.Node? ==> exists p, u :: Plug(p, u) == t && u.Node? && Depth(p) + 1 == Height(t)
  {
    forall p, u | Plug(p, u) == t && u.Node? ensures Depth(p) < Height(t) {
      HeightAbove(p, u);
    }
    if t.Node? {
      var p, u := HeightReached(t);
    }
  }

  function Pow2(k: nat): nat {
    if k == 0 then 1 else 2 * Pow2(k - 1)
  }

  /** The whole part of the binary logarithm. */
  function Log2(n: nat): nat
    requires n >= 1
  {
    if n == 1 then 0 else 1 + Log2(n / 2)
  }

  lemma {:induction false} Log2Bounds(n: nat)
    requires n >= 1
    ensures Pow2(Log2(n)) <= n < Pow2(Log2(n) + 1)
  {
    if n > 1 {
      Log2Bounds(n / 2);
    }
  }

  lemma {:induction false} Pow2Monotone(a: nat, b: nat)
    requires a <= b
    ensures Pow2(a) <= Pow2(b)
  {
    if a < b {
      Pow2Monotone(a, b - 1);
    }
  }

  lemma {:induction false} HeightBelowBlack<N, V>(t: Tree<N, V>)
    requires Balanced(t) && NoRedRed(t)
    ensures Height(t) <= 2 * BlackHeight(t) + if IsBlack(t) then 0 else 1
    ensures |Flat(t)| + 1 >= Pow2(BlackHeight(t))
    decreases t
  {
    if t.Node? {
      HeightBelowBlack(t.left);
      HeightBelowBlack(t.right);
    }
  }

  /** A red-black tree with n entries is at most 2 * floor(log2(n + 1)) high. */
  lemma HeightBound<N, V>(t: Tree<N, V>)
    requires RedBlack(t)
    ensures Height(t) <= 2 * Log2(|Flat(t)| + 1)
  {
    HeightBelowBlack(t);
    var n := |Flat(t)| + 1;
    Log2Bounds(n);
    if BlackHeight(t) > Log2(n) {
      Pow2Monotone(Log2(n) + 1, BlackHeight(t));
    }
  }
}
