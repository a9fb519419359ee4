/**
 The edits of a search tree as a whole: what each does to the key order, to the map it
 stands for and to the red-black rules.
 */
module RBUpdates {
  import opened RBShape
  import opened RBBalance
  import opened RBContents

  /** A new red leaf at a missing key. */
  lemma AttachSpec<N, V>(p: Path<N, V>, e: Entry<N, V>)
    requires p.In? && Bracket(p, e.key) && Sorted(Flat(Plug(p, Leaf))) && RedBlack(Plug(p, Leaf))
    ensures var t := Node(Leaf, e, Red, Leaf);
            Climbing(p, t) && Sorted(Flat(Plug(p, t))) && |Flat(Plug(p, t))| == |Flat(Plug(p, Leaf))| + 1 &&
            ToMap(Flat(Plug(p, t))) == ToMap(Flat(Plug(p, Leaf)))[e.key := e.value]
  {
    InsertStart(p, e);
    Extended(p, Node(Leaf, e, Red, Leaf));
  }

  /** Another value for the key at the root of `t`. */
  lemma RebindSpec<N, V>(p: Path<N, V>, t: Tree<N, V>, v: V)
    requires t.Node? && Sorted(Flat(Plug(p, t))) && RedBlack(Plug(p, t))
    ensures var t' := Plug(p, Node(t.left, t.e.(value := v), t.color, t.right));
            Sorted(Flat(t')) && |Flat(t')| == |Flat(Plug(p, t))| && RedBlack(t') &&
            t.e.key in ToMap(Flat(Plug(p, t))) && ToMap(Flat(t')) == ToMap(Flat(Plug(p, t)))[t.e.key := v]
  {
    var u := Node(t.left, t.e.(value := v), t.color, t.right);
    PlugRules(p, t);
    PlugRules(p, u);
    Found(p, t);
    Rebound(p, t, u);
  }

  /** A node with at most one child is cut out. */
  lemma CutSpec<N, V>(p: Path<N, V>, t: Tree<N, V>, s: Side)
    requires t.Node? && t.Kid(s.Flip()).Leaf? && Sorted(Flat(Plug(p, t))) && RedBlack(Plug(p, t))
    ensures var t' := Plug(p, t.Kid(s));
            Sorted(Flat(t')) && |Flat(t')| == |Flat(Plug(p, t))| - 1 &&
            ToMap(Flat(t')) == ToMap(Flat(Plug(p, t))) - {t.e.key} &&
            if t.color.Black? then Deficient(p, t.Kid(s)) else RedBlack(t')
  {
    CutContents(p, t, s);
    CutRules(p, t, s);
  }

  /** A node with two children is replaced by its successor. */
  lemma {:induction false} SpliceSpec<N, V>(p: Path<N, V>, t: Tree<N, V>, q: Path<N, V>, y: Tree<N, V>)
    requires t.Node? && y.Node? && y.left.Leaf? && Leftmost(q) && t.right == Plug(q, y)
    requires Sorted(Flat(Plug(p, t))) && RedBlack(Plug(p, t))
    ensures var p' := Append(q, In(Hi, y.e, t.color, t.left, p));
            var t' := Plug(p', y.right);
            Sorted(Flat(t')) && |Flat(t')| == |Flat(Plug(p, t))| - 1 &&
            ToMap(Flat(t')) == ToMap(Flat(Plug(p, t))) - {t.e.key} &&
            if y.color.Black? then Deficient(p', y.right) else RedBlack(t')
  {
    SpliceContents(p, t, q, y);
    AppendPlug(q, In(Hi, t.e, t.color, t.left, p), y);
    SpliceRules(q, In(Hi, t.e, t.color, t.left, p), y);
  }
}
