/**
 The shape of a red-black tree, free of any heap.

 A `Tree` is what a pointer structure represents; a `Path` is such a tree with one
 subtree cut out, seen from the hole upwards.  `Plug` puts the subtree back.  Both
 pointer implementations (with null leaves, and with a shared sentinel) are proved
 against these definitions.  `N` is the type of the node references, so that a shape
 also records which node object stands where.
 */
module RBShape {
  import opened Common

  datatype Color = Red | Black

  datatype Side = Lo | Hi {
    function Flip(): Side { if Lo? then Hi else Lo }
  }

  datatype Entry<N, V> = Entry(ref: N, key: int, value: V)

  datatype Tree<N, V> =
    | Leaf
    | Node(left: Tree<N, V>, e: Entry<N, V>, color: Color, right: Tree<N, V>)
  {
    ghost function Kid(s: Side): Tree<N, V>
      requires Node?
    {
      if s.Lo? then left else right
    }
  }

  /** `In(s, e, c, sib, up)`: the hole is the `s` child of `e`, whose other child is `sib`. */
  datatype Path<N, V> =
    | Top
    | In(side: Side, e: Entry<N, V>, color: Color, sib: Tree<N, V>, up: Path<N, V>)

  /** The node with `t` on side `s` and `sib` on the other one. */
  ghost function Join<N, V>(s: Side, t: Tree<N, V>, e: Entry<N, V>, c: Color, sib: Tree<N, V>): (r: Tree<N, V>) {
    if s.Lo? then Node(t, e, c, sib) else Node(sib, e, c, t)
  }

  ghost function Plug<N, V>(p: Path<N, V>, t: Tree<N, V>): Tree<N, V>
    decreases p
  {
    if p.Top? then t else Plug(p.up, Join(p.side, t, p.e, p.color, p.sib))
  }

  ghost function Depth<N, V>(p: Path<N, V>): nat {
    if p.Top? then 0 else 1 + Depth(p.up)
  }

  // ---------- Contents, in key order ----------

  ghost function Flat<N, V>(t: Tree<N, V>): seq<Entry<N, V>> {
    match t
    case Leaf => []
    case Node(l, e, _, r) => Flat(l) + [e] + Flat(r)
  }

  ghost function Before<N, V>(p: Path<N, V>): seq<Entry<N, V>> {
    if p.Top? then []
    else if p.side.Lo? then Before(p.up)
    else Before(p.up) + Flat(p.sib) + [p.e]
  }

  ghost function After<N, V>(p: Path<N, V>): seq<Entry<N, V>> {
    if p.Top? then []
    else if p.side.Lo? then [p.e] + Flat(p.sib) + After(p.up)
    else After(p.up)
  }

  lemma {:induction false} FlatPlug<N, V>(p: Path<N, V>, t: Tree<N, V>)
    ensures Flat(Plug(p, t)) == Before(p) + Flat(t) + After(p)
    decreases p
  {
    if p.In? {
      FlatPlug(p.up, Join(p.side, t, p.e, p.color, p.sib));
      if p.side.Lo? {
        Regroup(Before(p.up), Flat(t), [p.e], Flat(p.sib), After(p.up));
      } else {
        Regroup(Before(p.up), Flat(p.sib), [p.e], Flat(t), After(p.up));
      }
    }
  }

  /** Strictly increasing keys. */
  ghost predicate Sorted<N, V>(s: seq<Entry<N, V>>) {
    forall i, j :: 0 <= i < j < |s| ==> s[i].key < s[j].key
  }

  // ---------- The node objects of a shape ----------

  ghost function Refs<N, V>(t: Tree<N, V>): set<N> {
    match t
    case Leaf => {}
    case Node(l, e, _, r) => Refs(l) + {e.ref} + Refs(r)
  }

  ghost function PathRefs<N, V>(p: Path<N, V>): set<N> {
    if p.Top? then {} else {p.e.ref} + Refs(p.sib) + PathRefs(p.up)
  }

  /** No node object occurs twice. */
  ghost predicate Distinct<N, V>(t: Tree<N, V>) {
    match t
    case Leaf => true
    case Node(l, e, _, r) =>
      Distinct(l) && Distinct(r) && e.ref !in Refs(l) && e.ref !in Refs(r) && Refs(l) !! Refs(r)
  }

  ghost predicate DistinctPath<N, V>(p: Path<N, V>) {
    p.Top? ||
    (Distinct(p.sib) && DistinctPath(p.up) &&
     p.e.ref !in Refs(p.sib) && p.e.ref !in PathRefs(p.up) && Refs(p.sib) !! PathRefs(p.up))
  }

  lemma {:induction false} PlugRefs<N, V>(p: Path<N, V>, t: Tree<N, V>)
    ensures Refs(Plug(p, t)) == PathRefs(p) + Refs(t)
    ensures Distinct(Plug(p, t)) <==> Distinct(t) && DistinctPath(p) && Refs(t) !! PathRefs(p)
    decreases p
  {
    if p.In? {
      PlugRefs(p.up, Join(p.side, t, p.e, p.color, p.sib));
    }
  }

  // ---------- Rotation ----------

  /** Rotation towards side `s`: the root goes down on side `s`, its other child comes up. */
  ghost function Rotate<N, V>(t: Tree<N, V>, s: Side): Tree<N, V>
    requires t.Node?
  {
    var y := t.Kid(s.Flip());
    if y.Leaf? then t
    else Join(s, Join(s, t.Kid(s), t.e, t.color, y.Kid(s)), y.e, y.color, y.Kid(s.Flip()))
  }

  lemma {:induction false} RotateFlat<N, V>(t: Tree<N, V>, s: Side)
    requires t.Node?
    ensures Flat(Rotate(t, s)) == Flat(t) && Refs(Rotate(t, s)) == Refs(t)
    ensures Distinct(Rotate(t, s)) == Distinct(t)
  {
    var y := t.Kid(s.Flip());
    if y.Node? {
      Regroup(Flat(t.left), [t.e], Flat(y.left), [y.e], Flat(y.right));
      Regroup(Flat(y.left), [y.e], Flat(y.right), [t.e], Flat(t.right));
    }
  }

  // ---------- Paths that continue paths ----------

  ghost function Append<N, V>(q: Path<N, V>, b: Path<N, V>): Path<N, V> {
    if q.Top? then b else q.(up := Append(q.up, b))
  }

  lemma {:induction false} AppendPlug<N, V>(q: Path<N, V>, b: Path<N, V>, t: Tree<N, V>)
    ensures Plug(Append(q, b), t) == Plug(b, Plug(q, t))
    decreases q
  {
    if q.In? {
      AppendPlug(q.up, b, Join(q.side, t, q.e, q.color, q.sib));
    }
  }

  /** The way down to the first entry: left turns only. */
  ghost predicate Leftmost<N, V>(q: Path<N, V>) {
    q.Top? || (q.side.Lo? && Leftmost(q.up))
  }

  lemma {:induction false} AppendFlat<N, V>(q: Path<N, V>, b: Path<N, V>)
    requires Leftmost(q)
    ensures Before(Append(q, b)) == Before(b) && After(Append(q, b)) == After(q) + After(b)
    decreases q
  {
    if q.In? {
      AppendFlat(q.up, b);
      assert [q.e] + Flat(q.sib) + (After(q.up) + After(b)) == [q.e] + Flat(q.sib) + After(q.up) + After(b);
    }
  }

  lemma {:induction false} PlugNode<N, V>(q: Path<N, V>, t: Tree<N, V>)
    ensures Plug(q, t).Node? <==> q.In? || t.Node?
    decreases q
  {
    if q.In? {
      PlugNode(q.up, Join(q.side, t, q.e, q.color, q.sib));
    }
  }

  /** Below the right child, the first entry's parent is another node than the one above. */
  lemma SuccessorParent<N, V>(p: Path<N, V>, t: Tree<N, V>, q: Path<N, V>, y: Tree<N, V>)
    requires t.Node? && t.right == Plug(q, y) && Distinct(Plug(p, t))
    ensures q.In? ==> q.e.ref != t.e.ref
  {
    PlugRefs(p, t);
    PlugRefs(q, y);
  }
}
