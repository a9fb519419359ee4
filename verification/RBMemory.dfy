/**
 How a shape lies in memory.

 `Mem` is a snapshot of the fields of a set of node objects.  `Linked` says that the
 snapshot realises a shape, with every child and parent link in place; `Above` says the
 same of a path whose hole is filled by a given pointer.  `nil` stands for the pointer
 that marks a missing child (null in one implementation, the sentinel in the other) and
 `none` for the parent of the root.
 */
module RBMemory {
  import opened RBShape

  datatype Cell<N, V> = Cell(left: N, right: N, parent: N, color: Color, key: int, value: V) {
    ghost function Kid(s: Side): N { if s.Lo? then left else right }
    ghost function SetKid(s: Side, v: N): Cell<N, V> {
      if s.Lo? then this.(left := v) else this.(right := v)
    }
  }

  type Mem<N, V> = map<N, Cell<N, V>>

  ghost function RootRef<N, V>(t: Tree<N, V>, nil: N): N {
    if t.Leaf? then nil else t.e.ref
  }

  ghost function ParentRef<N, V>(p: Path<N, V>, none: N): N {
    if p.Top? then none else p.e.ref
  }

  /** The root of the whole tree, for a path whose hole holds `hole`. */
  ghost function TopRef<N, V>(p: Path<N, V>, hole: N): N {
    if p.Top? then hole else TopRef(p.up, p.e.ref)
  }

  /** The cell of the root of `t`. */
  ghost function NodeCell<N, V>(t: Tree<N, V>, par: N, nil: N): Cell<N, V>
    requires t.Node?
  {
    Cell(RootRef(t.left, nil), RootRef(t.right, nil), par, t.color, t.e.key, t.e.value)
  }

  ghost predicate Linked<N, V>(m: Mem<N, V>, t: Tree<N, V>, par: N, nil: N)
    decreases t
  {
    match t
    case Leaf => true
    case Node(l, e, c, r) =>
      e.ref in m && m[e.ref] == NodeCell(t, par, nil) &&
      Linked(m, l, e.ref, nil) && Linked(m, r, e.ref, nil)
  }

  /** The cell of the node above the hole. */
  ghost function Frame<N, V>(p: Path<N, V>, hole: N, nil: N, none: N): Cell<N, V>
    requires p.In?
  {
    var sib := RootRef(p.sib, nil);
    Cell(if p.side.Lo? then hole else sib, if p.side.Lo? then sib else hole,
         ParentRef(p.up, none), p.color, p.e.key, p.e.value)
  }

  ghost predicate Above<N, V>(m: Mem<N, V>, p: Path<N, V>, hole: N, nil: N, none: N)
    decreases p
  {
    p.Top? ||
    (p.e.ref in m && m[p.e.ref] == Frame(p, hole, nil, none) &&
     Linked(m, p.sib, p.e.ref, nil) && Above(m, p.up, p.e.ref, nil, none))
  }

  /** A whole tree is in place exactly when any subtree and the path above it are. */
  lemma {:induction false} Focus<N, V>(m: Mem<N, V>, p: Path<N, V>, t: Tree<N, V>, nil: N, none: N)
    ensures Linked(m, Plug(p, t), none, nil) <==>
            Linked(m, t, ParentRef(p, none), nil) && Above(m, p, RootRef(t, nil), nil, none)
    ensures RootRef(Plug(p, t), nil) == TopRef(p, RootRef(t, nil))
    decreases p
  {
    if p.In? {
      Focus(m, p.up, Join(p.side, t, p.e, p.color, p.sib), nil, none);
    }
  }

  /** `t` stands in memory, without sharing, and its root pointer is `root`. */
  ghost predicate InPlace<N, V>(m: Mem<N, V>, t: Tree<N, V>, root: N, nil: N, none: N) {
    root == RootRef(t, nil) && Linked(m, t, none, nil) && Distinct(t)
  }

  /** The fields around a subtree of a tree in place. */
  lemma Look<N, V>(m: Mem<N, V>, p: Path<N, V>, t: Tree<N, V>, root: N, nil: N, none: N)
    requires InPlace(m, Plug(p, t), root, nil, none)
    ensures root == TopRef(p, RootRef(t, nil))
    ensures t.Node? ==> t.e.ref in m && m[t.e.ref] == NodeCell(t, ParentRef(p, none), nil)
    ensures p.In? ==> p.e.ref in m && m[p.e.ref] == Frame(p, RootRef(t, nil), nil, none)
    ensures p.In? ==> p.e.ref !in Refs(t) && root in m && root !in Refs(t)
    ensures p.In? && p.sib.Node? ==> p.sib.e.ref in m && p.sib.e.ref !in Refs(t)
    ensures Refs(t) <= Refs(Plug(p, t)) && PathRefs(p) <= Refs(Plug(p, t))
  {
    Focus(m, p, t, nil, none);
    PlugRefs(p, t);
    if p.In? {
      TopRefIn(m, p, RootRef(t, nil), nil, none);
    }
  }

  lemma LookKid<N, V>(m: Mem<N, V>, p: Path<N, V>, t: Tree<N, V>, s: Side, root: N, nil: N, none: N)
    requires InPlace(m, Plug(p, t), root, nil, none) && t.Node? && t.Kid(s).Node?
    ensures t.Kid(s).e.ref in m && t.Kid(s).e.ref != t.e.ref && (p.In? ==> p.e.ref != t.Kid(s).e.ref)
  {
    Look(m, In(s, t.e, t.color, t.Kid(s.Flip()), p), t.Kid(s), root, nil, none);
    Look(m, p, t, root, nil, none);
    assert t.Kid(s).e.ref in Refs(t.Kid(s)) && Refs(t.Kid(s)) <= Refs(t);
  }

  lemma {:induction false} TopRefIn<N, V>(m: Mem<N, V>, p: Path<N, V>, hole: N, nil: N, none: N)
    requires p.In? && Above(m, p, hole, nil, none)
    ensures TopRef(p, hole) in PathRefs(p) && TopRef(p, hole) in m
    decreases p
  {
    if p.up.In? {
      TopRefIn(m, p.up, p.e.ref, nil, none);
    }
  }

  ghost predicate Agree<N, V>(m: Mem<N, V>, m': Mem<N, V>, s: set<N>) {
    forall n :: n in s && n in m ==> n in m' && m'[n] == m[n]
  }

  lemma {:induction false} LinkedFrame<N, V>(m: Mem<N, V>, m': Mem<N, V>, t: Tree<N, V>, par: N, nil: N)
    requires Linked(m, t, par, nil) && Agree(m, m', Refs(t))
    ensures Linked(m', t, par, nil)
    decreases t
  {
    match t
    case Leaf =>
    case Node(l, e, c, r) =>
      LinkedFrame(m, m', l, e.ref, nil);
      LinkedFrame(m, m', r, e.ref, nil);
  }

  lemma {:induction false} AboveFrame<N, V>(m: Mem<N, V>, m': Mem<N, V>, p: Path<N, V>, hole: N, nil: N, none: N)
    requires Above(m, p, hole, nil, none) && Agree(m, m', PathRefs(p))
    ensures Above(m', p, hole, nil, none)
    decreases p
  {
    if p.In? {
      LinkedFrame(m, m', p.sib, p.e.ref, nil);
      AboveFrame(m, m', p.up, p.e.ref, nil, none);
    }
  }

  // ---------- Effect of single pointer writes ----------

  /** The node above the hole takes `v` as its child. */
  ghost function Hang<N, V>(m: Mem<N, V>, p: Path<N, V>, v: N): Mem<N, V> {
    if p.Top? || p.e.ref !in m then m
    else m[p.e.ref := m[p.e.ref].SetKid(p.side, v)]
  }

  lemma HangAbove<N, V>(m: Mem<N, V>, p: Path<N, V>, hole: N, v: N, nil: N, none: N)
    requires Above(m, p, hole, nil, none) && DistinctPath(p)
    ensures Above(Hang(m, p, v), p, v, nil, none)
  {
    if p.In? {
      var m' := Hang(m, p, v);
      LinkedFrame(m, m', p.sib, p.e.ref, nil);
      AboveFrame(m, m', p.up, p.e.ref, nil, none);
    }
  }

  /** The root of `t`, if any, takes `par` as its parent. */
  ghost function Adopt<N, V>(m: Mem<N, V>, t: Tree<N, V>, par: N): Mem<N, V> {
    if t.Leaf? || t.e.ref !in m then m else m[t.e.ref := m[t.e.ref].(parent := par)]
  }

  lemma AdoptLinked<N, V>(m: Mem<N, V>, t: Tree<N, V>, was: N, par: N, nil: N)
    requires Linked(m, t, was, nil) && Distinct(t)
    ensures Linked(Adopt(m, t, par), t, par, nil)
  {
    if t.Node? {
      var m' := Adopt(m, t, par);
      LinkedFrame(m, m', t.left, t.e.ref, nil);
      LinkedFrame(m, m', t.right, t.e.ref, nil);
    }
  }

  // ---------- Rotation ----------

  /** `m'` is `m` after the writes of a rotation of `t` towards side `s`. */
  ghost predicate Turned<N, V>(m: Mem<N, V>, m': Mem<N, V>, p: Path<N, V>, t: Tree<N, V>, s: Side)
    requires t.Node? && t.Kid(s.Flip()).Node?
  {
    var x, y, b := t.e.ref, t.Kid(s.Flip()).e.ref, t.Kid(s.Flip()).Kid(s);
    x in m && y in m && m.Keys <= m'.Keys &&
    m'[x] == m[x].SetKid(s.Flip(), m[y].Kid(s)).(parent := y) &&
    m'[y] == m[y].SetKid(s, x).(parent := m[x].parent) &&
    (b.Node? && b.e.ref in m ==> m'[b.e.ref] == m[b.e.ref].(parent := x)) &&
    (p.In? && p.e.ref in m ==> m'[p.e.ref] == m[p.e.ref].SetKid(p.side, y)) &&
    forall n :: n in m && n != x && n != y && (b.Node? ==> n != b.e.ref) && (p.In? ==> n != p.e.ref) ==>
      m'[n] == m[n]
  }

  lemma TurnLinked<N, V>(m: Mem<N, V>, m': Mem<N, V>, p: Path<N, V>, t: Tree<N, V>, s: Side, nil: N, none: N)
    requires t.Node? && t.Kid(s.Flip()).Node? && Turned(m, m', p, t, s)
    requires Distinct(t) && DistinctPath(p) && Refs(t) !! PathRefs(p)
    requires Linked(m, t, ParentRef(p, none), nil) && Above(m, p, t.e.ref, nil, none)
    ensures var t' := Rotate(t, s);
            Linked(m', t', ParentRef(p, none), nil) && Above(m', p, t'.e.ref, nil, none)
  {
    var T := t.Kid(s.Flip());
    var x, y := t.e.ref, T.e.ref;
    var a, b, c := t.Kid(s), T.Kid(s), T.Kid(s.Flip());
    assert Linked(m, T, x, nil) && Distinct(T) && Refs(T) <= Refs(t) && y !in PathRefs(p);
    AdoptLinked(m, b, y, x, nil);
    LinkedFrame(Adopt(m, b, x), m', b, x, nil);
    HangAbove(m, p, x, y, nil, none);
    AboveFrame(Hang(m, p, y), m', p, y, nil, none);
    LinkedFrame(m, m', a, x, nil);
    LinkedFrame(m, m', c, y, nil);
    assert Linked(m', Rotate(t, s).Kid(s), y, nil);
  }

  /** The pointers that a rotation reads, and that they are all different. */
  lemma BeforeTurn<N, V>(m: Mem<N, V>, p: Path<N, V>, t: Tree<N, V>, s: Side, root: N, nil: N, none: N)
    requires InPlace(m, Plug(p, t), root, nil, none) && t.Node? && t.Kid(s.Flip()).Node?
    ensures var T := t.Kid(s.Flip());
            t.e.ref in m && T.e.ref in m && m[T.e.ref] == NodeCell(T, t.e.ref, nil) && t.e.ref != T.e.ref &&
            (T.Kid(s).Node? ==> T.Kid(s).e.ref in m && T.Kid(s).e.ref !in {t.e.ref, T.e.ref}) &&
            (p.In? ==> p.e.ref !in {t.e.ref, T.e.ref} && (T.Kid(s).Node? ==> p.e.ref != T.Kid(s).e.ref))
  {
    Focus(m, p, t, nil, none);
    PlugRefs(p, t);
    var T := t.Kid(s.Flip());
    assert Linked(m, T, t.e.ref, nil) && Distinct(T) && Refs(T) <= Refs(t);
    assert Linked(m, T.Kid(s), T.e.ref, nil);
    assert T.Kid(s).Node? ==> T.Kid(s).e.ref in Refs(T.Kid(s)) && T.Kid(s).e.ref in Refs(T);
  }

  lemma TurnInPlace<N, V>(m: Mem<N, V>, m': Mem<N, V>, p: Path<N, V>, t: Tree<N, V>, s: Side, root: N, nil: N, none: N)
    requires InPlace(m, Plug(p, t), root, nil, none) && t.Node? && t.Kid(s.Flip()).Node?
    requires Turned(m, m', p, t, s)
    ensures Flat(Plug(p, Rotate(t, s))) == Flat(Plug(p, t))
    ensures InPlace(m', Plug(p, Rotate(t, s)), TopRef(p, t.Kid(s.Flip()).e.ref), nil, none)
  {
    Focus(m, p, t, nil, none);
    PlugRefs(p, t);
    TurnLinked(m, m', p, t, s, nil, none);
    RotateFlat(t, s);
    FlatPlug(p, t);
    FlatPlug(p, Rotate(t, s));
    Focus(m', p, Rotate(t, s), nil, none);
    PlugRefs(p, Rotate(t, s));
  }

  // ---------- Other updates of a tree in place ----------

  /** A node's colour or value changes. */
  lemma EditInPlace<N, V>(m: Mem<N, V>, m': Mem<N, V>, p: Path<N, V>, t: Tree<N, V>, t': Tree<N, V>, root: N, nil: N,
                          none: N)
    requires InPlace(m, Plug(p, t), root, nil, none) && t.Node? && t'.Node?
    requires t'.left == t.left && t'.right == t.right && t'.e.ref == t.e.ref
    requires t.e.ref in m' && m'[t.e.ref] == NodeCell(t', ParentRef(p, none), nil)
    requires Agree(m, m', m.Keys - {t.e.ref})
    ensures Refs(Plug(p, t')) == Refs(Plug(p, t))
    ensures InPlace(m', Plug(p, t'), root, nil, none)
  {
    Focus(m, p, t, nil, none);
    PlugRefs(p, t);
    LinkedFrame(m, m', t.left, t.e.ref, nil);
    LinkedFrame(m, m', t.right, t.e.ref, nil);
    AboveFrame(m, m', p, t.e.ref, nil, none);
    Focus(m', p, t', nil, none);
    PlugRefs(p, t');
  }

  /** The subtree at the end of `p` is replaced by `x`: the two link writes of a transplant. */
  ghost predicate Grafted<N, V>(m: Mem<N, V>, m': Mem<N, V>, p: Path<N, V>, x: Tree<N, V>, nil: N, none: N) {
    m.Keys <= m'.Keys &&
    (p.In? && p.e.ref in m ==> m'[p.e.ref] == m[p.e.ref].SetKid(p.side, RootRef(x, nil))) &&
    (x.Node? && x.e.ref in m ==> m'[x.e.ref] == m[x.e.ref].(parent := ParentRef(p, none))) &&
    forall n :: n in m && (p.In? ==> n != p.e.ref) && (x.Node? ==> n != x.e.ref) ==> m'[n] == m[n]
  }

  lemma GraftLinked<N, V>(m: Mem<N, V>, m': Mem<N, V>, p: Path<N, V>, x: Tree<N, V>, was: N, hole: N, nil: N, none: N)
    requires Linked(m, x, was, nil) && Above(m, p, hole, nil, none) && Grafted(m, m', p, x, nil, none)
    requires Distinct(x) && DistinctPath(p) && Refs(x) !! PathRefs(p)
    ensures InPlace(m', Plug(p, x), TopRef(p, RootRef(x, nil)), nil, none)
    ensures Refs(Plug(p, x)) == PathRefs(p) + Refs(x)
  {
    var par, r := ParentRef(p, none), RootRef(x, nil);
    AdoptLinked(m, x, was, par, nil);
    LinkedFrame(Adopt(m, x, par), m', x, par, nil);
    HangAbove(m, p, hole, r, nil, none);
    AboveFrame(Hang(m, p, r), m', p, r, nil, none);
    Focus(m', p, x, nil, none);
    PlugRefs(p, x);
  }

  /** A node with at most one child is cut out. */
  lemma CutInPlace<N, V>(m: Mem<N, V>, m': Mem<N, V>, p: Path<N, V>, t: Tree<N, V>, s: Side, root: N, nil: N, none: N)
    requires InPlace(m, Plug(p, t), root, nil, none) && t.Node? && t.Kid(s.Flip()).Leaf?
    requires Grafted(m, m', p, t.Kid(s), nil, none)
    ensures InPlace(m', Plug(p, t.Kid(s)), TopRef(p, RootRef(t.Kid(s), nil)), nil, none)
    ensures Refs(Plug(p, t.Kid(s))) == Refs(Plug(p, t)) - {t.e.ref}
  {
    Focus(m, p, t, nil, none);
    PlugRefs(p, t);
    GraftLinked(m, m', p, t.Kid(s), t.e.ref, t.e.ref, nil, none);
  }

  /** A new red leaf is hung below the end of `p`. */
  lemma AttachInPlace<N, V>(m: Mem<N, V>, m': Mem<N, V>, p: Path<N, V>, x: Tree<N, V>, root: N, nil: N, none: N)
    requires InPlace(m, Plug(p, Leaf), root, nil, none)
    requires x.Node? && x.left.Leaf? && x.right.Leaf? && x.e.ref !in m
    requires x.e.ref in m' && m'[x.e.ref] == NodeCell(x, ParentRef(p, none), nil)
    requires p.In? ==> p.e.ref in m && p.e.ref in m' && m'[p.e.ref] == m[p.e.ref].SetKid(p.side, x.e.ref)
    requires Agree(m, m', if p.In? then m.Keys - {p.e.ref} else m.Keys)
    ensures InPlace(m', Plug(p, x), TopRef(p, x.e.ref), nil, none)
  {
    Focus<N, V>(m, p, Leaf, nil, none);
    PlugRefs<N, V>(p, Leaf);
    InMem(m, p, nil, nil, none);
    var m0 := m[x.e.ref := NodeCell(x, ParentRef(p, none), nil)];
    AboveFrame(m, m0, p, nil, nil, none);
    assert Grafted(m0, m', p, x, nil, none);
    GraftLinked(m0, m', p, x, ParentRef(p, none), nil, nil, none);
  }

  lemma {:induction false} LinkedIn<N, V>(m: Mem<N, V>, t: Tree<N, V>, par: N, nil: N)
    requires Linked(m, t, par, nil)
    ensures Refs(t) <= m.Keys
    decreases t
  {
    if t.Node? {
      LinkedIn(m, t.left, t.e.ref, nil);
      LinkedIn(m, t.right, t.e.ref, nil);
    }
  }

  lemma {:induction false} InMem<N, V>(m: Mem<N, V>, p: Path<N, V>, hole: N, nil: N, none: N)
    requires Above(m, p, hole, nil, none)
    ensures PathRefs(p) <= m.Keys
    decreases p
  {
    if p.In? {
      LinkedIn(m, p.sib, p.e.ref, nil);
      InMem(m, p.up, p.e.ref, nil, none);
    }
  }

  // ---------- Moving a successor ----------

  /**
   `t` is about to stand at the end of `p`, where the node `z` stands now: its root already
   holds the right subtree, while `z` still holds the left one.
   */
  ghost predicate Vacating<N, V>(m: Mem<N, V>, p: Path<N, V>, t: Tree<N, V>, z: N, nil: N, none: N) {
    t.Node? && Distinct(t) && DistinctPath(p) && Refs(t) !! PathRefs(p) && z !in Refs(t) && z !in PathRefs(p) &&
    Linked(m, t.left, z, nil) && Linked(m, t.right, t.e.ref, nil) && Above(m, p, z, nil, none) &&
    t.e.ref in m && m[t.e.ref].right == RootRef(t.right, nil) &&
    m[t.e.ref].key == t.e.key && m[t.e.ref].value == t.e.value &&
    z in m && m[z].left == RootRef(t.left, nil) && m[z].parent == ParentRef(p, none) && m[z].color == t.color
  }

  /** The successor is the deleted node's own right child. */
  lemma VacateDirect<N, V>(m: Mem<N, V>, p: Path<N, V>, t: Tree<N, V>, root: N, nil: N, none: N)
    requires InPlace(m, Plug(p, t), root, nil, none) && t.Node? && t.right.Node? && t.right.left.Leaf?
    ensures Vacating(m, p, Node(t.left, t.right.e, t.color, t.right.right), t.e.ref, nil, none)
  {
    Focus(m, p, t, nil, none);
    PlugRefs(p, t);
    assert Linked(m, t.right, t.e.ref, nil) && Distinct(t.right);
  }

  /** The successor, cut out of the right subtree, takes that subtree as its own. */
  lemma VacateRemote<N, V>(m: Mem<N, V>, m': Mem<N, V>, p: Path<N, V>, t: Tree<N, V>, e: Entry<N, V>, root: N,
                           nil: N, none: N)
    requires InPlace(m, Plug(p, t), root, nil, none) && t.Node? && t.right.Node?
    requires e.ref in m && e.ref !in Refs(Plug(p, t)) && m[e.ref].key == e.key && m[e.ref].value == e.value
    requires m.Keys <= m'.Keys && t.right.e.ref in m
    requires m'[e.ref] == m[e.ref].(right := t.right.e.ref)
    requires m'[t.right.e.ref] == m[t.right.e.ref].(parent := e.ref)
    requires Agree(m, m', m.Keys - {e.ref, t.right.e.ref})
    ensures Vacating(m', p, Node(t.left, e, t.color, t.right), t.e.ref, nil, none)
  {
    Focus(m, p, t, nil, none);
    PlugRefs(p, t);
    AdoptLinked(m, t.right, t.e.ref, e.ref, nil);
    LinkedFrame(Adopt(m, t.right, e.ref), m', t.right, e.ref, nil);
    LinkedFrame(m, m', t.left, t.e.ref, nil);
    AboveFrame(m, m', p, t.e.ref, nil, none);
  }

  /** The writes by which the successor receives the place, the left subtree and the colour. */
  ghost predicate TookOver<N, V>(m: Mem<N, V>, m': Mem<N, V>, p: Path<N, V>, t: Tree<N, V>, nil: N, none: N)
    requires t.Node?
  {
    m.Keys <= m'.Keys && t.e.ref in m && m'[t.e.ref] == NodeCell(t, ParentRef(p, none), nil) &&
    (p.In? && p.e.ref in m ==> m'[p.e.ref] == m[p.e.ref].SetKid(p.side, t.e.ref)) &&
    (t.left.Node? && t.left.e.ref in m ==> m'[t.left.e.ref] == m[t.left.e.ref].(parent := t.e.ref)) &&
    forall n :: n in m && n != t.e.ref && (p.In? ==> n != p.e.ref) && (t.left.Node? ==> n != t.left.e.ref) ==>
      m'[n] == m[n]
  }

  lemma TakeOver<N, V>(m: Mem<N, V>, m': Mem<N, V>, p: Path<N, V>, t: Tree<N, V>, z: N, nil: N, none: N)
    requires Vacating(m, p, t, z, nil, none) && TookOver(m, m', p, t, nil, none)
    ensures InPlace(m', Plug(p, t), TopRef(p, t.e.ref), nil, none)
  {
    var y := t.e.ref;
    AdoptLinked(m, t.left, z, y, nil);
    LinkedFrame(Adopt(m, t.left, y), m', t.left, y, nil);
    LinkedFrame(m, m', t.right, y, nil);
    HangAbove(m, p, z, y, nil, none);
    AboveFrame(Hang(m, p, y), m', p, y, nil, none);
    Focus(m', p, t, nil, none);
    PlugRefs(p, t);
  }

  /** The pointers that the move reads, and that they are all different. */
  lemma BeforeTakeOver<N, V>(m: Mem<N, V>, p: Path<N, V>, t: Tree<N, V>, z: N, nil: N, none: N)
    requires Vacating(m, p, t, z, nil, none)
    ensures p.In? ==> p.e.ref in m && m[p.e.ref] == Frame(p, z, nil, none) && p.e.ref !in {t.e.ref, z}
    ensures p.In? && p.sib.Node? ==> p.sib.e.ref != z
    ensures t.left.Node? ==> t.left.e.ref in m && t.left.e.ref !in {t.e.ref, z} && (p.In? ==> p.e.ref != t.left.e.ref)
    ensures t.e.ref != z
  {
    assert t.left.Node? ==> t.left.e.ref in Refs(t.left) && t.left.e.ref in Refs(t);
    assert p.In? ==> p.e.ref in PathRefs(p);
    assert p.In? && p.sib.Node? ==> p.sib.e.ref in Refs(p.sib) && p.sib.e.ref in PathRefs(p);
  }
}
