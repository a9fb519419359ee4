/**
 The red-black tree with one shared sentinel `nil` for every missing child.

 `nil` is no node of the shape.  Its parent field is free: deletion borrows it to remember
 where a missing child hangs (`x.parent` in the contracts below, with `x` possibly `nil`)
 and clears it before returning.
 */
module SentinelRBTree {
  import opened Common
  import opened RBShape
  import opened RBMemory
  import opened RBBalance
  import opened RBContents
  import opened RBUpdates

  class Node {
    const key: int
    var value: int
    var color: Color
    var left: Node?
    var right: Node?
    var parent: Node?

    constructor (k: int, v: int)
      ensures key == k && value == v && color == Red
      ensures left == null && right == null && parent == null
    {
      key, value, color := k, v, Red;
      left, right, parent := null, null, null;
    }
  }

  type Shape = Tree<Node?, int>
  type Ctx = Path<Node?, int>

  ghost function Snap(s: set<Node?>): Mem<Node?, int>
    reads s
  {
    map n | n in s && n != null :: Cell(n.left, n.right, n.parent, n.color, n.key, n.value)
  }

  class RBTree {
    var root: Node?
    const nil: Node
    ghost var shape: Shape
    ghost var Repr: set<Node?>

    /** Every field of every node is as `shape` says; the sentinel is black and childless. */
    ghost predicate Wired()
      reads this, Repr, nil
    {
      InPlace(Snap(Repr), shape, root, nil, null) && nil !in Repr &&
      nil.color == Black && nil.left == null && nil.right == null
    }

    ghost predicate At(x: Node?, p: Ctx, t: Shape)
      reads this, Repr, nil
    {
      Wired() && shape == Plug(p, t) && x == RootRef(t, nil)
    }

    ghost predicate Valid()
      reads this, Repr, nil
    {
      Wired() && Sorted(Flat(shape)) && RedBlack(shape) && nil.parent == null
    }

    ghost function Contents(): map<int, int>
      reads this
    {
      ToMap(Flat(shape))
    }

    constructor ()
      ensures Valid() && fresh(Repr) && fresh(nil) && Contents() == map[]
    {
      var n := new Node(0, 0);
      n.color := Black;
      nil := n;
      root, shape, Repr := n, Leaf, {};
    }

    /** What the fields around a position hold. */
    lemma Here(p: Ctx, t: Shape)
      requires Wired() && shape == Plug(p, t)
      ensures root == TopRef(p, RootRef(t, nil)) && (p.Top? <==> root == RootRef(t, nil)) && root != null
      ensures t.Node? ==> t.e.ref in Repr && t.e.ref != null && t.e.ref != nil
      ensures t.Node? ==> var n := t.e.ref;
                n.left == RootRef(t.left, nil) && n.right == RootRef(t.right, nil) &&
                n.parent == ParentRef(p, null) && n.color == t.color && n.key == t.e.key && n.value == t.e.value
      ensures p.In? ==> p.e.ref in Repr && p.e.ref != null && p.e.ref != RootRef(t, nil) && p.e.ref != nil
      ensures p.In? ==> p.e.ref.color == p.color && p.e.ref.key == p.e.key && p.e.ref.parent == ParentRef(p.up, null)
      ensures p.In? ==> (if p.side.Lo? then p.e.ref.left else p.e.ref.right) == RootRef(t, nil)
      ensures p.In? ==> (if p.side.Lo? then p.e.ref.right else p.e.ref.left) == RootRef(p.sib, nil)
      ensures p.In? && p.sib.Node? ==> p.sib.e.ref in Repr && p.sib.e.ref != null && p.sib.e.ref != RootRef(t, nil)
    {
      Look(Snap(Repr), p, t, root, nil, null);
    }

    /** A child pointer is the sentinel exactly at a leaf; otherwise it points to a third node. */
    lemma HereKid(p: Ctx, t: Shape, s: Side)
      requires Wired() && shape == Plug(p, t) && t.Node?
      ensures RootRef(t.Kid(s), nil) == nil <==> t.Kid(s).Leaf?
      ensures t.Kid(s).Node? ==> t.Kid(s).e.ref in Repr && t.Kid(s).e.ref != null
      ensures t.Kid(s).Node? ==> t.Kid(s).e.ref !in {t.e.ref, ParentRef(p, null)}
    {
      if t.Kid(s).Node? {
        LookKid(Snap(Repr), p, t, s, root, nil, null);
      }
    }

    /** The colour tests on the children of a node; the sentinel counts as black. */
    lemma KidColors(p: Ctx, t: Shape)
      requires Wired() && shape == Plug(p, t) && t.Node?
      ensures t.e.ref != null && t.e.ref in Repr && t.e.ref.left != null && t.e.ref.right != null
      ensures t.e.ref.left.color == Black <==> IsBlack(t.left)
      ensures t.e.ref.right.color == Black <==> IsBlack(t.right)
    {
      Here(p, t);
      Here(In(Lo, t.e, t.color, t.right, p), t.left);
      Here(In(Hi, t.e, t.color, t.left, p), t.right);
    }

    /** `x` has a right child here, so the rotation never touches the sentinel. */
    method LeftRotate(x: Node, ghost p: Ctx, ghost t: Shape)
      requires Wired() && shape == Plug(p, t) && RootRef(t, nil) == x && t.Node? && t.right.Node?
      modifies this`root, this`shape, Repr
      ensures Wired() && shape == Plug(p, Rotate(t, Lo)) && Flat(shape) == old(Flat(shape))
    {
      ghost var m := Snap(Repr);
      Here(p, t);
      HereKid(p, t, Hi);
      BeforeTurn(m, p, t, Lo, root, nil, null);
      SpinLeft(x, p, t);
      TurnInPlace(m, Snap(Repr), p, t, Lo, old(root), nil, null);
      shape := Plug(p, Rotate(t, Lo));
    }

    method SpinLeft(x: Node, ghost p: Ctx, ghost t: Shape)
      requires nil !in Repr && t.Node? && t.right.Node? && x == t.e.ref && x in Repr
      requires x.right == t.right.e.ref && x.right != null && x.right in Repr && x.right != x
      requires x.right.left == RootRef(t.right.left, nil)
      requires t.right.left.Node? ==> x.right.left != null && x.right.left in Repr && x.right.left !in {x, x.right}
      requires x.parent == ParentRef(p, null)
      requires p.In? ==> p.e.ref in Repr && p.e.ref != null && p.e.ref !in {x, x.right, x.right.left}
      requires p.In? ==> (p.side.Lo? <==> p.e.ref.left == x)
      modifies this`root, Repr
      ensures Turned(old(Snap(Repr)), Snap(Repr), p, t, Lo)
      ensures root == if p.Top? then old(x.right) else old(root)
    {
      var y := x.right;
      x.right := y.left;
      if y.left != nil {
        y.left.parent := x;
      }
      y.parent := x.parent;
      if x.parent == null {
        root := y;
      } else if x == x.parent.left {
        x.parent.left := y;
      } else {
        x.parent.right := y;
      }
      y.left := x;
      x.parent := y;
    }

    /** `x` has a left child here, so the rotation never touches the sentinel. */
    method RightRotate(x: Node, ghost p: Ctx, ghost t: Shape)
      requires Wired() && shape == Plug(p, t) && RootRef(t, nil) == x && t.Node? && t.left.Node?
      modifies this`root, this`shape, Repr
      ensures Wired() && shape == Plug(p, Rotate(t, Hi)) && Flat(shape) == old(Flat(shape))
    {
      ghost var m := Snap(Repr);
      Here(p, t);
      HereKid(p, t, Lo);
      BeforeTurn(m, p, t, Hi, root, nil, null);
      SpinRight(x, p, t);
      TurnInPlace(m, Snap(Repr), p, t, Hi, old(root), nil, null);
      shape := Plug(p, Rotate(t, Hi));
    }

    method SpinRight(x: Node, ghost p: Ctx, ghost t: Shape)
      requires nil !in Repr && t.Node? && t.left.Node? && x == t.e.ref && x in Repr
      requires x.left == t.left.e.ref && x.left != null && x.left in Repr && x.left != x
      requires x.left.right == RootRef(t.left.right, nil)
      requires t.left.right.Node? ==> x.left.right != null && x.left.right in Repr && x.left.right !in {x, x.left}
      requires x.parent == ParentRef(p, null)
      requires p.In? ==> p.e.ref in Repr && p.e.ref != null && p.e.ref !in {x, x.left, x.left.right}
      requires p.In? ==> (p.side.Lo? <==> p.e.ref.left == x)
      modifies this`root, Repr
      ensures Turned(old(Snap(Repr)), Snap(Repr), p, t, Hi)
      ensures root == if p.Top? then old(x.left) else old(root)
    {
      var y := x.left;
      x.left := y.right;
      if y.right != nil {
        y.right.parent := x;
      }
      y.parent := x.parent;
      if x.parent == null {
        root := y;
      } else if x == x.parent.left {
        x.parent.left := y;
      } else {
        x.parent.right := y;
      }
      y.right := x;
      x.parent := y;
    }

    /** The sentinel is only ever painted black. */
    method Recolor(n: Node, c: Color, ghost p: Ctx, ghost t: Shape)
      requires At(n, p, t) && (t.Node? || c == Black)
      modifies this`shape, n`color
      ensures Wired() && shape == Plug(p, Paint(t, c)) && Flat(shape) == old(Flat(shape))
    {
      ghost var m := Snap(Repr);
      FlatPlug(p, t);
      FlatPlug(p, Paint(t, c));
      Here(p, t);
      n.color := c;
      if t.Node? {
        EditInPlace(m, Snap(Repr), p, t, Paint(t, c), root, nil, null);
      } else {
        assert Snap(Repr) == m;
      }
      shape := Plug(p, Paint(t, c));
    }

    // ---------- Insertion ----------

    method InsertFixup(z0: Node, ghost p0: Ctx, ghost t0: Shape)
      requires At(z0, p0, t0) && Climbing(p0, t0)
      modifies this`root, this`shape, Repr
      ensures Wired() && RedBlack(shape) && Flat(shape) == old(Flat(shape))
    {
      var z := z0;
      ghost var p, t := p0, t0;
      Here(p, t);
      while z.parent != null && z.parent.color == Red
        invariant At(z, p, t) && Climbing(p, t) && Flat(shape) == old(Flat(shape))
        invariant z in Repr && z.parent == ParentRef(p, null)
        invariant p.In? ==> p.e.ref != null && p.e.ref.color == p.color
        decreases Depth(p)
      {
        InsertHasGrandparent(p, t);
        Here(p.up, Join(p.side, t, p.e, p.color, p.sib));
        if z.parent == z.parent.parent.left {
          z, p, t := InsertFixupLeft(z, p, t);
        } else {
          z, p, t := InsertFixupRight(z, p, t);
        }
        Here(p, t);
        if z == root { break; }
      }
      InsertDone(p, t);
      PlugNode(p, t);
      Here(Top, shape);
      Recolor(root, Black, Top, shape);
    }

    /** Red uncle: the grandparent hands its black to both children. */
    method PushBlackDown(z: Node, y: Node, ghost p: Ctx, ghost t: Shape) returns (g: Node)
      requires At(z, p, t) && Climbing(p, t) && !UnderBlack(p) && p.up.In? && !IsBlack(p.up.sib)
      requires y == p.up.sib.e.ref
      modifies this`shape, Repr
      ensures var t' := Join(p.up.side, Join(p.side, t, p.e, Black, p.sib), p.up.e, Red, Paint(p.up.sib, Black));
              At(g, p.up.up, t') && Climbing(p.up.up, t')
      ensures Flat(shape) == old(Flat(shape))
    {
      ghost var up := p.up;
      ghost var q := Join(p.side, t, p.e, Black, p.sib);
      Here(p, t);
      Here(up, Join(p.side, t, p.e, p.color, p.sib));
      var parent, grandparent := z.parent, z.parent.parent;
      Recolor(parent, Black, up, Join(p.side, t, p.e, p.color, p.sib));
      Recolor(y, Black, In(up.side.Flip(), up.e, up.color, q, up.up), up.sib);
      Recolor(grandparent, Red, up.up, Join(up.side, q, up.e, up.color, Paint(up.sib, Black)));
      InsertRecolour(p, t);
      g := grandparent;
    }

    method InsertFixupLeft(z0: Node, ghost p0: Ctx, ghost t0: Shape) returns (z: Node, ghost p: Ctx, ghost t: Shape)
      requires At(z0, p0, t0) && Climbing(p0, t0) && !UnderBlack(p0) && p0.up.In? && p0.up.side.Lo?
      modifies this`root, this`shape, Repr
      ensures At(z, p, t) && Climbing(p, t) && Flat(shape) == old(Flat(shape)) && Depth(p) < Depth(p0)
    {
      z, p, t := z0, p0, t0;
      ghost var q := Join(p.side, t, p.e, p.color, p.sib);
      Here(p, t);
      Here(p.up, q);
      var y := z.parent.parent.right;
      Here(In(Hi, p.up.e, p.up.color, q, p.up.up), p.up.sib);
      if y != nil && y.color == Red {
        z := PushBlackDown(z, y, p, t);
        p, t := p.up.up, Join(Lo, Join(p.side, t, p.e, Black, p.sib), p.up.e, Red, Paint(p.up.sib, Black));
      } else {
        if z == z.parent.right {
          z := z.parent;
          InsertInner(p, t);
          LeftRotate(z, p.up, q);
          p, t := In(Lo, t.e, Red, t.Kid(Hi), p.up), Join(Lo, p.sib, p.e, Red, t.Kid(Lo));
        }
        p := RaiseParentLeft(z, p, t);
      }
    }

    method RaiseParentLeft(z: Node, ghost p: Ctx, ghost t: Shape) returns (ghost p': Ctx)
      requires At(z, p, t) && Climbing(p, t) && !UnderBlack(p) && p.up.In? && IsBlack(p.up.sib)
      requires p.side.Lo? && p.up.side.Lo?
      modifies this`root, this`shape, Repr
      ensures At(z, p', t) && Climbing(p', t) && Flat(shape) == old(Flat(shape)) && Depth(p') < Depth(p)
    {
      ghost var g := p.up;
      ghost var q := Join(Lo, t, p.e, Black, p.sib);
      Here(p, t);
      Here(g, Join(Lo, t, p.e, p.color, p.sib));
      InsertOuter(p, t);
      Recolor(z.parent, Black, g, Join(Lo, t, p.e, p.color, p.sib));
      Here(g.(color := g.color), q);
      Here(In(Lo, p.e, Black, p.sib, g), t);
      Recolor(z.parent.parent, Red, g.up, Join(Lo, q, g.e, g.color, g.sib));
      Here(In(Lo, g.e, Red, g.sib, g.up), q);
      Here(In(Lo, p.e, Black, p.sib, In(Lo, g.e, Red, g.sib, g.up)), t);
      RightRotate(z.parent.parent, g.up, Join(Lo, q, g.e, Red, g.sib));
      p' := In(Lo, p.e, Black, Join(Lo, p.sib, g.e, Red, g.sib), g.up);
    }

    method InsertFixupRight(z0: Node, ghost p0: Ctx, ghost t0: Shape) returns (z: Node, ghost p: Ctx, ghost t: Shape)
      requires At(z0, p0, t0) && Climbing(p0, t0) && !UnderBlack(p0) && p0.up.In? && p0.up.side.Hi?
      modifies this`root, this`shape, Repr
      ensures At(z, p, t) && Climbing(p, t) && Flat(shape) == old(Flat(shape)) && Depth(p) < Depth(p0)
    {
      z, p, t := z0, p0, t0;
      ghost var q := Join(p.side, t, p.e, p.color, p.sib);
      Here(p, t);
      Here(p.up, q);
      var y := z.parent.parent.left;
      Here(In(Lo, p.up.e, p.up.color, q, p.up.up), p.up.sib);
      if y != nil && y.color == Red {
        z := PushBlackDown(z, y, p, t);
        p, t := p.up.up, Join(Hi, Join(p.side, t, p.e, Black, p.sib), p.up.e, Red, Paint(p.up.sib, Black));
      } else {
        if z == z.parent.left {
          z := z.parent;
          InsertInner(p, t);
          RightRotate(z, p.up, q);
          p, t := In(Hi, t.e, Red, t.Kid(Lo), p.up), Join(Hi, p.sib, p.e, Red, t.Kid(Hi));
        }
        p := RaiseParentRight(z, p, t);
      }
    }

    method RaiseParentRight(z: Node, ghost p: Ctx, ghost t: Shape) returns (ghost p': Ctx)
      requires At(z, p, t) && Climbing(p, t) && !UnderBlack(p) && p.up.In? && IsBlack(p.up.sib)
      requires p.side.Hi? && p.up.side.Hi?
      modifies this`root, this`shape, Repr
      ensures At(z, p', t) && Climbing(p', t) && Flat(shape) == old(Flat(shape)) && Depth(p') < Depth(p)
    {
      ghost var g := p.up;
      ghost var q := Join(Hi, t, p.e, Black, p.sib);
      Here(p, t);
      Here(g, Join(Hi, t, p.e, p.color, p.sib));
      InsertOuter(p, t);
      Recolor(z.parent, Black, g, Join(Hi, t, p.e, p.color, p.sib));
      Here(g.(color := g.color), q);
      Here(In(Hi, p.e, Black, p.sib, g), t);
      Recolor(z.parent.parent, Red, g.up, Join(Hi, q, g.e, g.color, g.sib));
      Here(In(Hi, g.e, Red, g.sib, g.up), q);
      Here(In(Hi, p.e, Black, p.sib, In(Hi, g.e, Red, g.sib, g.up)), t);
      LeftRotate(z.parent.parent, g.up, Join(Hi, q, g.e, Red, g.sib));
      p' := In(Hi, p.e, Black, Join(Hi, p.sib, g.e, Red, g.sib), g.up);
    }

    // ---------- Deletion ----------

    /**
     `x` may be the sentinel.  Whichever it is, its parent field holds the true parent of the
     deficient position, before and after every step.
     */
    method DeleteFixup(x0: Node, ghost p0: Ctx, ghost t0: Shape)
      requires At(x0, p0, t0) && x0.parent == ParentRef(p0, null) && Deficient(p0, t0)
      modifies this`root, this`shape, Repr, nil`color
      ensures Wired() && RedBlack(shape) && Flat(shape) == old(Flat(shape)) && nil.parent == old(nil.parent)
    {
      hide Linked, Above;
      var x := x0;
      ghost var p, t := p0, t0;
      ghost var done := false;
      Here(p, t);
      while x != root && x.color == Black
        invariant At(x, p, t) && x.parent == ParentRef(p, null) && Flat(shape) == old(Flat(shape))
        invariant (x == root <==> p.Top?) && (x.color == Black <==> IsBlack(t)) && nil.parent == old(nil.parent)
        invariant if done then p.Top? && RedBlack(shape) else Deficient(p, t)
        decreases if IsBlack(t) then Depth(p) + 1 else 0
      {
        Here(p, t);
        DeleteHasSibling(p, t);
        if x == x.parent.left {
          x, done, p, t := DeleteFixupLeft(x, p, t);
        } else {
          x, done, p, t := DeleteFixupRight(x, p, t);
        }
        Here(p, t);
      }
      if !done {
        DeleteDone(p, t);
      }
      Here(p, t);
      Recolor(x, Black, p, t);
    }

    method DeleteFixupLeft(x0: Node, ghost p0: Ctx, ghost t0: Shape)
      returns (x: Node, ghost done: bool, ghost p: Ctx, ghost t: Shape)
      requires At(x0, p0, t0) && x0.parent == ParentRef(p0, null) && Deficient(p0, t0) && IsBlack(t0)
      requires p0.In? && p0.side.Lo?
      modifies this`root, this`shape, Repr
      ensures At(x, p, t) && x.parent == ParentRef(p, null) && Flat(shape) == old(Flat(shape))
      ensures if done then p.Top? && RedBlack(shape) else Deficient(p, t)
      ensures !done && IsBlack(t) ==> Depth(p) < Depth(p0)
    {
      x, done, p, t := x0, false, p0, t0;
      DeleteHasSibling(p, t);
      Here(p, t);
      var w := x.parent.right;
      Here(In(Hi, p.e, p.color, t, p.up), p.sib);
      if w.color == Red {
        p := LiftRedSiblingLeft(x, w, p, t);
        Here(p, t);
        w := x.parent.right;
      }
      KidColors(In(Hi, p.e, p.color, t, p.up), p.sib);
      if w.left.color == Black && w.right.color == Black {
        DeleteRecolour(p, t);
        Recolor(w, Red, In(Hi, p.e, p.color, t, p.up), p.sib);
        x := x.parent;
        p, t := p.up, Join(Lo, t, p.e, p.color, Paint(p.sib, Red));
        Here(p, t);
      } else {
        if w.right.color == Black {
          p := TurnSiblingLeft(w, p, t);
          Here(p, t);
          w := x.parent.right;
        }
        SettleLeft(x, w, p, t);
        done, p, t := true, Top, shape;
        Here(p, t);
        x := root;
      }
    }

    /** Case 1: a red sibling is rotated above the parent. */
    method LiftRedSiblingLeft(x: Node, w: Node, ghost p: Ctx, ghost t: Shape) returns (ghost p': Ctx)
      requires At(x, p, t) && x.parent == ParentRef(p, null)
      requires Deficient(p, t) && p.In? && p.side.Lo? && !IsBlack(p.sib) && w == p.sib.e.ref
      modifies this`root, this`shape, Repr
      ensures At(x, p', t) && Deficient(p', t) && Flat(shape) == old(Flat(shape)) && x.parent == old(x.parent)
      ensures p'.In? && p'.side.Lo? && p'.e.ref == p.e.ref && p'.color.Red? && Depth(p') == Depth(p) + 1
      ensures p'.sib.Node? && IsBlack(p'.sib)
    {
      ghost var s := p.sib;
      Here(p, t);
      var parent := x.parent;
      DeleteRedSibling(p, t);
      Recolor(w, Black, In(Hi, p.e, p.color, t, p.up), s);
      Recolor(parent, Red, p.up, Join(Lo, t, p.e, p.color, Paint(s, Black)));
      LeftRotate(parent, p.up, Join(Lo, t, p.e, Red, Paint(s, Black)));
      p' := In(Lo, p.e, Red, s.Kid(Lo), In(Lo, s.e, Black, s.Kid(Hi), p.up));
      Here(p', t);
    }

    /** Case 3: the sibling's near red child is rotated above it. */
    method TurnSiblingLeft(w: Node, ghost p: Ctx, ghost t: Shape) returns (ghost p': Ctx)
      requires Wired() && shape == Plug(p, t) && Deficient(p, t) && p.In? && p.side.Lo?
      requires p.sib.Node? && IsBlack(p.sib) && !IsBlack(p.sib.left) && IsBlack(p.sib.right) && w == p.sib.e.ref
      modifies this`root, this`shape, Repr
      ensures Wired() && shape == Plug(p', t) && Deficient(p', t) && Flat(shape) == old(Flat(shape))
      ensures p'.In? && p' == p.(sib := p'.sib)
      ensures p'.sib.Node? && IsBlack(p'.sib) && !IsBlack(p'.sib.right)
    {
      ghost var s := p.sib;
      ghost var above := In(Hi, p.e, p.color, t, p.up);
      Here(above, s);
      HereKid(above, s, Lo);
      DeleteNear(p, t);
      Recolor(w.left, Black, In(Lo, s.e, s.color, s.right, above), s.left);
      Recolor(w, Red, above, Join(Lo, Paint(s.left, Black), s.e, s.color, s.right));
      RightRotate(w, above, Join(Lo, Paint(s.left, Black), s.e, Red, s.right));
      p' := p.(sib := Rotate(Join(Lo, Paint(s.left, Black), s.e, Red, s.right), Hi));
    }

    /** Case 4: the sibling's far red child pays for the missing black. */
    method SettleLeft(x: Node, w: Node, ghost p: Ctx, ghost t: Shape)
      requires At(x, p, t) && x.parent == ParentRef(p, null)
      requires Deficient(p, t) && p.In? && p.side.Lo? && IsBlack(t)
      requires p.sib.Node? && IsBlack(p.sib) && !IsBlack(p.sib.right) && w == p.sib.e.ref
      modifies this`root, this`shape, Repr
      ensures Wired() && RedBlack(shape) && shape.Node? && Flat(shape) == old(Flat(shape))
    {
      ghost var s := p.sib;
      ghost var above, above' := In(Hi, p.e, p.color, t, p.up), In(Hi, p.e, Black, t, p.up);
      DeleteFar(p, t);
      Here(p, t);
      var parent := x.parent;
      Recolor(w, parent.color, above, s);
      Recolor(parent, Black, p.up, Join(Lo, t, p.e, p.color, Paint(s, p.color)));
      Here(above', Paint(s, p.color));
      HereKid(above', Paint(s, p.color), Hi);
      Recolor(w.right, Black, In(Hi, s.e, p.color, s.left, above'), s.right);
      ghost var q := Join(Lo, t, p.e, Black, Join(Lo, s.left, s.e, p.color, Paint(s.right, Black)));
      LeftRotate(parent, p.up, q);
      PlugNode(p.up, Rotate(q, Lo));
    }

    method DeleteFixupRight(x0: Node, ghost p0: Ctx, ghost t0: Shape)
      returns (x: Node, ghost done: bool, ghost p: Ctx, ghost t: Shape)
      requires At(x0, p0, t0) && x0.parent == ParentRef(p0, null) && Deficient(p0, t0) && IsBlack(t0)
      requires p0.In? && p0.side.Hi?
      modifies this`root, this`shape, Repr
      ensures At(x, p, t) && x.parent == ParentRef(p, null) && Flat(shape) == old(Flat(shape))
      ensures if done then p.Top? && RedBlack(shape) else Deficient(p, t)
      ensures !done && IsBlack(t) ==> Depth(p) < Depth(p0)
    {
      x, done, p, t := x0, false, p0, t0;
      DeleteHasSibling(p, t);
      Here(p, t);
      var w := x.parent.left;
      Here(In(Lo, p.e, p.color, t, p.up), p.sib);
      if w.color == Red {
        p := LiftRedSiblingRight(x, w, p, t);
        Here(p, t);
        w := x.parent.left;
      }
      KidColors(In(Lo, p.e, p.color, t, p.up), p.sib);
      if w.right.color == Black && w.left.color == Black {
        DeleteRecolour(p, t);
        Recolor(w, Red, In(Lo, p.e, p.color, t, p.up), p.sib);
        x := x.parent;
        p, t := p.up, Join(Hi, t, p.e, p.color, Paint(p.sib, Red));
        Here(p, t);
      } else {
        if w.left.color == Black {
          p := TurnSiblingRight(w, p, t);
          Here(p, t);
          w := x.parent.left;
        }
        SettleRight(x, w, p, t);
        done, p, t := true, Top, shape;
        Here(p, t);
        x := root;
      }
    }

    /** Case 1: a red sibling is rotated above the parent. */
    method LiftRedSiblingRight(x: Node, w: Node, ghost p: Ctx, ghost t: Shape) returns (ghost p': Ctx)
      requires At(x, p, t) && x.parent == ParentRef(p, null)
      requires Deficient(p, t) && p.In? && p.side.Hi? && !IsBlack(p.sib) && w == p.sib.e.ref
      modifies this`root, this`shape, Repr
      ensures At(x, p', t) && Deficient(p', t) && Flat(shape) == old(Flat(shape)) && x.parent == old(x.parent)
      ensures p'.In? && p'.side.Hi? && p'.e.ref == p.e.ref && p'.color.Red? && Depth(p') == Depth(p) + 1
      ensures p'.sib.Node? && IsBlack(p'.sib)
    {
      ghost var s := p.sib;
      Here(p, t);
      var parent := x.parent;
      DeleteRedSibling(p, t);
      Recolor(w, Black, In(Lo, p.e, p.color, t, p.up), s);
      Recolor(parent, Red, p.up, Join(Hi, t, p.e, p.color, Paint(s, Black)));
      RightRotate(parent, p.up, Join(Hi, t, p.e, Red, Paint(s, Black)));
      p' := In(Hi, p.e, Red, s.Kid(Hi), In(Hi, s.e, Black, s.Kid(Lo), p.up));
      Here(p', t);
    }

    /** Case 3: the sibling's near red child is rotated above it. */
    method TurnSiblingRight(w: Node, ghost p: Ctx, ghost t: Shape) returns (ghost p': Ctx)
      requires Wired() && shape == Plug(p, t) && Deficient(p, t) && p.In? && p.side.Hi?
      requires p.sib.Node? && IsBlack(p.sib) && !IsBlack(p.sib.right) && IsBlack(p.sib.left) && w == p.sib.e.ref
      modifies this`root, this`shape, Repr
      ensures Wired() && shape == Plug(p', t) && Deficient(p', t) && Flat(shape) == old(Flat(shape))
      ensures p'.In? && p' == p.(sib := p'.sib)
      ensures p'.sib.Node? && IsBlack(p'.sib) && !IsBlack(p'.sib.left)
    {
      ghost var s := p.sib;
      ghost var above := In(Lo, p.e, p.color, t, p.up);
      Here(above, s);
      HereKid(above, s, Hi);
      DeleteNear(p, t);
      Recolor(w.right, Black, In(Hi, s.e, s.color, s.left, above), s.right);
      Recolor(w, Red, above, Join(Hi, Paint(s.right, Black), s.e, s.color, s.left));
      LeftRotate(w, above, Join(Hi, Paint(s.right, Black), s.e, Red, s.left));
      p' := p.(sib := Rotate(Join(Hi, Paint(s.right, Black), s.e, Red, s.left), Lo));
    }

    /** Case 4: the sibling's far red child pays for the missing black. */
    method SettleRight(x: Node, w: Node, ghost p: Ctx, ghost t: Shape)
      requires At(x, p, t) && x.parent == ParentRef(p, null)
      requires Deficient(p, t) && p.In? && p.side.Hi? && IsBlack(t)
      requires p.sib.Node? && IsBlack(p.sib) && !IsBlack(p.sib.left) && w == p.sib.e.ref
      modifies this`root, this`shape, Repr
      ensures Wired() && RedBlack(shape) && shape.Node? && Flat(shape) == old(Flat(shape))
    {
      ghost var s := p.sib;
      ghost var above, above' := In(Lo, p.e, p.color, t, p.up), In(Lo, p.e, Black, t, p.up);
      DeleteFar(p, t);
      Here(p, t);
      var parent := x.parent;
      Recolor(w, parent.color, above, s);
      Recolor(parent, Black, p.up, Join(Hi, t, p.e, p.color, Paint(s, p.color)));
      Here(above', Paint(s, p.color));
      HereKid(above', Paint(s, p.color), Lo);
      Recolor(w.left, Black, In(Lo, s.e, p.color, s.right, above'), s.left);
      ghost var q := Join(Hi, t, p.e, Black, Join(Hi, s.right, s.e, p.color, Paint(s.left, Black)));
      RightRotate(parent, p.up, q);
      PlugNode(p.up, Rotate(q, Hi));
    }

    // ---------- Unlinking a node ----------

    /** As in the source, `v` gets a parent even when it is the sentinel. */
    method Transplant(u: Node, v: Node, ghost p: Ctx, ghost x: Shape)
      requires nil !in Repr && u != nil && u.parent == ParentRef(p, null)
      requires p.In? ==> p.e.ref in Repr && p.e.ref != null && (p.side.Lo? <==> p.e.ref.left == u)
      requires v == RootRef(x, nil) && (x.Node? ==> v in Repr)
      requires p.In? ==> p.e.ref != u && p.e.ref != v
      modifies this`root, Repr, v`parent
      ensures Grafted(old(Snap(Repr)), Snap(Repr), p, x, nil, null)
      ensures v.parent == old(u.parent) && (x.Node? ==> nil.parent == old(nil.parent))
      ensures root == if p.Top? then v else old(root)
    {
      if u.parent == null {
        root := v;
      } else if u == u.parent.left {
        u.parent.left := v;
      } else {
        u.parent.right := v;
      }
      v.parent := u.parent;
    }

    method CutNode(z: Node, x: Node, ghost p: Ctx, ghost t: Shape, ghost s: Side)
      requires At(z, p, t) && t.Node? && t.Kid(s.Flip()).Leaf? && x == RootRef(t.Kid(s), nil)
      modifies this`root, this`shape, Repr, x`parent
      ensures At(x, p, t.Kid(s)) && x.parent == ParentRef(p, null)
    {
      hide Linked, Above;
      ghost var m := Snap(Repr);
      Here(p, t);
      HereKid(p, t, s);
      Transplant(z, x, p, t.Kid(s));
      CutInPlace(m, Snap(Repr), p, t, s, old(root), nil, null);
      shape := Plug(p, t.Kid(s));
    }

    method Minimum(n: Node, ghost p: Ctx, ghost t: Shape) returns (node: Node, ghost q: Ctx, ghost y: Shape)
      requires At(n, p, t) && t.Node?
      ensures Leftmost(q) && t == Plug(q, y) && RootRef(y, nil) == node && y.Node? && y.left.Leaf?
    {
      node, q, y := n, Top, t;
      Here(p, t);
      HereKid(p, t, Lo);
      while node.left != nil
        invariant Leftmost(q) && t == Plug(q, y) && y.Node? && y.e.ref == node
        invariant node.left == RootRef(y.left, nil) && node.left != null && (node.left == nil <==> y.left.Leaf?)
        decreases y
      {
        node := node.left;
        q, y := In(Lo, y.e, y.color, y.right, q), y.left;
        AppendPlug(q, p, y);
        Here(Append(q, p), y);
        HereKid(Append(q, p), y, Lo);
      }
    }

    method SpliceSuccessor(z: Node, ghost p: Ctx, ghost t: Shape)
      returns (x: Node, originalColor: Color, ghost q: Ctx, ghost ty: Shape)
      requires At(z, p, t) && t.Node? && t.left.Node? && t.right.Node?
      modifies this`root, this`shape, Repr, nil`parent
      ensures Leftmost(q) && t.right == Plug(q, ty) && ty.Node? && ty.left.Leaf? && originalColor == ty.color
      ensures var p' := Append(q, In(Hi, ty.e, t.color, t.left, p));
              At(x, p', ty.right) && x.parent == ParentRef(p', null)
    {
      hide Linked, Above;
      ghost var above := In(Hi, t.e, t.color, t.left, p);
      Here(p, t);
      HereKid(p, t, Hi);
      var y;
      y, q, ty := Minimum(z.right, above, t.right);
      SuccessorAt(p, t, q, ty);
      originalColor := y.color;
      x := y.right;
      if y.parent == z {
        VacateDirect(Snap(Repr), p, t, root, nil, null);
        BorrowParent(x, y, ty.right);
      } else {
        DetachSuccessor(y, x, z, p, t, q, ty);
      }
      ghost var t' := Tree.Node(t.left, ty.e, t.color, Plug(q, ty.right));
      TakePlace(z, y, p, t');
      AppendPlug(q, In(Hi, ty.e, t.color, t.left, p), ty.right);
      Here(Append(q, In(Hi, ty.e, t.color, t.left, p)), ty.right);
    }

    /** The missing right child of a direct successor is made to remember its parent. */
    method BorrowParent(x: Node, y: Node, ghost t: Shape)
      requires x == RootRef(t, nil) && (t.Node? ==> x.parent == y) && nil !in Repr
      modifies x`parent
      ensures x.parent == y && Snap(Repr) == old(Snap(Repr))
    {
      x.parent := y;
    }

    lemma {:induction false} SuccessorAt(p: Ctx, t: Shape, q: Ctx, y: Shape)
      requires Wired() && shape == Plug(p, t) && t.Node? && t.right == Plug(q, y) && y.Node?
      ensures y.e.ref != null && y.e.ref in Repr && y.e.ref.color == y.color
      ensures y.e.ref.right == RootRef(y.right, nil) && y.e.ref.right != null
      ensures y.right.Node? ==> y.right.e.ref.parent == y.e.ref && y.right.e.ref in Repr
      ensures y.e.ref.parent == (if q.Top? then t.e.ref else q.e.ref)
      ensures q.In? ==> q.e.ref != t.e.ref
    {
      var pq := Append(q, In(Hi, t.e, t.color, t.left, p));
      AppendPlug(q, In(Hi, t.e, t.color, t.left, p), y);
      Here(pq, y);
      Here(In(Hi, y.e, y.color, y.left, pq), y.right);
      SuccessorParent(p, t, q, y);
    }

    /** The successor leaves its place in the right subtree and takes that subtree as its own. */
    method DetachSuccessor(y: Node, x: Node, z: Node, ghost p: Ctx, ghost t: Shape, ghost q: Ctx, ghost ty: Shape)
      requires At(z, p, t) && t.Node? && t.right == Plug(q, ty) && q.In?
      requires ty.Node? && ty.left.Leaf? && y == ty.e.ref && x == RootRef(ty.right, nil)
      modifies this`root, Repr, nil`parent
      ensures Vacating(Snap(Repr), p, Tree.Node(t.left, ty.e, t.color, Plug(q, ty.right)), z, nil, null)
      ensures root == old(root) && (ty.right.Leaf? ==> nil.parent == q.e.ref)
    {
      hide Linked, Above, Flat, DistinctPath;
      ghost var t1 := Tree.Node(t.left, t.e, t.color, Plug(q, ty.right));
      CutSuccessor(y, p, t, q, ty);
      ghost var m1 := Snap(Repr);
      PlugNode(q, ty.right);
      Look(m1, p, t1, root, nil, null);
      LookKid(m1, p, t1, Hi, root, nil, null);
      assert t1.right.e.ref in Refs(t1.right) && Refs(t1) <= Refs(Plug(p, t1));
      y.right := z.right;
      y.right.parent := y;
      VacateRemote(m1, Snap(Repr), p, t1, ty.e, root, nil, null);
    }

    method CutSuccessor(y: Node, ghost p: Ctx, ghost t: Shape, ghost q: Ctx, ghost ty: Shape)
      requires Wired() && shape == Plug(p, t) && t.Node? && t.right == Plug(q, ty) && q.In?
      requires ty.Node? && ty.left.Leaf? && y == ty.e.ref
      modifies this`root, Repr, nil`parent
      ensures var t1 := Tree.Node(t.left, t.e, t.color, Plug(q, ty.right));
              InPlace(Snap(Repr), Plug(p, t1), root, nil, null) && y !in Refs(Plug(p, t1))
      ensures y in Repr && y.key == ty.e.key && y.value == ty.e.value && root == old(root)
      ensures ty.right.Leaf? ==> nil.parent == q.e.ref
    {
      ghost var above := In(Hi, t.e, t.color, t.left, p);
      ghost var pq := Append(q, above);
      ghost var m := Snap(Repr);
      AppendPlug(q, above, ty);
      AppendPlug(q, above, ty.right);
      Here(pq, ty);
      HereKid(pq, ty, Hi);
      Transplant(y, y.right, pq, ty.right);
      assert Snap(Repr)[y] == m[y];
      CutInPlace(m, Snap(Repr), pq, ty, Hi, root, nil, null);
    }

    method TakePlace(z: Node, y: Node, ghost p: Ctx, ghost t: Shape)
      requires nil !in Repr && nil.color == Black && nil.left == null && nil.right == null
      requires Vacating(Snap(Repr), p, t, z, nil, null) && t.e.ref == y && t.left.Node? && root == TopRef(p, z)
      modifies this`root, this`shape, Repr
      ensures Wired() && shape == Plug(p, t)
    {
      ghost var m := Snap(Repr);
      BeforeTakeOver(m, p, t, z, nil, null);
      MoveInto(z, y, p, t);
      TakeOver(m, Snap(Repr), p, t, z, nil, null);
      shape := Plug(p, t);
    }

    method MoveInto(z: Node, y: Node, ghost p: Ctx, ghost t: Shape)
      requires nil !in Repr && t.Node? && y == t.e.ref && y in Repr && z in Repr && z != y
      requires y.key == t.e.key && y.value == t.e.value && y.right == RootRef(t.right, nil)
      requires z.left == RootRef(t.left, nil) && z.parent == ParentRef(p, null) && z.color == t.color
      requires p.In? ==> p.e.ref in Repr && p.e.ref != null && p.e.ref !in {z, y} && (p.side.Lo? <==> p.e.ref.left == z)
      requires t.left.Node? && z.left != null && z.left in Repr && z.left !in {z, y, ParentRef(p, null)}
      modifies this`root, Repr
      ensures TookOver(old(Snap(Repr)), Snap(Repr), p, t, nil, null)
      ensures root == if p.Top? then y else old(root)
    {
      ghost var m := Snap(Repr);
      Transplant(z, y, p, Tree.Node(Leaf, t.e, t.color, Leaf));
      assert Snap(Repr)[z] == m[z];
      assert Snap(Repr)[y] == m[y].(parent := ParentRef(p, null));
      y.left := z.left;
      y.left.parent := y;
      y.color := z.color;
    }

    // ---------- The public operations ----------

    method SearchNode(key: int) returns (n: Node?, ghost p: Ctx, ghost t: Shape)
      requires Wired() && Sorted(Flat(shape))
      ensures n == null <==> key !in Contents()
      ensures n != null ==>
        At(n, p, t) && t.Node? && t.e.key == key && n.key == key && n in Repr && n.value == Contents()[key]
    {
      var current := root;
      p, t := Top, shape;
      Here(p, t);
      while current != nil
        invariant At(current, p, t) && Bracket(p, key) && (current == nil <==> t.Leaf?)
        decreases t
      {
        Here(p, t);
        HereKid(p, t, Lo);
        HereKid(p, t, Hi);
        if key == current.key {
          Found(p, t);
          return current, p, t;
        } else if key < current.key {
          current := current.left;
          Descend(p, t, key, Lo);
          p, t := In(Lo, t.e, t.color, t.right, p), t.left;
        } else {
          current := current.right;
          Descend(p, t, key, Hi);
          p, t := In(Hi, t.e, t.color, t.left, p), t.right;
        }
      }
      Missing(p, key);
      return null, p, t;
    }

    /** An existing key keeps its value. */
    method Insert(key: int, value: int)
      requires Valid()
      modifies this, Repr
      ensures Valid() && fresh(Repr - old(Repr))
      ensures Contents() == if key in old(Contents()) then old(Contents()) else old(Contents())[key := value]
    {
      var existing, _, _ := SearchNode(key);
      if existing != null { return; }
      var y: Node? := null;
      var x := root;
      ghost var p: Ctx, t := Top, shape;
      Here(p, t);
      while x != nil
        invariant At(x, p, t) && Bracket(p, key) && y == ParentRef(p, null) && (x == nil <==> t.Leaf?)
        modifies {}
        decreases t
      {
        Here(p, t);
        HereKid(p, t, Lo);
        HereKid(p, t, Hi);
        y := x;
        if key < x.key {
          x := x.left;
          Descend(p, t, key, Lo);
          p, t := In(Lo, t.e, t.color, t.right, p), t.left;
        } else if key > x.key {
          x := x.right;
          Descend(p, t, key, Hi);
          p, t := In(Hi, t.e, t.color, t.left, p), t.right;
        } else {
          Found(p, t);
          assert false;
          return;
        }
      }
      Here(p, t);
      InsertBelow(key, value, y, p);
    }

    method InsertBelow(key: int, value: int, y: Node?, ghost p: Ctx)
      requires Valid() && shape == Plug(p, Leaf) && y == ParentRef(p, null) && Bracket(p, key)
      requires y != null ==> y in Repr
      modifies this, Repr
      ensures Valid() && fresh(Repr - old(Repr))
      ensures Contents() == old(Contents())[key := value]
    {
      Here(p, Leaf);
      var z, t := NewLeaf(key, value, y, p);
      if z.parent == null {
        PaintRoot(z, t);
        return;
      }
      Here(p, t);
      Here(p.up, Join(p.side, t, p.e, p.color, p.sib));
      if z.parent.parent == null {
        InsertDone(p, t);
        return;
      }
      InsertFixup(z, p, t);
    }

    method PaintRoot(z: Node, ghost t: Shape)
      requires At(z, Top, t) && t.Node? && t.left.Leaf? && t.right.Leaf?
      modifies this`shape, z`color
      ensures Wired() && RedBlack(shape) && Flat(shape) == old(Flat(shape))
    {
      Recolor(z, Black, Top, t);
    }

    method NewLeaf(key: int, value: int, y: Node?, ghost p: Ctx) returns (z: Node, ghost t: Shape)
      requires Valid() && shape == Plug(p, Leaf) && y == ParentRef(p, null) && Bracket(p, key)
      requires y != null ==> y in Repr
      requires p.In? ==> y != null
      modifies this, Repr
      ensures fresh(z) && Repr == old(Repr) + {z} && nil.parent == null && z.parent == ParentRef(p, null)
      ensures At(z, p, t) && t.Node? && t.left.Leaf? && t.right.Leaf? && (p.In? ==> Climbing(p, t))
      ensures Sorted(Flat(shape)) && Contents() == old(Contents())[key := value]
    {
      z := new Node(key, value);
      z.left := nil;
      z.right := nil;
      t := Tree.Node(Leaf, Entry(z, key, value), Red, Leaf);
      if p.In? {
        AttachSpec(p, t.e);
      } else {
        assert Flat(t) == [t.e] && ToMap(Flat(t)) == map[key := value];
      }
      Attach(z, y, p, t);
    }

    method Attach(z: Node, y: Node?, ghost p: Ctx, ghost t: Shape)
      requires Wired() && shape == Plug(p, Leaf) && y == ParentRef(p, null) && Bracket(p, z.key)
      requires (y != null ==> y in Repr) && (p.In? ==> y != null)
      requires z !in Repr && z != nil && z.left == nil && z.right == nil
      requires t.Node? && t.left.Leaf? && t.right.Leaf? && t.color == z.color
      requires t.e.ref == z && t.e.key == z.key && t.e.value == z.value
      modifies this, z`parent, Repr
      ensures At(z, p, t) && Repr == old(Repr) + {z} && z.parent == y && nil.parent == old(nil.parent)
    {
      hide Linked, Above;
      ghost var m := Snap(Repr);
      Here(p, Leaf);
      if p.In? {
        BracketSide(p, z.key);
      }
      z.parent := y;
      if y == null {
        root := z;
      } else if z.key < y.key {
        y.left := z;
      } else {
        y.right := z;
      }
      Repr := Repr + {z};
      AttachInPlace(m, Snap(Repr), p, t, old(root), nil, null);
      shape := Plug(p, t);
    }

    method Remove(key: int)
      requires Valid()
      modifies this, Repr, nil
      ensures Valid() && Repr == old(Repr)
      ensures Contents() == old(Contents()) - {key}
    {
      var z, p, t := SearchNode(key);
      if z == null { return; }
      RemoveNode(z, p, t);
    }

    method RemoveNode(z: Node, ghost p: Ctx, ghost t: Shape)
      requires Valid() && At(z, p, t) && t.Node?
      modifies this`root, this`shape, Repr, nil
      ensures Valid() && Contents() == old(Contents()) - {z.key}
    {
      hide Linked, Above, Flat, ToMap, Sorted, RedBlack, Deficient;
      var x, originalColor, p', t' := Unlink(z, p, t);
      if originalColor == Black {
        DeleteFixup(x, p', t');
      }
      nil.parent := null;
    }

    /** Takes `z` out of the links; `x` stands where a black may now be missing, and knows its parent. */
    method Unlink(z: Node, ghost p: Ctx, ghost t: Shape)
      returns (x: Node, originalColor: Color, ghost p': Ctx, ghost t': Shape)
      requires Valid() && At(z, p, t) && t.Node?
      modifies this`root, this`shape, Repr, nil`parent
      ensures At(x, p', t') && x.parent == ParentRef(p', null)
      ensures if originalColor.Black? then Deficient(p', t') else RedBlack(shape)
      ensures Sorted(Flat(shape)) && Contents() == old(Contents()) - {z.key}
    {
      Here(p, t);
      HereKid(p, t, Lo);
      HereKid(p, t, Hi);
      originalColor := z.color;
      if z.left == nil {
        x, p', t' := z.right, p, t.right;
        CutSpec(p, t, Hi);
        CutNode(z, z.right, p, t, Hi);
      } else if z.right == nil {
        x, p', t' := z.left, p, t.left;
        CutSpec(p, t, Lo);
        CutNode(z, z.left, p, t, Lo);
      } else {
        ghost var q, ty;
        x, originalColor, q, ty := SpliceSuccessor(z, p, t);
        p', t' := Append(q, In(Hi, ty.e, t.color, t.left, p)), ty.right;
        SpliceSpec(p, t, q, ty);
      }
    }

    /** `None` stands for the exception thrown on a missing key. */
    method Get(key: int) returns (r: Option<int>)
      requires Valid()
      ensures r == if key in Contents() then Some(Contents()[key]) else None
    {
      var n, _, _ := SearchNode(key);
      r := if n != null then Some(n.value) else None;
    }

    method Modify(key: int, value: int)
      requires Valid()
      modifies this, Repr
      ensures Valid() && Repr == old(Repr)
      ensures Contents() == if key in old(Contents()) then old(Contents())[key := value] else old(Contents())
    {
      var n, p, t := SearchNode(key);
      if n != null {
        RebindSpec(p, t, value);
        WriteValue(n, value, p, t);
      }
    }

    method WriteValue(n: Node, value: int, ghost p: Ctx, ghost t: Shape)
      requires At(n, p, t) && t.Node?
      modifies this`shape, n`value
      ensures Wired() && shape == Plug(p, Tree.Node(t.left, t.e.(value := value), t.color, t.right))
    {
      ghost var m := Snap(Repr);
      Here(p, t);
      n.value := value;
      ghost var t' := Tree.Node(t.left, t.e.(value := value), t.color, t.right);
      EditInPlace(m, Snap(Repr), p, t, t', root, nil, null);
      shape := Plug(p, t');
    }

    /** The traversal with an explicit stack lists the entries in key order. */
    method InOrder() returns (out: seq<(int, int)>)
      requires Valid()
      ensures out == Pairs(Flat(shape))
    {
      hide Flat, Pairs, Linked, Above, Rest;
      out := [];
      var s: seq<Node> := [];
      var current := root;
      ghost var t, ts := shape, [];
      Here(Top, shape);
      RestNone(t);
      assert out + Pairs(Flat(t) + []) == Pairs(Flat(t)) by { assert Flat(t) + [] == Flat(t); }
      while current != nil || s != []
        invariant current == RootRef(t, nil) && current != null && (current == nil <==> t.Leaf?)
        invariant Pending(current, t) && Stacked(s, ts)
        invariant out + Pairs(Flat(t) + Rest(ts)) == Pairs(Flat(shape))
        decreases |Flat(t)| + |Rest(ts)|
      {
        current, s, t, ts := PushLeft(current, s, t, ts);
        RestPop(ts);
        current := s[|s| - 1];
        t := ts[|ts| - 1];
        s, ts := s[..|s| - 1], ts[..|ts| - 1];
        Assoc(out, [(current.key, current.value)], Pairs(Flat(t.right) + Rest(ts)));
        out := out + [(current.key, current.value)];
        current, t := current.right, t.right;
      }
      RestNone(t);
    }

    lemma RestNone(t: Shape)
      ensures Rest([]) == [] && (t.Leaf? ==> Pairs(Flat(t) + Rest([])) == [])
    {
    }

    /** `t` hangs below some node of the tree, with root pointer `n`. */
    ghost predicate Pending(n: Node?, t: Shape)
      reads this, Repr, nil
    {
      nil !in Repr && n == RootRef(t, nil) &&
      (t.Node? ==> t.e.ref in Snap(Repr) && Linked(Snap(Repr), t, Snap(Repr)[t.e.ref].parent, nil))
    }

    ghost predicate Stacked(s: seq<Node>, ts: seq<Shape>)
      reads this, Repr, nil
    {
      |s| == |ts| && forall i :: 0 <= i < |s| ==> ts[i].Node? && Pending(s[i], ts[i])
    }

    /** What remains to be listed for the nodes on the stack, topmost first. */
    ghost function Rest(ts: seq<Shape>): seq<Entry<Node?, int>>
      requires forall i :: 0 <= i < |ts| ==> ts[i].Node?
    {
      if ts == [] then []
      else [ts[|ts| - 1].e] + Flat(ts[|ts| - 1].right) + Rest(ts[..|ts| - 1])
    }

    lemma PendingKids(n: Node?, t: Shape)
      requires Pending(n, t) && t.Node?
      ensures n != null && n in Repr && n.key == t.e.key && n.value == t.e.value
      ensures n.left != null && n.right != null && Pending(n.left, t.left) && Pending(n.right, t.right)
      ensures (n.left == nil <==> t.left.Leaf?) && (n.right == nil <==> t.right.Leaf?)
    {
      assert Linked(Snap(Repr), t.left, n, nil) && Linked(Snap(Repr), t.right, n, nil);
    }

    method PushLeft(current0: Node, s0: seq<Node>, ghost t0: Shape, ghost ts0: seq<Shape>)
      returns (current: Node, s: seq<Node>, ghost t: Shape, ghost ts: seq<Shape>)
      requires Pending(current0, t0) && Stacked(s0, ts0) && (current0 == nil <==> t0.Leaf?)
      requires current0 != nil || s0 != []
      ensures Pending(current, t) && Stacked(s, ts) && t.Leaf? && current == nil && s != []
      ensures Rest(ts) == Flat(t0) + Rest(ts0)
      ensures var n, x := s[|s| - 1], ts[|ts| - 1];
              n.key == x.e.key && n.value == x.e.value && n.right != null && Pending(n.right, x.right) &&
              (n.right == nil <==> x.right.Leaf?)
    {
      hide Linked, Above, Flat, Rest, Pending;
      current, s, t, ts := current0, s0, t0, ts0;
      while current != nil
        invariant Pending(current, t) && Stacked(s, ts) && (current == nil <==> t.Leaf?)
        invariant current != nil || s != []
        invariant Flat(t) + Rest(ts) == Flat(t0) + Rest(ts0)
        decreases t
      {
        PendingKids(current, t);
        RestPush(t, ts);
        StackPush(s, ts, current, t);
        s, ts := s + [current], ts + [t];
        current, t := current.left, t.left;
      }
      PendingKids(s[|s| - 1], ts[|ts| - 1]);
      NothingLeft(t, Rest(ts));
    }

    lemma NothingLeft(t: Shape, rest: seq<Entry<Node?, int>>)
      ensures t.Leaf? ==> Flat(t) + rest == rest
    {
    }

    lemma StackPush(s: seq<Node>, ts: seq<Shape>, n: Node, t: Shape)
      requires Stacked(s, ts) && Pending(n, t) && t.Node?
      ensures Stacked(s + [n], ts + [t])
    {
      hide Pending;
    }

    lemma {:induction false} RestPush(t: Shape, ts: seq<Shape>)
      requires t.Node? && forall i :: 0 <= i < |ts| ==> ts[i].Node?
      ensures Flat(t) + Rest(ts) == Flat(t.left) + Rest(ts + [t])
    {
      assert (ts + [t])[..|ts|] == ts;
      Regroup([], Flat(t.left), [t.e], Flat(t.right), Rest(ts));
      assert [] + (Flat(t.left) + [t.e] + Flat(t.right)) == Flat(t);
    }

    lemma RestPop(ts: seq<Shape>)
      requires ts != [] && forall i :: 0 <= i < |ts| ==> ts[i].Node?
      ensures var t, rest := ts[|ts| - 1], Rest(ts[..|ts| - 1]);
              Pairs(Rest(ts)) == [(t.e.key, t.e.value)] + Pairs(Flat(t.right) + rest) &&
              |Rest(ts)| == 1 + |Flat(t.right)| + |rest|
    {
      var t, rest := ts[|ts| - 1], Rest(ts[..|ts| - 1]);
      assert [t.e] + Flat(t.right) + rest == [] + [t.e] + (Flat(t.right) + rest);
      PairsSplit([], t.e, Flat(t.right) + rest);
    }

    method CheckRedProperty(node: Node, ghost p: Ctx, ghost t: Shape) returns (ok: bool)
      requires At(node, p, t)
      ensures ok <==> NoRedRed(t)
      decreases t
    {
      Here(p, t);
      if node == nil { return true; }
      KidColors(p, t);
      if node.color == Red && (node.left.color == Red || node.right.color == Red) { return false; }
      ok := CheckRedProperty(node.left, In(Lo, t.e, t.color, t.right, p), t.left);
      if ok {
        ok := CheckRedProperty(node.right, In(Hi, t.e, t.color, t.left, p), t.right);
      }
    }

    method CheckBlackHeight(node: Node, blackCount: int, counts: seq<int>, ghost p: Ctx, ghost t: Shape)
      returns (leafBlackCounts: seq<int>)
      requires At(node, p, t)
      ensures leafBlackCounts == counts + LeafCounts(t, blackCount)
      decreases t
    {
      hide Linked, Above;
      Here(p, t);
      if node == nil { return counts + [blackCount]; }
      HereKid(p, t, Lo);
      HereKid(p, t, Hi);
      var c := if node.color == Black then blackCount + 1 else blackCount;
      leafBlackCounts := CheckBlackHeight(node.left, c, counts, In(Lo, t.e, t.color, t.right, p), t.left);
      leafBlackCounts := CheckBlackHeight(node.right, c, leafBlackCounts, In(Hi, t.e, t.color, t.left, p), t.right);
      Assoc(counts, LeafCounts(t.left, c), LeafCounts(t.right, c));
    }

    /** Decides the red-black rules exactly. */
    method VerifyRBProperties() returns (ok: bool)
      requires Wired()
      ensures ok <==> RedBlack(shape)
    {
      hide Linked, Above;
      Here(Top, shape);
      if root == nil { return true; }
      if root.color != Black { return false; }
      ok := CheckRedProperty(root, Top, shape);
      if !ok { return false; }
      var counts := CheckBlackHeight(root, 0, [], Top, shape);
      assert counts == LeafCounts(shape, 0);
      LeafCountsUniform(shape, 0, counts[0]);
      UniformIsBalanced(shape, 0, counts[0]);
      LeafCountsFirst(shape, 0);
      for i := 1 to |counts|
        invariant forall j :: 0 <= j < i ==> counts[j] == counts[0]
      {
        if counts[i] != counts[0] { return false; }
      }
      return true;
    }
  }

  // ---------- Whole runs ----------

  datatype Op = Add(key: int, value: int) | Change(key: int, value: int) | Del(key: int)

  /** Adding keeps an existing value, changing needs one. */
  function Perform(m: map<int, int>, op: Op): map<int, int> {
    match op
    case Add(k, v) => if k in m then m else m[k := v]
    case Change(k, v) => if k in m then m[k := v] else m
    case Del(k) => m - {k}
  }

  function Outcome(m: map<int, int>, ops: seq<Op>): map<int, int>
    decreases |ops|
  {
    if ops == [] then m else Outcome(Perform(m, ops[0]), ops[1..])
  }

  method Do(tree: RBTree, op: Op)
    requires tree.Valid()
    modifies tree, tree.Repr, tree.nil
    ensures tree.Valid() && fresh(tree.Repr - old(tree.Repr))
    ensures tree.Contents() == Perform(old(tree.Contents()), op)
  {
    match op
    case Add(k, v) => tree.Insert(k, v);
    case Change(k, v) => tree.Modify(k, v);
    case Del(k) => tree.Remove(k);
  }

  /** Any run on a new tree: the rules hold, its own test says so, and every key has its value. */
  method Replay(ops: seq<Op>, key: int) returns (check: bool, listing: seq<(int, int)>, found: Option<int>)
    ensures check && |listing| == |Outcome(map[], ops)|
    ensures forall i, j :: 0 <= i < j < |listing| ==> listing[i].0 < listing[j].0
    ensures forall i :: 0 <= i < |listing| ==>
              listing[i].0 in Outcome(map[], ops) && Outcome(map[], ops)[listing[i].0] == listing[i].1
    ensures var m := Outcome(map[], ops); found == if key in m then Some(m[key]) else None
  {
    var tree := new RBTree();
    ghost var m: map<int, int> := map[];
    for n := 0 to |ops|
      invariant tree.Valid() && fresh(tree) && fresh(tree.Repr) && fresh(tree.nil) && tree.Contents() == m
      invariant Outcome(m, ops[n..]) == Outcome(map[], ops)
    {
      assert ops[n..][1..] == ops[n + 1..];
      Do(tree, ops[n]);
      m := Perform(m, ops[n]);
    }
    check := tree.VerifyRBProperties();
    found := tree.Get(key);
    listing := List(tree);
  }

  method List(tree: RBTree) returns (listing: seq<(int, int)>)
    requires tree.Valid()
    ensures |listing| == |tree.Contents()|
    ensures forall i, j :: 0 <= i < j < |listing| ==> listing[i].0 < listing[j].0
    ensures forall i :: 0 <= i < |listing| ==>
              listing[i].0 in tree.Contents() && tree.Contents()[listing[i].0] == listing[i].1
  {
    listing := tree.InOrder();
    ghost var s := Flat(tree.shape);
    MapSize(s);
    forall i | 0 <= i < |listing|
      ensures listing[i].0 in tree.Contents() && tree.Contents()[listing[i].0] == listing[i].1
    {
      MapAt(s, i);
    }
  }
}
