/**
 The key-value red-black tree: a pointer tree with parent links and null leaves.

 `shape` is the tree that the nodes represent.  `Wired` ties every field of every node to
 it; `Valid` adds the key order, the red-black rules and the element count.
 */
module KVRedBlackTree {
  import opened Common
  import opened RBShape
  import opened RBMemory
  import opened RBBalance
  import opened RBContents
  import opened RBUpdates

  class Node<V> {
    const key: int
    var value: V
    var color: Color
    var left: Node?<V>
    var right: Node?<V>
    var parent: Node?<V>

    constructor (k: int, v: V, c: Color)
      ensures key == k && value == v && color == c
      ensures left == null && right == null && parent == null
    {
      key, value, color := k, v, c;
      left, right, parent := null, null, null;
    }

    predicate IsLeftChild()
      reads this, parent
    {
      parent != null && parent.left == this
    }

    function Sibling(): Node?<V>
      reads this, parent
    {
      if parent == null then null
      else if IsLeftChild() then parent.right else parent.left
    }
  }

  type Shape<V> = Tree<Node?<V>, V>
  type Ctx<V> = Path<Node?<V>, V>

  ghost function Snap<V>(s: set<Node?<V>>): Mem<Node?<V>, V>
    reads s
  {
    map n | n in s && n != null :: Cell(n.left, n.right, n.parent, n.color, n.key, n.value)
  }

  class RedBlackTree<V> {
    var root: Node?<V>
    var count: nat
    ghost var shape: Shape<V>
    ghost var Repr: set<Node?<V>>

    /** Every field of every node is as `shape` says. */
    ghost predicate Wired()
      reads this, Repr
    {
      InPlace(Snap(Repr), shape, root, null, null)
    }

    /** What the fields around a position hold. */
    lemma Here(p: Ctx<V>, t: Shape<V>)
      requires Wired() && shape == Plug(p, t)
      ensures root == TopRef(p, RootRef(t, null)) && (p.Top? <==> root == RootRef(t, null))
      ensures t.Node? ==> t.e.ref in Repr && t.e.ref != null
      ensures t.Node? ==> var n := t.e.ref;
                n.left == RootRef(t.left, null) && n.right == RootRef(t.right, null) &&
                n.parent == ParentRef(p, null) && n.color == t.color && n.key == t.e.key && n.value == t.e.value
      ensures p.In? ==>
        p.e.ref in Repr && p.e.ref != null && p.e.ref != RootRef(t, null) && p.e.ref.color == p.color &&
        p.e.ref.key == p.e.key
      ensures p.In? ==> p.e.ref.parent == ParentRef(p.up, null) && root != null
      ensures p.In? ==> (if p.side.Lo? then p.e.ref.left else p.e.ref.right) == RootRef(t, null)
      ensures p.In? ==> (if p.side.Lo? then p.e.ref.right else p.e.ref.left) == RootRef(p.sib, null)
      ensures p.In? && p.sib.Node? ==> p.sib.e.ref in Repr && p.sib.e.ref != null && p.sib.e.ref != RootRef(t, null)
    {
      Look(Snap(Repr), p, t, root, null, null);
    }

    /** A child pointer is null exactly at a leaf; otherwise it points to a third node. */
    lemma HereKid(p: Ctx<V>, t: Shape<V>, s: Side)
      requires Wired() && shape == Plug(p, t) && t.Node?
      ensures RootRef(t.Kid(s), null) == null <==> t.Kid(s).Leaf?
      ensures t.Kid(s).Node? ==> t.Kid(s).e.ref in Repr && t.Kid(s).e.ref !in {t.e.ref, ParentRef(p, null)}
    {
      if t.Kid(s).Node? {
        LookKid(Snap(Repr), p, t, s, root, null, null);
      }
    }

    method LeftRotate(x: Node<V>, ghost p: Ctx<V>, ghost t: Shape<V>)
      requires Wired() && shape == Plug(p, t) && RootRef(t, null) == x
      modifies this`root, this`shape, Repr
      ensures Wired() && shape == Plug(p, Rotate(t, Lo)) && Flat(shape) == old(Flat(shape))
    {
      ghost var m := Snap(Repr);
      Here(p, t);
      Here(In(Hi, t.e, t.color, t.left, p), t.right);
      if x.right == null { return; }
      BeforeTurn(m, p, t, Lo, root, null, null);
      SpinLeft(x, x.right, p, t);
      TurnInPlace(m, Snap(Repr), p, t, Lo, old(root), null, null);
      shape := Plug(p, Rotate(t, Lo));
    }

    method SpinLeft(x: Node<V>, y: Node<V>, ghost p: Ctx<V>, ghost t: Shape<V>)
      requires t.Node? && t.right.Node? && x == t.e.ref && y == t.right.e.ref
      requires x in Repr && y in Repr && x.right == y && x != y && y.left == RootRef(t.right.left, null)
      requires y.left != null ==> y.left in Repr && y.left !in {x, y}
      requires x.parent == ParentRef(p, null)
      requires p.In? ==>
        p.e.ref in Repr && p.e.ref != null && p.e.ref !in {x, y, y.left} && (p.side.Lo? <==> p.e.ref.left == x)
      modifies this`root, Repr
      ensures Turned(old(Snap(Repr)), Snap(Repr), p, t, Lo)
      ensures root == if p.Top? then y else old(root)
    {
      x.right := y.left;
      if y.left != null {
        y.left.parent := x;
      }
      y.parent := x.parent;
      if x.parent == null {
        root := y;
      } else if x.IsLeftChild() {
        x.parent.left := y;
      } else {
        x.parent.right := y;
      }
      y.left := x;
      x.parent := y;
    }

    method RightRotate(x: Node<V>, ghost p: Ctx<V>, ghost t: Shape<V>)
      requires Wired() && shape == Plug(p, t) && RootRef(t, null) == x
      modifies this`root, this`shape, Repr
      ensures Wired() && shape == Plug(p, Rotate(t, Hi)) && Flat(shape) == old(Flat(shape))
    {
      ghost var m := Snap(Repr);
      Here(p, t);
      Here(In(Lo, t.e, t.color, t.right, p), t.left);
      if x.left == null { return; }
      BeforeTurn(m, p, t, Hi, root, null, null);
      SpinRight(x, x.left, p, t);
      TurnInPlace(m, Snap(Repr), p, t, Hi, old(root), null, null);
      shape := Plug(p, Rotate(t, Hi));
    }

    method SpinRight(x: Node<V>, y: Node<V>, ghost p: Ctx<V>, ghost t: Shape<V>)
      requires t.Node? && t.left.Node? && x == t.e.ref && y == t.left.e.ref
      requires x in Repr && y in Repr && x.left == y && x != y && y.right == RootRef(t.left.right, null)
      requires y.right != null ==> y.right in Repr && y.right !in {x, y}
      requires x.parent == ParentRef(p, null)
      requires p.In? ==>
        p.e.ref in Repr && p.e.ref != null && p.e.ref !in {x, y, y.right} && (p.side.Lo? <==> p.e.ref.left == x)
      modifies this`root, Repr
      ensures Turned(old(Snap(Repr)), Snap(Repr), p, t, Hi)
      ensures root == if p.Top? then y else old(root)
    {
      x.left := y.right;
      if y.right != null {
        y.right.parent := x;
      }
      y.parent := x.parent;
      if x.parent == null {
        root := y;
      } else if x.IsLeftChild() {
        x.parent.left := y;
      } else {
        x.parent.right := y;
      }
      y.right := x;
      x.parent := y;
    }

    method Recolor(n: Node<V>, c: Color, ghost p: Ctx<V>, ghost t: Shape<V>)
      requires Wired() && shape == Plug(p, t) && RootRef(t, null) == n
      modifies this`shape, n`color
      ensures Wired() && shape == Plug(p, Paint(t, c)) && Flat(shape) == old(Flat(shape))
    {
      ghost var m := Snap(Repr);
      FlatPlug(p, t);
      FlatPlug(p, Paint(t, c));
      Here(p, t);
      n.color := c;
      EditInPlace(m, Snap(Repr), p, t, Paint(t, c), root, null, null);
      shape := Plug(p, Paint(t, c));
    }

    ghost predicate At(node: Node?<V>, p: Ctx<V>, t: Shape<V>)
      reads this, Repr
    {
      Wired() && shape == Plug(p, t) && node == RootRef(t, null)
    }

    /** Red uncle: the grandparent hands its black to both children. */
    method PushBlackDown(parent: Node<V>, uncle: Node<V>, grandparent: Node<V>, ghost p: Ctx<V>, ghost t: Shape<V>)
      requires Wired() && shape == Plug(p, t) && Climbing(p, t) && !UnderBlack(p) && p.up.In? && !IsBlack(p.up.sib)
      requires parent == p.e.ref && uncle == p.up.sib.e.ref && grandparent == p.up.e.ref
      modifies this`shape, parent`color, uncle`color, grandparent`color
      ensures var g := p.up;
              var t' := Join(g.side, Join(p.side, t, p.e, Black, p.sib), g.e, Red, Paint(g.sib, Black));
              At(grandparent, g.up, t') && Climbing(g.up, t')
      ensures Flat(shape) == old(Flat(shape))
    {
      ghost var g := p.up;
      Recolor(parent, Black, g, Join(p.side, t, p.e, p.color, p.sib));
      ghost var q := Join(p.side, t, p.e, Black, p.sib);
      Recolor(uncle, Black, In(g.side.Flip(), g.e, g.color, q, g.up), g.sib);
      Recolor(grandparent, Red, g.up, Join(g.side, q, g.e, g.color, Paint(g.sib, Black)));
      InsertRecolour(p, t);
    }

    method FixInsert(z: Node<V>, ghost p0: Ctx<V>, ghost t0: Shape<V>)
      requires At(z, p0, t0) && Climbing(p0, t0)
      modifies this`root, this`shape, Repr
      ensures Wired() && RedBlack(shape) && Flat(shape) == old(Flat(shape))
    {
      var node := z;
      ghost var p, t := p0, t0;
      Here(p, t);
      while node != root && node.parent.color == Red
        invariant At(node, p, t) && Climbing(p, t) && Flat(shape) == old(Flat(shape))
        invariant node in Repr && node.parent == ParentRef(p, null) && (node == root <==> p.Top?)
        invariant p.In? ==> p.e.ref != null && p.e.ref.color == p.color
        decreases Depth(p)
      {
        var parent := node.parent;
        var grandparent := parent.parent;
        InsertHasGrandparent(p, t);
        ghost var q := Join(p.side, t, p.e, p.color, p.sib);
        Here(p.up, q);
        if grandparent == null {
          assert false;
          break;
        }
        if parent.IsLeftChild() {
          node, p, t := FixInsertLeft(node, parent, grandparent, p, t);
        } else {
          node, p, t := FixInsertRight(node, parent, grandparent, p, t);
        }
        Here(p, t);
      }
      InsertDone(p, t);
      if root != null {
        Recolor(root, Black, Top, shape);
      }
    }

    method FixInsertLeft(n: Node<V>, par: Node<V>, gp: Node<V>, ghost p: Ctx<V>, ghost t: Shape<V>)
      returns (node: Node<V>, ghost p': Ctx<V>, ghost t': Shape<V>)
      requires At(n, p, t) && Climbing(p, t) && !UnderBlack(p) && p.up.In? && p.up.side.Lo?
      requires par == p.e.ref && gp == p.up.e.ref
      modifies this`root, this`shape, Repr
      ensures At(node, p', t') && Climbing(p', t') && Flat(shape) == old(Flat(shape))
      ensures Depth(p') < Depth(p)
    {
      var parent, grandparent := par, gp;
      node, p', t' := n, p, t;
      ghost var q := Join(p.side, t, p.e, p.color, p.sib);
      Here(p, t);
      Here(p.up, q);
      var uncle := parent.Sibling();
      Here(In(Hi, p.up.e, p.up.color, q, p.up.up), p.up.sib);
      if uncle != null && uncle.color == Red {
        PushBlackDown(parent, uncle, grandparent, p, t);
        node := grandparent;
        p', t' := p.up.up, Join(Lo, Join(p.side, t, p.e, Black, p.sib), p.up.e, Red, Paint(p.up.sib, Black));
      } else {
        if !node.IsLeftChild() {
          node := parent;
          LeftRotate(node, p.up, q);
          InsertInner(p, t);
          t' := Join(Lo, p.sib, p.e, Red, t.Kid(Lo));
          p' := In(Lo, t.e, Red, t.Kid(Hi), p.up);
          Here(p', t');
          parent := node.parent;
          grandparent := if parent != null then parent.parent else null;
          if grandparent == null {
            assert false;
            return;
          }
        }
        p' := RaiseParentLeft(node, parent, grandparent, p', t');
      }
    }

    method RaiseParentLeft(node: Node<V>, parent: Node<V>, grandparent: Node<V>, ghost p: Ctx<V>, ghost t: Shape<V>)
      returns (ghost p': Ctx<V>)
      requires At(node, p, t) && Climbing(p, t) && !UnderBlack(p) && p.up.In? && IsBlack(p.up.sib)
      requires p.side.Lo? && p.up.side.Lo? && parent == p.e.ref && grandparent == p.up.e.ref
      modifies this`root, this`shape, Repr
      ensures At(node, p', t) && Climbing(p', t) && Flat(shape) == old(Flat(shape))
      ensures Depth(p') < Depth(p)
    {
      ghost var g := p.up;
      Here(p, t);
      Here(g, Join(Lo, t, p.e, p.color, p.sib));
      InsertOuter(p, t);
      Recolor(parent, Black, g, Join(Lo, t, p.e, p.color, p.sib));
      ghost var q := Join(Lo, t, p.e, Black, p.sib);
      Recolor(grandparent, Red, g.up, Join(Lo, q, g.e, g.color, g.sib));
      RightRotate(grandparent, g.up, Join(Lo, q, g.e, Red, g.sib));
      p' := In(Lo, p.e, Black, Join(Lo, p.sib, g.e, Red, g.sib), g.up);
    }

    method FixInsertRight(n: Node<V>, par: Node<V>, gp: Node<V>, ghost p: Ctx<V>, ghost t: Shape<V>)
      returns (node: Node<V>, ghost p': Ctx<V>, ghost t': Shape<V>)
      requires At(n, p, t) && Climbing(p, t) && !UnderBlack(p) && p.up.In? && p.up.side.Hi?
      requires par == p.e.ref && gp == p.up.e.ref
      modifies this`root, this`shape, Repr
      ensures At(node, p', t') && Climbing(p', t') && Flat(shape) == old(Flat(shape))
      ensures Depth(p') < Depth(p)
    {
      var parent, grandparent := par, gp;
      node, p', t' := n, p, t;
      ghost var q := Join(p.side, t, p.e, p.color, p.sib);
      Here(p, t);
      Here(p.up, q);
      var uncle := parent.Sibling();
      Here(In(Lo, p.up.e, p.up.color, q, p.up.up), p.up.sib);
      if uncle != null && uncle.color == Red {
        PushBlackDown(parent, uncle, grandparent, p, t);
        node := grandparent;
        p', t' := p.up.up, Join(Hi, Join(p.side, t, p.e, Black, p.sib), p.up.e, Red, Paint(p.up.sib, Black));
      } else {
        if node.IsLeftChild() {
          node := parent;
          RightRotate(node, p.up, q);
          InsertInner(p, t);
          t' := Join(Hi, p.sib, p.e, Red, t.Kid(Hi));
          p' := In(Hi, t.e, Red, t.Kid(Lo), p.up);
          Here(p', t');
          parent := node.parent;
          grandparent := if parent != null then parent.parent else null;
          if grandparent == null {
            assert false;
            return;
          }
        }
        p' := RaiseParentRight(node, parent, grandparent, p', t');
      }
    }

    method RaiseParentRight(node: Node<V>, parent: Node<V>, grandparent: Node<V>, ghost p: Ctx<V>, ghost t: Shape<V>)
      returns (ghost p': Ctx<V>)
      requires At(node, p, t) && Climbing(p, t) && !UnderBlack(p) && p.up.In? && IsBlack(p.up.sib)
      requires p.side.Hi? && p.up.side.Hi? && parent == p.e.ref && grandparent == p.up.e.ref
      modifies this`root, this`shape, Repr
      ensures At(node, p', t) && Climbing(p', t) && Flat(shape) == old(Flat(shape))
      ensures Depth(p') < Depth(p)
    {
      ghost var g := p.up;
      Here(p, t);
      Here(g, Join(Hi, t, p.e, p.color, p.sib));
      InsertOuter(p, t);
      Recolor(parent, Black, g, Join(Hi, t, p.e, p.color, p.sib));
      ghost var q := Join(Hi, t, p.e, Black, p.sib);
      Recolor(grandparent, Red, g.up, Join(Hi, q, g.e, g.color, g.sib));
      LeftRotate(grandparent, g.up, Join(Hi, q, g.e, Red, g.sib));
      p' := In(Hi, p.e, Black, Join(Hi, p.sib, g.e, Red, g.sib), g.up);
    }

    method FixDelete(x: Node?<V>, par: Node?<V>, ghost p0: Ctx<V>, ghost t0: Shape<V>)
      requires At(x, p0, t0) && par == ParentRef(p0, null) && p0.In? && Deficient(p0, t0)
      modifies this`root, this`shape, Repr
      ensures Wired() && RedBlack(shape) && Flat(shape) == old(Flat(shape))
    {
      Here(p0, t0);
      if root == null {
        assert false;
        return;
      }
      var node, parent := x, par;
      ghost var p, t := p0, t0;
      var done := false;
      while node != root && (node == null || node.color == Black)
        invariant At(node, p, t) && parent == ParentRef(p, null) && Flat(shape) == old(Flat(shape))
        invariant (node == root <==> p.Top?) && (node == null || node.color == Black <==> IsBlack(t))
        invariant if done then p.Top? && RedBlack(shape) else Deficient(p, t)
        decreases if IsBlack(t) then Depth(p) + 1 else 0
      {
        Here(p, t);
        if parent == null {
          assert false;
          break;
        }
        DeleteHasSibling(p, t);
        if node == parent.left {
          node, parent, done, p, t := FixDeleteLeft(node, parent, p, t);
        } else {
          node, parent, done, p, t := FixDeleteRight(node, parent, p, t);
        }
        Here(p, t);
      }
      if !done {
        DeleteDone(p, t);
      }
      Here(p, t);
      if node != null {
        Recolor(node, Black, p, t);
      }
    }

    /** The colour tests on the children of a node. */
    lemma KidColors(p: Ctx<V>, t: Shape<V>)
      requires Wired() && shape == Plug(p, t) && t.Node?
      ensures t.e.ref != null && t.e.ref in Repr
      ensures var n := t.e.ref;
              (n.left == null || n.left.color == Black <==> IsBlack(t.left)) &&
              (n.right == null || n.right.color == Black <==> IsBlack(t.right))
    {
      Here(p, t);
      Here(In(Lo, t.e, t.color, t.right, p), t.left);
      Here(In(Hi, t.e, t.color, t.left, p), t.right);
    }

    method FixDeleteLeft(n: Node?<V>, par: Node<V>, ghost p0: Ctx<V>, ghost t0: Shape<V>)
      returns (node: Node?<V>, parent: Node?<V>, done: bool, ghost p: Ctx<V>, ghost t: Shape<V>)
      requires At(n, p0, t0) && Deficient(p0, t0) && IsBlack(t0)
      requires p0.In? && p0.side.Lo? && par == p0.e.ref
      modifies this`root, this`shape, Repr
      ensures At(node, p, t) && parent == ParentRef(p, null) && Flat(shape) == old(Flat(shape))
      ensures if done then p.Top? && RedBlack(shape) else Deficient(p, t)
      ensures !done && IsBlack(t) ==> Depth(p) < Depth(p0)
    {
      node, parent, done, p, t := n, par, false, p0, t0;
      DeleteHasSibling(p, t);
      Here(p, t);
      var sibling := parent.right;
      if sibling == null {
        assert false;
        return;
      }
      Here(In(Hi, p.e, p.color, t, p.up), p.sib);
      if sibling.color == Red {
        p := LiftRedSiblingLeft(sibling, parent, p, t);
        Here(p, t);
        sibling := parent.right;
        if sibling == null {
          assert false;
          return;
        }
      }
      KidColors(In(p.side.Flip(), p.e, p.color, t, p.up), p.sib);
      if (sibling.left == null || sibling.left.color == Black) &&
         (sibling.right == null || sibling.right.color == Black) {
        DeleteRecolour(p, t);
        Recolor(sibling, Red, In(Hi, p.e, p.color, t, p.up), p.sib);
        p, t := p.up, Join(Lo, t, p.e, p.color, Paint(p.sib, Red));
        Here(p, t);
        node := parent;
        parent := node.parent;
      } else {
        if sibling.right == null || sibling.right.color == Black {
          p := TurnSiblingLeft(sibling, parent, p, t);
          Here(p, t);
          sibling := parent.right;
          if sibling == null {
            assert false;
            return;
          }
        }
        SettleLeft(sibling, parent, p, t);
        node, parent, done := root, null, true;
        p, t := Top, shape;
      }
    }

    /** Case 1: a red sibling is rotated above the parent. */
    method LiftRedSiblingLeft(sibling: Node<V>, parent: Node<V>, ghost p: Ctx<V>, ghost t: Shape<V>)
      returns (ghost p': Ctx<V>)
      requires Wired() && shape == Plug(p, t) && Deficient(p, t) && p.In? && p.side.Lo? && !IsBlack(p.sib)
      requires parent == p.e.ref && sibling == p.sib.e.ref
      modifies this`root, this`shape, Repr
      ensures Wired() && shape == Plug(p', t) && Deficient(p', t) && Flat(shape) == old(Flat(shape))
      ensures p'.In? && p'.side.Lo? && p'.e.ref == parent && p'.color.Red? && Depth(p') == Depth(p) + 1
      ensures p'.sib.Node? && IsBlack(p'.sib)
    {
      ghost var w := p.sib;
      Here(p, t);
      Here(In(Hi, p.e, p.color, t, p.up), w);
      DeleteRedSibling(p, t);
      Recolor(sibling, Black, In(Hi, p.e, p.color, t, p.up), w);
      Recolor(parent, Red, p.up, Join(Lo, t, p.e, p.color, Paint(w, Black)));
      LeftRotate(parent, p.up, Join(Lo, t, p.e, Red, Paint(w, Black)));
      p' := In(Lo, p.e, Red, w.Kid(Lo), In(Lo, w.e, Black, w.Kid(Hi), p.up));
    }

    /** Case 3: the sibling's near red child is rotated above it. */
    method TurnSiblingLeft(sibling: Node<V>, parent: Node<V>, ghost p: Ctx<V>, ghost t: Shape<V>)
      returns (ghost p': Ctx<V>)
      requires Wired() && shape == Plug(p, t) && Deficient(p, t) && p.In? && p.side.Lo?
      requires p.sib.Node? && IsBlack(p.sib) && !IsBlack(p.sib.left) && IsBlack(p.sib.right)
      requires parent == p.e.ref && sibling == p.sib.e.ref
      modifies this`root, this`shape, Repr
      ensures Wired() && shape == Plug(p', t) && Deficient(p', t) && Flat(shape) == old(Flat(shape))
      ensures p'.In? && p' == p.(sib := p'.sib)
      ensures p'.sib.Node? && IsBlack(p'.sib) && !IsBlack(p'.sib.right)
    {
      ghost var w := p.sib;
      ghost var above := In(Hi, p.e, p.color, t, p.up);
      Here(above, w);
      Here(In(Lo, w.e, w.color, w.right, above), w.left);
      DeleteNear(p, t);
      if sibling.left != null {
        Recolor(sibling.left, Black, In(Lo, w.e, w.color, w.right, above), w.left);
      }
      Recolor(sibling, Red, above, Join(Lo, Paint(w.left, Black), w.e, w.color, w.right));
      RightRotate(sibling, above, Join(Lo, Paint(w.left, Black), w.e, Red, w.right));
      p' := p.(sib := Rotate(Join(Lo, Paint(w.left, Black), w.e, Red, w.right), Hi));
    }

    /** Case 4: the sibling's far red child pays for the missing black. */
    method SettleLeft(sibling: Node<V>, parent: Node<V>, ghost p: Ctx<V>, ghost t: Shape<V>)
      requires Wired() && shape == Plug(p, t) && Deficient(p, t) && p.In? && p.side.Lo? && IsBlack(t)
      requires p.sib.Node? && IsBlack(p.sib) && !IsBlack(p.sib.right)
      requires parent == p.e.ref && sibling == p.sib.e.ref
      modifies this`root, this`shape, Repr
      ensures Wired() && RedBlack(shape) && Flat(shape) == old(Flat(shape))
    {
      ghost var w := p.sib;
      ghost var above := In(Hi, p.e, p.color, t, p.up);
      DeleteFar(p, t);
      Here(p, t);
      Here(above, w);
      Recolor(sibling, parent.color, above, w);
      Recolor(parent, Black, p.up, Join(Lo, t, p.e, p.color, Paint(w, p.color)));
      ghost var above' := In(Hi, p.e, Black, t, p.up);
      Here(above', Paint(w, p.color));
      Here(In(Hi, w.e, p.color, w.left, above'), w.right);
      if sibling.right != null {
        Recolor(sibling.right, Black, In(Hi, w.e, p.color, w.left, above'), w.right);
      }
      LeftRotate(parent, p.up, Join(Lo, t, p.e, Black, Join(Lo, w.left, w.e, p.color, Paint(w.right, Black))));
    }

    method FixDeleteRight(n: Node?<V>, par: Node<V>, ghost p0: Ctx<V>, ghost t0: Shape<V>)
      returns (node: Node?<V>, parent: Node?<V>, done: bool, ghost p: Ctx<V>, ghost t: Shape<V>)
      requires At(n, p0, t0) && Deficient(p0, t0) && IsBlack(t0)
      requires p0.In? && p0.side.Hi? && par == p0.e.ref
      modifies this`root, this`shape, Repr
      ensures At(node, p, t) && parent == ParentRef(p, null) && Flat(shape) == old(Flat(shape))
      ensures if done then p.Top? && RedBlack(shape) else Deficient(p, t)
      ensures !done && IsBlack(t) ==> Depth(p) < Depth(p0)
    {
      node, parent, done, p, t := n, par, false, p0, t0;
      DeleteHasSibling(p, t);
      Here(p, t);
      var sibling := parent.left;
      if sibling == null {
        assert false;
        return;
      }
      Here(In(Lo, p.e, p.color, t, p.up), p.sib);
      if sibling.color == Red {
        p := LiftRedSiblingRight(sibling, parent, p, t);
        Here(p, t);
        sibling := parent.left;
        if sibling == null {
          assert false;
          return;
        }
      }
      KidColors(In(p.side.Flip(), p.e, p.color, t, p.up), p.sib);
      if (sibling.right == null || sibling.right.color == Black) &&
         (sibling.left == null || sibling.left.color == Black) {
        DeleteRecolour(p, t);
        Recolor(sibling, Red, In(Lo, p.e, p.color, t, p.up), p.sib);
        p, t := p.up, Join(Hi, t, p.e, p.color, Paint(p.sib, Red));
        Here(p, t);
        node := parent;
        parent := node.parent;
      } else {
        if sibling.left == null || sibling.left.color == Black {
          p := TurnSiblingRight(sibling, parent, p, t);
          Here(p, t);
          sibling := parent.left;
          if sibling == null {
            assert false;
            return;
          }
        }
        SettleRight(sibling, parent, p, t);
        node, parent, done := root, null, true;
        p, t := Top, shape;
      }
    }

    /** Case 1: a red sibling is rotated above the parent. */
    method LiftRedSiblingRight(sibling: Node<V>, parent: Node<V>, ghost p: Ctx<V>, ghost t: Shape<V>)
      returns (ghost p': Ctx<V>)
      requires Wired() && shape == Plug(p, t) && Deficient(p, t) && p.In? && p.side.Hi? && !IsBlack(p.sib)
      requires parent == p.e.ref && sibling == p.sib.e.ref
      modifies this`root, this`shape, Repr
      ensures Wired() && shape == Plug(p', t) && Deficient(p', t) && Flat(shape) == old(Flat(shape))
      ensures p'.In? && p'.side.Hi? && p'.e.ref == parent && p'.color.Red? && Depth(p') == Depth(p) + 1
      ensures p'.sib.Node? && IsBlack(p'.sib)
    {
      ghost var w := p.sib;
      Here(p, t);
      Here(In(Lo, p.e, p.color, t, p.up), w);
      DeleteRedSibling(p, t);
      Recolor(sibling, Black, In(Lo, p.e, p.color, t, p.up), w);
      Recolor(parent, Red, p.up, Join(Hi, t, p.e, p.color, Paint(w, Black)));
      RightRotate(parent, p.up, Join(Hi, t, p.e, Red, Paint(w, Black)));
      p' := In(Hi, p.e, Red, w.Kid(Hi), In(Hi, w.e, Black, w.Kid(Lo), p.up));
    }

    /** Case 3: the sibling's near red child is rotated above it. */
    method TurnSiblingRight(sibling: Node<V>, parent: Node<V>, ghost p: Ctx<V>, ghost t: Shape<V>)
      returns (ghost p': Ctx<V>)
      requires Wired() && shape == Plug(p, t) && Deficient(p, t) && p.In? && p.side.Hi?
      requires p.sib.Node? && IsBlack(p.sib) && !IsBlack(p.sib.right) && IsBlack(p.sib.left)
      requires parent == p.e.ref && sibling == p.sib.e.ref
      modifies this`root, this`shape, Repr
      ensures Wired() && shape == Plug(p', t) && Deficient(p', t) && Flat(shape) == old(Flat(shape))
      ensures p'.In? && p' == p.(sib := p'.sib)
      ensures p'.sib.Node? && IsBlack(p'.sib) && !IsBlack(p'.sib.left)
    {
      ghost var w := p.sib;
      ghost var above := In(Lo, p.e, p.color, t, p.up);
      Here(above, w);
      Here(In(Hi, w.e, w.color, w.left, above), w.right);
      DeleteNear(p, t);
      if sibling.right != null {
        Recolor(sibling.right, Black, In(Hi, w.e, w.color, w.left, above), w.right);
      }
      Recolor(sibling, Red, above, Join(Hi, Paint(w.right, Black), w.e, w.color, w.left));
      LeftRotate(sibling, above, Join(Hi, Paint(w.right, Black), w.e, Red, w.left));
      p' := p.(sib := Rotate(Join(Hi, Paint(w.right, Black), w.e, Red, w.left), Lo));
    }

    /** Case 4: the sibling's far red child pays for the missing black. */
    method SettleRight(sibling: Node<V>, parent: Node<V>, ghost p: Ctx<V>, ghost t: Shape<V>)
      requires Wired() && shape == Plug(p, t) && Deficient(p, t) && p.In? && p.side.Hi? && IsBlack(t)
      requires p.sib.Node? && IsBlack(p.sib) && !IsBlack(p.sib.left)
      requires parent == p.e.ref && sibling == p.sib.e.ref
      modifies this`root, this`shape, Repr
      ensures Wired() && RedBlack(shape) && Flat(shape) == old(Flat(shape))
    {
      ghost var w := p.sib;
      ghost var above := In(Lo, p.e, p.color, t, p.up);
      DeleteFar(p, t);
      Here(p, t);
      Here(above, w);
      Recolor(sibling, parent.color, above, w);
      Recolor(parent, Black, p.up, Join(Hi, t, p.e, p.color, Paint(w, p.color)));
      ghost var above' := In(Lo, p.e, Black, t, p.up);
      Here(above', Paint(w, p.color));
      Here(In(Lo, w.e, p.color, w.right, above'), w.left);
      if sibling.left != null {
        Recolor(sibling.left, Black, In(Lo, w.e, p.color, w.right, above'), w.left);
      }
      RightRotate(parent, p.up, Join(Hi, t, p.e, Black, Join(Hi, w.right, w.e, p.color, Paint(w.left, Black))));
    }

    // ---------- The public operations ----------

    ghost predicate Valid()
      reads this, Repr
    {
      Wired() && Sorted(Flat(shape)) && RedBlack(shape) && count == |Flat(shape)|
    }

    ghost function Contents(): map<int, V>
      reads this
    {
      ToMap(Flat(shape))
    }

    constructor ()
      ensures Valid() && fresh(Repr) && Contents() == map[]
    {
      root, count, shape, Repr := null, 0, Leaf, {};
    }

    method FindNode(key: int) returns (n: Node?<V>, ghost p: Ctx<V>, ghost t: Shape<V>)
      requires Valid()
      ensures At(n, p, t) && Bracket(p, key) && (n != null ==> t.e.key == key)
      ensures n == null <==> key !in Contents()
      ensures n != null ==> n in Repr && n.value == Contents()[key]
    {
      var current := root;
      p, t := Top, shape;
      while current != null
        invariant At(current, p, t) && Bracket(p, key)
        decreases t
      {
        Here(p, t);
        if key < current.key {
          current := current.left;
          Descend(p, t, key, Lo);
          p, t := In(Lo, t.e, t.color, t.right, p), t.left;
        } else if key > current.key {
          current := current.right;
          Descend(p, t, key, Hi);
          p, t := In(Hi, t.e, t.color, t.left, p), t.right;
        } else {
          Found(p, t);
          return current, p, t;
        }
      }
      Here(p, t);
      Missing(p, key);
      return null, p, t;
    }

    method Insert(key: int, value: V) returns (added: bool)
      requires Valid()
      modifies this, Repr
      ensures Valid() && fresh(Repr - old(Repr))
      ensures Contents() == old(Contents())[key := value]
      ensures added <==> key !in old(Contents())
    {
      if root == null {
        CreateRoot(key, value);
        return true;
      }
      var current := root;
      var parent: Node?<V> := null;
      ghost var p: Ctx<V>, t := Top, shape;
      while current != null
        invariant At(current, p, t) && Bracket(p, key) && parent == ParentRef(p, null)
        modifies {}
        decreases t
      {
        Here(p, t);
        if key < current.key {
          parent := current;
          current := current.left;
          Descend(p, t, key, Lo);
          p, t := In(Lo, t.e, t.color, t.right, p), t.left;
        } else if key > current.key {
          parent := current;
          current := current.right;
          Descend(p, t, key, Hi);
          p, t := In(Hi, t.e, t.color, t.left, p), t.right;
        } else {
          break;
        }
      }
      Here(p, t);
      if current != null {
        UpdateValue(current, value, p, t);
        return false;
      }
      Missing(p, key);
      AttachAndFix(key, value, parent, p);
      return true;
    }

    method CreateRoot(key: int, value: V)
      requires Valid() && root == null
      modifies this
      ensures Valid() && fresh(Repr - old(Repr))
      ensures old(Contents()) == map[] && Contents() == map[key := value]
    {
      Here(Top, shape);
      var z := new Node(key, value, Black);
      ghost var m, t := Snap(Repr), Tree.Node(Leaf, Entry(z, key, value), Black, Leaf);
      root, count := z, 1;
      shape, Repr := t, Repr + {z};
      AttachInPlace(m, Snap(Repr), Top, t, null, null, null);
      assert Flat(t) == [t.e] && ToMap([t.e]) == map[key := value];
    }

    /** The key is present: only its value changes. */
    method UpdateValue(n: Node<V>, value: V, ghost p: Ctx<V>, ghost t: Shape<V>)
      requires Valid() && At(n, p, t)
      modifies this`shape, n`value
      ensures Valid()
      ensures n.key in old(Contents()) && Contents() == old(Contents())[n.key := value]
    {
      Here(p, t);
      RebindSpec(p, t, value);
      WriteValue(n, value, p, t);
    }

    method WriteValue(n: Node<V>, value: V, ghost p: Ctx<V>, ghost t: Shape<V>)
      requires At(n, p, t)
      modifies this`shape, n`value
      ensures Wired() && t.Node?
      ensures shape == Plug(p, Tree.Node(t.left, t.e.(value := value), t.color, t.right))
    {
      ghost var m := Snap(Repr);
      Here(p, t);
      n.value := value;
      ghost var t' := Tree.Node(t.left, t.e.(value := value), t.color, t.right);
      EditInPlace(m, Snap(Repr), p, t, t', root, null, null);
      shape := Plug(p, t');
    }

    method AttachAndFix(key: int, value: V, parent: Node<V>, ghost p: Ctx<V>)
      requires Valid() && shape == Plug(p, Leaf) && p.In? && parent == p.e.ref && parent in Repr && Bracket(p, key)
      modifies this, Repr
      ensures Valid() && fresh(Repr - old(Repr))
      ensures Contents() == old(Contents())[key := value]
    {
      hide Flat, ToMap, Sorted, Linked, Above, RedBlack;
      var z, t := NewLeaf(key, value, parent, p);
      FixInsert(z, p, t);
      count := count + 1;
    }

    method NewLeaf(key: int, value: V, parent: Node<V>, ghost p: Ctx<V>) returns (z: Node<V>, ghost t: Shape<V>)
      requires Valid() && shape == Plug(p, Leaf) && p.In? && parent == p.e.ref && parent in Repr && Bracket(p, key)
      modifies this`shape, this`Repr, parent`left, parent`right
      ensures fresh(z) && Repr == old(Repr) + {z}
      ensures At(z, p, t) && Climbing(p, t) && Sorted(Flat(shape)) && |Flat(shape)| == old(|Flat(shape)|) + 1
      ensures Contents() == old(Contents())[key := value]
    {
      z := new Node(key, value, Red);
      t := Tree.Node(Leaf, Entry(z, key, value), Red, Leaf);
      AttachSpec(p, t.e);
      Attach(z, parent, p, t);
    }

    method Attach(z: Node<V>, parent: Node<V>, ghost p: Ctx<V>, ghost t: Shape<V>)
      requires Wired() && shape == Plug(p, Leaf) && p.In? && parent == p.e.ref && Bracket(p, z.key)
      requires z !in Repr && z.left == null && z.right == null
      requires t.Node? && t.left.Leaf? && t.right.Leaf? && t.color == z.color
      requires t.e.ref == z && t.e.key == z.key && t.e.value == z.value
      modifies this`shape, this`Repr, z`parent, parent`left, parent`right
      ensures At(z, p, t) && Repr == old(Repr) + {z}
    {
      ghost var m := Snap(Repr);
      Here(p, Leaf);
      BracketSide(p, z.key);
      z.parent := parent;
      if z.key < parent.key {
        parent.left := z;
      } else {
        parent.right := z;
      }
      Repr := Repr + {z};
      AttachInPlace(m, Snap(Repr), p, t, root, null, null);
      shape := Plug(p, t);
    }

    method Remove(key: int) returns (removed: bool)
      requires Valid()
      modifies this, Repr
      ensures Valid() && Repr == old(Repr)
      ensures Contents() == old(Contents()) - {key}
      ensures removed <==> key in old(Contents())
    {
      var node, p, t := FindNode(key);
      if node == null { return false; }
      Here(p, t);
      RemoveNode(node, p, t);
      return true;
    }

    method RemoveNode(node: Node<V>, ghost p: Ctx<V>, ghost t: Shape<V>)
      requires Valid() && At(node, p, t)
      modifies this`root, this`count, this`shape, Repr
      ensures Valid() && Contents() == old(Contents()) - {node.key}
    {
      hide Linked, Above, Flat, ToMap, Sorted, RedBlack, Deficient;
      var x, parent, originalColor, p', t' := Unlink(node, p, t);
      RepairAfterUnlink(x, parent, originalColor, p', t');
      count := count - 1;
    }

    method RepairAfterUnlink(x: Node?<V>, parent: Node?<V>, originalColor: Color, ghost p: Ctx<V>, ghost t: Shape<V>)
      requires At(x, p, t) && parent == ParentRef(p, null)
      requires if originalColor.Black? then Deficient(p, t) else RedBlack(shape)
      modifies this`root, this`shape, Repr
      ensures Wired() && RedBlack(shape) && Flat(shape) == old(Flat(shape))
    {
      if originalColor == Black {
        Here(p, t);
        if x == root {
          DeleteDone(p, t);
          if x != null {
            Recolor(x, Black, p, t);
          }
        } else if parent != null {
          FixDelete(x, parent, p, t);
        } else {
          assert false;
        }
      }
    }

    /** Takes `node` out of the links; if a black node went, the subtree at the end of `p'` is one black short. */
    method Unlink(node: Node<V>, ghost p: Ctx<V>, ghost t: Shape<V>)
      returns (x: Node?<V>, parent: Node?<V>, originalColor: Color, ghost p': Ctx<V>, ghost t': Shape<V>)
      requires Valid() && At(node, p, t)
      modifies this`root, this`shape, Repr
      ensures At(x, p', t') && parent == ParentRef(p', null)
      ensures if originalColor.Black? then Deficient(p', t') else RedBlack(shape)
      ensures Sorted(Flat(shape)) && |Flat(shape)| == |old(Flat(shape))| - 1
      ensures Contents() == old(Contents()) - {node.key}
    {
      Here(p, t);
      HereKid(p, t, Lo);
      HereKid(p, t, Hi);
      if node.left == null {
        x, parent, originalColor := node.right, node.parent, node.color;
        p', t' := p, t.right;
        CutSpec(p, t, Hi);
        CutNode(node, node.right, p, t, Hi);
      } else if node.right == null {
        x, parent, originalColor := node.left, node.parent, node.color;
        p', t' := p, t.left;
        CutSpec(p, t, Lo);
        CutNode(node, node.left, p, t, Lo);
      } else {
        ghost var q, y;
        x, parent, originalColor, q, y := SpliceSuccessor(node, p, t);
        p', t' := Append(q, In(Hi, y.e, t.color, t.left, p)), y.right;
        SpliceSpec(p, t, q, y);
      }
    }

    method Transplant(u: Node<V>, v: Node?<V>, ghost p: Ctx<V>, ghost x: Shape<V>)
      requires u.parent == ParentRef(p, null)
      requires p.In? ==> p.e.ref in Repr && p.e.ref != null && (p.side.Lo? <==> p.e.ref.left == u)
      requires v == RootRef(x, null) && (x.Node? ==> v != null && v in Repr)
      requires p.In? ==> p.e.ref != u && p.e.ref != v
      modifies this`root, Repr
      ensures Grafted(old(Snap(Repr)), Snap(Repr), p, x, null, null)
      ensures root == if p.Top? then v else old(root)
    {
      var parent := u.parent;
      if parent == null {
        root := v;
      } else if u.IsLeftChild() {
        parent.left := v;
      } else {
        parent.right := v;
      }
      if v != null {
        v.parent := u.parent;
      }
    }

    method CutNode(node: Node<V>, child: Node?<V>, ghost p: Ctx<V>, ghost t: Shape<V>, ghost s: Side)
      requires At(node, p, t) && t.Node? && t.Kid(s.Flip()).Leaf? && child == RootRef(t.Kid(s), null)
      modifies this`root, this`shape, Repr
      ensures At(child, p, t.Kid(s))
    {
      ghost var m := Snap(Repr);
      Here(p, t);
      HereKid(p, t, s);
      Transplant(node, child, p, t.Kid(s));
      CutInPlace(m, Snap(Repr), p, t, s, old(root), null, null);
      shape := Plug(p, t.Kid(s));
    }

    method Minimum(n: Node<V>, ghost p: Ctx<V>, ghost t: Shape<V>)
      returns (node: Node<V>, ghost q: Ctx<V>, ghost y: Shape<V>)
      requires At(n, p, t)
      ensures Leftmost(q) && t == Plug(q, y) && RootRef(y, null) == node && y.Node? && y.left.Leaf?
    {
      node, q, y := n, Top, t;
      Here(p, t);
      while node.left != null
        invariant Leftmost(q) && t == Plug(q, y) && y.Node? && y.e.ref == node
        invariant node.left == RootRef(y.left, null)
        decreases y
      {
        node := node.left;
        q, y := In(Lo, y.e, y.color, y.right, q), y.left;
        AppendPlug(q, p, y);
        Here(Append(q, p), y);
      }
      AppendPlug(In(Lo, y.e, y.color, y.right, q), p, y.left);
      Here(Append(In(Lo, y.e, y.color, y.right, q), p), y.left);
    }

    method SpliceSuccessor(node: Node<V>, ghost p: Ctx<V>, ghost t: Shape<V>)
      returns (x: Node?<V>, parent: Node?<V>, originalColor: Color, ghost q: Ctx<V>, ghost y: Shape<V>)
      requires At(node, p, t) && t.Node? && t.left.Node? && t.right.Node?
      modifies this`root, this`shape, Repr
      ensures Leftmost(q) && t.right == Plug(q, y) && y.Node? && y.left.Leaf? && originalColor == y.color
      ensures var p' := Append(q, In(Hi, y.e, t.color, t.left, p));
              At(x, p', y.right) && parent == ParentRef(p', null)
    {
      ghost var above := In(Hi, t.e, t.color, t.left, p);
      Here(p, t);
      HereKid(p, t, Hi);
      var successor;
      successor, q, y := Minimum(node.right, above, t.right);
      SuccessorAt(p, t, q, y);
      originalColor := successor.color;
      x := successor.right;
      parent := successor.parent;
      if successor.parent != node {
        DetachSuccessor(successor, node, p, t, q, y);
      } else {
        parent := successor;
        VacateDirect(Snap(Repr), p, t, root, null, null);
      }
      TakePlace(node, successor, p, Tree.Node(t.left, y.e, t.color, Plug(q, y.right)));
      AppendPlug(q, In(Hi, y.e, t.color, t.left, p), y.right);
    }

    lemma {:induction false} SuccessorAt(p: Ctx<V>, t: Shape<V>, q: Ctx<V>, y: Shape<V>)
      requires Wired() && shape == Plug(p, t) && t.Node? && t.right == Plug(q, y) && y.Node?
      ensures y.e.ref != null && y.e.ref in Repr && y.e.ref.color == y.color && y.e.ref.right == RootRef(y.right, null)
      ensures y.e.ref.parent == (if q.Top? then t.e.ref else q.e.ref)
      ensures q.In? ==> q.e.ref != t.e.ref
    {
      var above := In(Hi, t.e, t.color, t.left, p);
      AppendPlug(q, above, y);
      Here(Append(q, above), y);
      SuccessorParent(p, t, q, y);
    }

    /** The successor leaves its place in the right subtree and takes that subtree as its own. */
    method DetachSuccessor(successor: Node<V>, node: Node<V>, ghost p: Ctx<V>, ghost t: Shape<V>,
                           ghost q: Ctx<V>, ghost y: Shape<V>)
      requires At(node, p, t) && t.Node? && t.right == Plug(q, y) && q.In?
      requires y.Node? && y.left.Leaf? && successor == y.e.ref
      modifies this`root, Repr
      ensures Vacating(Snap(Repr), p, Tree.Node(t.left, y.e, t.color, Plug(q, y.right)), node, null, null)
      ensures root == old(root)
    {
      ghost var t1 := Tree.Node(t.left, t.e, t.color, Plug(q, y.right));
      CutSuccessor(successor, p, t, q, y);
      ghost var m1 := Snap(Repr);
      PlugNode(q, y.right);
      Look(m1, p, t1, root, null, null);
      LookKid(m1, p, t1, Hi, root, null, null);
      assert t1.right.e.ref in Refs(t1.right) && Refs(t1) <= Refs(Plug(p, t1));
      successor.right := node.right;
      if successor.right != null {
        successor.right.parent := successor;
      }
      VacateRemote(m1, Snap(Repr), p, t1, y.e, root, null, null);
    }

    method CutSuccessor(successor: Node<V>, ghost p: Ctx<V>, ghost t: Shape<V>, ghost q: Ctx<V>, ghost y: Shape<V>)
      requires Wired() && shape == Plug(p, t) && t.Node? && t.right == Plug(q, y) && q.In?
      requires y.Node? && y.left.Leaf? && successor == y.e.ref
      modifies this`root, Repr
      ensures var t1 := Tree.Node(t.left, t.e, t.color, Plug(q, y.right));
              InPlace(Snap(Repr), Plug(p, t1), root, null, null) && successor !in Refs(Plug(p, t1))
      ensures successor in Repr && successor.key == y.e.key && successor.value == y.e.value && root == old(root)
    {
      ghost var above := In(Hi, t.e, t.color, t.left, p);
      ghost var pq := Append(q, above);
      ghost var m := Snap(Repr);
      AppendPlug(q, above, y);
      AppendPlug(q, above, y.right);
      Here(pq, y);
      HereKid(pq, y, Hi);
      Transplant(successor, successor.right, pq, y.right);
      assert Snap(Repr)[successor] == m[successor];
      CutInPlace(m, Snap(Repr), pq, y, Hi, root, null, null);
    }

    method TakePlace(node: Node<V>, successor: Node<V>, ghost p: Ctx<V>, ghost t: Shape<V>)
      requires Vacating(Snap(Repr), p, t, node, null, null) && t.e.ref == successor
      requires root == TopRef(p, node)
      modifies this`root, this`shape, Repr
      ensures Wired() && shape == Plug(p, t)
    {
      hide Linked, Above;
      ghost var m := Snap(Repr);
      BeforeTakeOver(m, p, t, node, null, null);
      MoveInto(node, successor, p, t);
      TakeOver(m, Snap(Repr), p, t, node, null, null);
      shape := Plug(p, t);
    }

    method MoveInto(node: Node<V>, successor: Node<V>, ghost p: Ctx<V>, ghost t: Shape<V>)
      requires t.Node? && successor == t.e.ref && successor in Repr && node in Repr && node != successor
      requires successor.key == t.e.key && successor.value == t.e.value && successor.right == RootRef(t.right, null)
      requires node.left == RootRef(t.left, null) && node.parent == ParentRef(p, null) && node.color == t.color
      requires p.In? ==>
        p.e.ref in Repr && p.e.ref != null && p.e.ref !in {node, successor} && (p.side.Lo? <==> p.e.ref.left == node)
      requires t.left.Node? ==>
        node.left != null && node.left in Repr && node.left !in {node, successor, ParentRef(p, null)}
      modifies this`root, Repr
      ensures TookOver(old(Snap(Repr)), Snap(Repr), p, t, null, null)
      ensures root == if p.Top? then successor else old(root)
    {
      ghost var m := Snap(Repr);
      Transplant(node, successor, p, Tree.Node(Leaf, t.e, t.color, Leaf));
      assert Snap(Repr)[node] == m[node];
      assert Snap(Repr)[successor] == m[successor].(parent := ParentRef(p, null));
      successor.left := node.left;
      if successor.left != null {
        successor.left.parent := successor;
      }
      successor.color := node.color;
    }

    // ---------- Read-only operations ----------

    method Find(key: int) returns (r: Option<V>)
      requires Valid()
      ensures r == if key in Contents() then Some(Contents()[key]) else None
    {
      var n, _, _ := FindNode(key);
      r := if n != null then Some(n.value) else None;
    }

    method ValidateRb(node: Node?<V>, blackCount: nat, pathBlackCount: int, ghost p: Ctx<V>, ghost t: Shape<V>)
      returns (ok: bool, path: int)
      requires At(node, p, t) && pathBlackCount >= -1
      ensures var expected := if pathBlackCount == -1 then blackCount + BlackHeight(t) else pathBlackCount;
              (ok <==> NoRedRed(t) && Uniform(t, blackCount, expected)) && (ok ==> path == expected)
      decreases t
    {
      path := pathBlackCount;
      Here(p, t);
      if node == null {
        if path == -1 {
          path := blackCount;
        }
        return blackCount == path, path;
      }
      ghost var pl, pr := In(Lo, t.e, t.color, t.right, p), In(Hi, t.e, t.color, t.left, p);
      if node.color == Red {
        KidColors(p, t);
        if (node.left != null && node.left.color == Red) || (node.right != null && node.right.color == Red) {
          return false, path;
        }
      }
      var newBlackCount := blackCount + if node.color == Black then 1 else 0;
      ok, path := ValidateRb(node.left, newBlackCount, path, pl, t.left);
      if ok {
        ok, path := ValidateRb(node.right, newBlackCount, path, pr, t.right);
      }
    }

    /** Decides the colour and black-count rules exactly. */
    method Validate() returns (ok: bool)
      requires Wired()
      ensures ok <==> RedBlack(shape)
    {
      Here(Top, shape);
      if root == null { return true; }
      if root.color != Black { return false; }
      var path;
      ok, path := ValidateRb(root, 0, -1, Top, shape);
      UniformIsBalanced(shape, 0, BlackHeight(shape));
    }

    method NodeHeight(node: Node?<V>, ghost p: Ctx<V>, ghost t: Shape<V>) returns (h: nat)
      requires At(node, p, t)
      ensures h == Height(t)
      decreases t
    {
      Here(p, t);
      if node == null { return 0; }
      var l := NodeHeight(node.left, In(Lo, t.e, t.color, t.right, p), t.left);
      var r := NodeHeight(node.right, In(Hi, t.e, t.color, t.left, p), t.right);
      h := 1 + if l >= r then l else r;
    }

    method GetHeight() returns (h: nat)
      requires Valid()
      ensures h == Height(shape) && h <= 2 * Log2(count + 1) && (count == 0 ==> h == 0)
      ensures forall p, u :: Plug(p, u) == shape && u.Node? ==> Depth(p) < h
      ensures count > 0 ==> exists p, u :: Plug(p, u) == shape && u.Node? && Depth(p) + 1 == h
    {
      h := NodeHeight(root, Top, shape);
      HeightBound(shape);
      HeightIsDepth(shape);
    }

    method InorderTraversal(node: Node?<V>, acc: seq<(int, V)>, ghost p: Ctx<V>, ghost t: Shape<V>)
      returns (result: seq<(int, V)>)
      requires At(node, p, t)
      ensures result == acc + Pairs(Flat(t))
      decreases t
    {
      hide Linked, Above;
      Here(p, t);
      if node == null { return acc; }
      result := InorderTraversal(node.left, acc, In(Lo, t.e, t.color, t.right, p), t.left);
      result := result + [(node.key, node.value)];
      result := InorderTraversal(node.right, result, In(Hi, t.e, t.color, t.left, p), t.right);
      PairsSplit(Flat(t.left), t.e, Flat(t.right));
      Regroup(acc, Pairs(Flat(t.left)), [(node.key, node.value)], Pairs(Flat(t.right)), []);
    }

    /** All bindings, by increasing key. */
    method Inorder() returns (result: seq<(int, V)>)
      requires Valid()
      ensures |result| == |Contents()| == count
      ensures forall i, j :: 0 <= i < j < |result| ==> result[i].0 < result[j].0
      ensures forall i :: 0 <= i < |result| ==> result[i].0 in Contents() && Contents()[result[i].0] == result[i].1
    {
      result := InorderTraversal(root, [], Top, shape);
      MapSize(Flat(shape));
      forall i | 0 <= i < |result|
        ensures result[i].0 in Contents() && Contents()[result[i].0] == result[i].1
      {
        MapAt(Flat(shape), i);
      }
    }
  }

  // ---------- Whole runs ----------

  datatype Op<V> = Put(key: int, value: V) | Del(key: int)

  function Perform<V>(m: map<int, V>, op: Op<V>): map<int, V> {
    match op
    case Put(k, v) => m[k := v]
    case Del(k) => m - {k}
  }

  /** The answer of an operation: a new key, or a key that was there. */
  predicate Answer<V>(m: map<int, V>, op: Op<V>) {
    match op
    case Put(k, _) => k !in m
    case Del(k) => k in m
  }

  function Outcome<V>(m: map<int, V>, ops: seq<Op<V>>): map<int, V>
    decreases |ops|
  {
    if ops == [] then m else Outcome(Perform(m, ops[0]), ops[1..])
  }

  function Answers<V>(m: map<int, V>, ops: seq<Op<V>>): seq<bool>
    decreases |ops|
  {
    if ops == [] then [] else [Answer(m, ops[0])] + Answers(Perform(m, ops[0]), ops[1..])
  }

  /** Any run of inserts and removes on a new tree: every answer, the contents, and a passing check after it. */
  method Replay<V>(ops: seq<Op<V>>) returns (answers: seq<bool>, check: bool, height: nat, listing: seq<(int, V)>)
    ensures answers == Answers(map[], ops)
    ensures check && height <= 2 * Log2(|Outcome(map[], ops)| + 1)
    ensures |listing| == |Outcome(map[], ops)|
    ensures forall i, j :: 0 <= i < j < |listing| ==> listing[i].0 < listing[j].0
    ensures forall i :: 0 <= i < |listing| ==>
              listing[i].0 in Outcome(map[], ops) && Outcome(map[], ops)[listing[i].0] == listing[i].1
  {
    hide *;
    var tree := new RedBlackTree<V>();
    answers := [];
    ghost var m: map<int, V> := map[];
    assert ops[0..] == ops && [] + Answers(m, ops) == Answers(m, ops);
    for n := 0 to |ops|
      invariant tree.Valid() && fresh(tree) && fresh(tree.Repr) && tree.Contents() == m
      invariant answers + Answers(m, ops[n..]) == Answers(map[], ops)
      invariant Outcome(m, ops[n..]) == Outcome(map[], ops)
    {
      RunNext(m, ops, n, answers);
      var a := Do(tree, ops[n]);
      answers := answers + [a];
      m := Perform(m, ops[n]);
    }
    RunDone(m, ops, answers);
    check, height, listing := Inspect(tree);
  }

  /** One more operation of a run. */
  lemma RunNext<V>(m: map<int, V>, ops: seq<Op<V>>, n: nat, answers: seq<bool>)
    requires n < |ops|
    ensures var m' := Perform(m, ops[n]);
            Outcome(m, ops[n..]) == Outcome(m', ops[n + 1..]) &&
            answers + Answers(m, ops[n..]) == answers + [Answer(m, ops[n])] + Answers(m', ops[n + 1..])
  {
    assert ops[n..][0] == ops[n] && ops[n..][1..] == ops[n + 1..];
  }

  lemma RunDone<V>(m: map<int, V>, ops: seq<Op<V>>, answers: seq<bool>)
    ensures Outcome(m, ops[|ops|..]) == m && answers + Answers(m, ops[|ops|..]) == answers
  {
  }

  method Do<V>(tree: RedBlackTree<V>, op: Op<V>) returns (answer: bool)
    requires tree.Valid()
    modifies tree, tree.Repr
    ensures tree.Valid() && fresh(tree.Repr - old(tree.Repr))
    ensures tree.Contents() == Perform(old(tree.Contents()), op)
    ensures answer == Answer(old(tree.Contents()), op)
  {
    match op
    case Put(k, v) => answer := tree.Insert(k, v);
    case Del(k) => answer := tree.Remove(k);
  }

  method Inspect<V>(tree: RedBlackTree<V>) returns (check: bool, height: nat, listing: seq<(int, V)>)
    requires tree.Valid()
    ensures check && height <= 2 * Log2(|tree.Contents()| + 1)
    ensures |listing| == |tree.Contents()|
    ensures forall i, j :: 0 <= i < j < |listing| ==> listing[i].0 < listing[j].0
    ensures forall i :: 0 <= i < |listing| ==>
              listing[i].0 in tree.Contents() && tree.Contents()[listing[i].0] == listing[i].1
  {
    check := tree.Validate();
    height := tree.GetHeight();
    listing := tree.Inorder();
  }
}
