/**
 The finite map that a sorted shape stands for, and what the edits of a sorted entry
 sequence do to it.
 */
module RBContents {
  import opened Common
  import opened RBShape

  ghost function ToMap<N, V>(s: seq<Entry<N, V>>): map<int, V> {
    if s == [] then map[] else map[s[0].key := s[0].value] + ToMap(s[1..])
  }

  lemma {:induction false} ToMapConcat<N, V>(a: seq<Entry<N, V>>, b: seq<Entry<N, V>>)
    ensures ToMap(a + b) == ToMap(a) + ToMap(b)
  {
    if a == [] {
      assert a + b == b;
    } else {
      ToMapConcat(a[1..], b);
      assert (a + b)[1..] == a[1..] + b;
    }
  }

  lemma {:induction false} ToMapKeys<N, V>(s: seq<Entry<N, V>>, k: int)
    ensures k in ToMap(s) <==> exists i :: 0 <= i < |s| && s[i].key == k
  {
    if s != [] {
      ToMapKeys(s[1..], k);
      if i :| 0 <= i < |s| && s[i].key == k {
        if i > 0 {
          assert s[1..][i - 1] == s[i];
        }
      }
    }
  }

  /** All keys of `s` lie on one side of `k`: below it for `Lo`, above it for `Hi`. */
  ghost predicate Beside<N, V>(s: seq<Entry<N, V>>, k: int, side: Side) {
    forall i :: 0 <= i < |s| ==> if side.Lo? then s[i].key < k else k < s[i].key
  }

  lemma SortedSplit<N, V>(b: seq<Entry<N, V>>, e: Entry<N, V>, a: seq<Entry<N, V>>)
    ensures Sorted(b + [e] + a) <==> Sorted(b) && Sorted(a) && Beside(b, e.key, Lo) && Beside(a, e.key, Hi)
  {
    var s := b + [e] + a;
    assert s[|b|] == e;
    assert forall i :: 0 <= i < |b| ==> s[i] == b[i];
    assert forall i :: 0 <= i < |a| ==> s[|b| + 1 + i] == a[i];
    if Sorted(s) {
      forall i, j | 0 <= i < j < |b| ensures b[i].key < b[j].key { assert s[i] == b[i] && s[j] == b[j]; }
      forall i, j | 0 <= i < j < |a| ensures a[i].key < a[j].key {
        assert s[|b| + 1 + i] == a[i] && s[|b| + 1 + j] == a[j];
      }
    }
  }

  /** One entry more, or one changed: the map gains or rebinds its key. */
  lemma MapWith<N, V>(b: seq<Entry<N, V>>, e: Entry<N, V>, a: seq<Entry<N, V>>)
    requires Beside(b, e.key, Lo) && Beside(a, e.key, Hi)
    ensures ToMap(b + [e] + a) == ToMap(b + a)[e.key := e.value]
    ensures e.key !in ToMap(b + a)
  {
    ToMapConcat(b + [e], a);
    ToMapConcat(b, [e]);
    ToMapConcat(b, a);
    ToMapKeys(b, e.key);
    ToMapKeys(a, e.key);
    assert ToMap([e]) == map[e.key := e.value];
    Rebind(ToMap(b), ToMap(a), e.key, e.value);
  }

  lemma Rebind<V>(b: map<int, V>, a: map<int, V>, k: int, v: V)
    requires k !in a
    ensures b + map[k := v] + a == (b + a)[k := v]
  {
  }

  lemma {:induction false} MapSize<N, V>(s: seq<Entry<N, V>>)
    requires Sorted(s)
    ensures |ToMap(s)| == |s|
  {
    if s != [] {
      var t := s[1..];
      assert Sorted(t);
      MapSize(t);
      ToMapKeys(t, s[0].key);
      assert ToMap(s) == ToMap(t)[s[0].key := s[0].value];
      assert ToMap(s).Keys == ToMap(t).Keys + {s[0].key};
    }
  }

  // ---------- Searching ----------

  /** Everything before the hole is below `k`, everything after it above. */
  ghost predicate Bracket<N, V>(p: Path<N, V>, k: int) {
    Beside(Before(p), k, Lo) && Beside(After(p), k, Hi)
  }

  lemma Descend<N, V>(p: Path<N, V>, t: Tree<N, V>, k: int, s: Side)
    requires t.Node? && Sorted(Flat(Plug(p, t))) && Bracket(p, k)
    requires if s.Lo? then k < t.e.key else t.e.key < k
    ensures Bracket(In(s, t.e, t.color, t.Kid(s.Flip()), p), k)
  {
    KidsBeside(p, t);
    if s.Lo? {
      BesideThree([t.e], Flat(t.right), After(p), k, Hi);
    } else {
      BesideThree(Before(p), Flat(t.left), [t.e], k, Lo);
    }
  }

  lemma KidsBeside<N, V>(p: Path<N, V>, t: Tree<N, V>)
    requires t.Node? && Sorted(Flat(Plug(p, t)))
    ensures Beside(Flat(t.left), t.e.key, Lo) && Beside(Flat(t.right), t.e.key, Hi)
  {
    Parts(p, t);
    SortedSplit(Before(p) + Flat(t.left), t.e, Flat(t.right) + After(p));
    Sides(Before(p), Flat(t.left), t.e.key, Lo);
    Sides(Flat(t.right), After(p), t.e.key, Hi);
  }

  lemma BesideThree<N, V>(a: seq<Entry<N, V>>, b: seq<Entry<N, V>>, c: seq<Entry<N, V>>, k: int, s: Side)
    requires Beside(a, k, s) && Beside(b, k, s) && Beside(c, k, s)
    ensures Beside(a + b + c, k, s)
  {
  }

  /** The side of the hole can be read off the key of the node above it. */
  lemma BracketSide<N, V>(p: Path<N, V>, k: int)
    requires p.In? && Bracket(p, k)
    ensures if p.side.Lo? then k < p.e.key else p.e.key < k
  {
    if p.side.Lo? {
      assert After(p)[0] == p.e;
    } else {
      assert Before(p)[|Before(p)| - 1] == p.e;
    }
  }

  lemma Sides<N, V>(a: seq<Entry<N, V>>, b: seq<Entry<N, V>>, k: int, s: Side)
    requires Beside(a + b, k, s)
    ensures Beside(a, k, s) && Beside(b, k, s)
  {
    assert forall i :: 0 <= i < |a| ==> (a + b)[i] == a[i];
    assert forall i :: 0 <= i < |b| ==> (a + b)[|a| + i] == b[i];
  }

  lemma Missing<N, V>(p: Path<N, V>, k: int)
    requires Bracket(p, k)
    ensures k !in ToMap(Flat(Plug(p, Leaf)))
  {
    FlatPlug<N, V>(p, Leaf);
    ToMapKeys(Before(p) + [] + After(p), k);
  }

  lemma Found<N, V>(p: Path<N, V>, t: Tree<N, V>)
    requires t.Node? && Sorted(Flat(Plug(p, t)))
    ensures t.e.key in ToMap(Flat(Plug(p, t))) && ToMap(Flat(Plug(p, t)))[t.e.key] == t.e.value
  {
    Parts(p, t);
    var b, a := Before(p) + Flat(t.left), Flat(t.right) + After(p);
    SortedSplit(b, t.e, a);
    MapWith(b, t.e, a);
  }

  lemma Parts<N, V>(p: Path<N, V>, t: Tree<N, V>)
    requires t.Node?
    ensures Flat(Plug(p, t)) == (Before(p) + Flat(t.left)) + [t.e] + (Flat(t.right) + After(p))
  {
    FlatPlug(p, t);
    Regroup(Before(p), Flat(t.left), [t.e], Flat(t.right), After(p));
  }

  /** Rebinding the key of one node. */
  lemma Rebound<N, V>(p: Path<N, V>, t: Tree<N, V>, t': Tree<N, V>)
    requires t.Node? && t'.Node? && Sorted(Flat(Plug(p, t)))
    requires t'.left == t.left && t'.right == t.right && t'.e.key == t.e.key
    ensures Sorted(Flat(Plug(p, t'))) && |Flat(Plug(p, t'))| == |Flat(Plug(p, t))|
    ensures ToMap(Flat(Plug(p, t'))) == ToMap(Flat(Plug(p, t)))[t'.e.key := t'.e.value]
  {
    hide Flat, Before, After, Plug, ToMap, Sorted;
    Parts(p, t);
    Parts(p, t');
    var b, a := Before(p) + Flat(t.left), Flat(t.right) + After(p);
    SortedSplit(b, t.e, a);
    SortedSplit(b, t'.e, a);
    MapWith(b, t.e, a);
    MapWith(b, t'.e, a);
  }

  /** A new node at a missing leaf. */
  lemma {:induction false} Extended<N, V>(p: Path<N, V>, t: Tree<N, V>)
    requires t.Node? && t.left.Leaf? && t.right.Leaf? && Bracket(p, t.e.key) && Sorted(Flat(Plug(p, Leaf)))
    ensures Sorted(Flat(Plug(p, t))) && |Flat(Plug(p, t))| == |Flat(Plug(p, Leaf))| + 1
    ensures ToMap(Flat(Plug(p, t))) == ToMap(Flat(Plug(p, Leaf)))[t.e.key := t.e.value]
  {
    FlatPlug(p, t);
    FlatPlug<N, V>(p, Leaf);
    var b, a := Before(p), After(p);
    assert b + [] + a == b + a && Flat(t) == [t.e];
    SortedConcat(b, a);
    SortedSplit(b, t.e, a);
    MapWith(b, t.e, a);
  }

  lemma SortedConcat<N, V>(b: seq<Entry<N, V>>, a: seq<Entry<N, V>>)
    requires Sorted(b + a)
    ensures Sorted(b) && Sorted(a)
  {
    var s := b + a;
    forall i, j | 0 <= i < j < |b| ensures b[i].key < b[j].key { assert s[i] == b[i] && s[j] == b[j]; }
    forall i, j | 0 <= i < j < |a| ensures a[i].key < a[j].key {
      assert s[|b| + i] == a[i] && s[|b| + j] == a[j];
    }
  }

  /** One entry less: the map loses its key. */
  lemma Dropped<N, V>(b: seq<Entry<N, V>>, e: Entry<N, V>, a: seq<Entry<N, V>>)
    requires Sorted(b + [e] + a)
    ensures Sorted(b + a) && ToMap(b + a) == ToMap(b + [e] + a) - {e.key}
  {
    SortedSplit(b, e, a);
    MapWith(b, e, a);
    forall i, j | 0 <= i < j < |b + a| ensures (b + a)[i].key < (b + a)[j].key {
      if i < |b| <= j {
        assert (b + a)[j] == a[j - |b|];
      }
    }
  }

  lemma CutContents<N, V>(p: Path<N, V>, t: Tree<N, V>, s: Side)
    requires t.Node? && t.Kid(s.Flip()).Leaf? && Sorted(Flat(Plug(p, t)))
    ensures Sorted(Flat(Plug(p, t.Kid(s)))) && |Flat(Plug(p, t.Kid(s)))| == |Flat(Plug(p, t))| - 1
    ensures ToMap(Flat(Plug(p, t.Kid(s)))) == ToMap(Flat(Plug(p, t))) - {t.e.key}
  {
    Parts(p, t);
    FlatPlug(p, t.Kid(s));
    var b, a := Before(p) + Flat(t.left), Flat(t.right) + After(p);
    Dropped(b, t.e, a);
    assert Before(p) + Flat(t.Kid(s)) + After(p) == b + a;
  }

  lemma SpliceContents<N, V>(p: Path<N, V>, t: Tree<N, V>, q: Path<N, V>, y: Tree<N, V>)
    requires t.Node? && y.Node? && y.left.Leaf? && Leftmost(q) && t.right == Plug(q, y) && Sorted(Flat(Plug(p, t)))
    ensures var s' := Flat(Plug(Append(q, In(Hi, y.e, t.color, t.left, p)), y.right));
            Sorted(s') && |s'| == |Flat(Plug(p, t))| - 1 && ToMap(s') == ToMap(Flat(Plug(p, t))) - {t.e.key}
  {
    var b' := In(Hi, y.e, t.color, t.left, p);
    Parts(p, t);
    FlatPlug(q, y);
    LeftmostBefore(q);
    AppendFlat(q, b');
    FlatPlug(Append(q, b'), y.right);
    var b := Before(p) + Flat(t.left);
    Dropped(b, t.e, Flat(t.right) + After(p));
    Shift(b, y.e, Flat(y.right), After(q), After(p));
  }

  lemma {:induction false} LeftmostBefore<N, V>(q: Path<N, V>)
    requires Leftmost(q)
    ensures Before(q) == []
  {
    if q.In? {
      LeftmostBefore(q.up);
    }
  }

  lemma Shift<T>(b: seq<T>, e: T, x: seq<T>, a: seq<T>, c: seq<T>)
    ensures (b + [e]) + x + (a + c) == b + (([] + ([] + [e] + x) + a) + c)
  {
  }

  ghost function Pairs<N, V>(s: seq<Entry<N, V>>): (r: seq<(int, V)>)
    ensures |r| == |s| && forall i :: 0 <= i < |s| ==> r[i] == (s[i].key, s[i].value)
  {
    seq(|s|, i requires 0 <= i < |s| => (s[i].key, s[i].value))
  }

  lemma PairsSplit<N, V>(a: seq<Entry<N, V>>, e: Entry<N, V>, b: seq<Entry<N, V>>)
    ensures Pairs(a + [e] + b) == Pairs(a) + [(e.key, e.value)] + Pairs(b)
  {
  }

  lemma MapAt<N, V>(s: seq<Entry<N, V>>, i: nat)
    requires Sorted(s) && i < |s|
    ensures s[i].key in ToMap(s) && ToMap(s)[s[i].key] == s[i].value
  {
    var b, a := s[..i], s[i + 1..];
    assert s == b + [s[i]] + a;
    SortedSplit(b, s[i], a);
    MapWith(b, s[i], a);
  }
}
