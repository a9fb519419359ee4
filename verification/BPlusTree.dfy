/**
 The B+ tree with its leaf nodes, its internal root and the links between the leaves,
 proved against the layouts.
 */
module BPlusTree {
  import opened Common
  import opened BPlusLeaves
  import opened BPlusSeparators

  /** Where a sorted list of keys stops being smaller than `key`. */
  function LowerBound(keys: seq<int>, key: int): (i: nat)
    ensures i <= |keys| && (i < |keys| ==> keys[i] >= key)
    ensures forall j :: 0 <= j < i ==> keys[j] < key
  {
    if keys == [] || keys[0] >= key then 0 else 1 + LowerBound(keys[1..], key)
  }

  class LeafNode<V> {
    var keys: seq<int>
    var values: seq<V>
    var next: LeafNode?<V>

    ghost predicate Shows(row: seq<Entry<V>>)
      reads this
    {
      |keys| == |values| == |row| && forall i :: 0 <= i < |row| ==> row[i] == Entry(keys[i], values[i])
    }

    constructor ()
      ensures Shows([]) && next == null
    {
      keys, values, next := [], [], null;
    }

    method InsertKey(key: int, value: V, ghost row: seq<Entry<V>>)
      requires Shows(row) && Sorted(row)
      modifies this`keys, this`values
      ensures Shows(Put(row, Entry(key, value)))
    {
      hide Put, Place, LowerBound;
      var idx := LowerBound(keys, key);
      assert idx == Place(row, key);
      PutIndex(row, Entry(key, value));
      keys := keys[..idx] + [key] + keys[idx..];
      values := values[..idx] + [value] + values[idx..];
    }

    method Contains(key: int, ghost row: seq<Entry<V>>) returns (found: bool)
      requires Shows(row) && Sorted(row)
      ensures found == Holds(row, key)
    {
      var idx := LowerBound(keys, key);
      assert idx == Place(row, key);
      found := idx < |keys| && keys[idx] == key;
    }

    method RemoveKey(key: int, ghost row: seq<Entry<V>>)
      requires Shows(row) && Sorted(row)
      modifies this`keys, this`values
      ensures Shows(if Holds(row, key) then Drop(row, key) else row)
    {
      hide Drop, Place, LowerBound;
      var idx := LowerBound(keys, key);
      assert idx == Place(row, key);
      if idx < |keys| && keys[idx] == key {
        DropIndex(row, key);
        keys := keys[..idx] + keys[idx + 1..];
        values := values[..idx] + values[idx + 1..];
      }
    }

    method Find(key: int, ghost row: seq<Entry<V>>) returns (value: Option<V>)
      requires Shows(row) && Sorted(row)
      ensures value == if Holds(row, key) then Some(row[Place(row, key)].value) else None
    {
      var idx := LowerBound(keys, key);
      assert idx == Place(row, key);
      value := if idx < |keys| && keys[idx] == key then Some(values[idx]) else None;
    }

    method Split(ghost row: seq<Entry<V>>) returns (right: LeafNode<V>)
      requires Shows(row)
      modifies this
      ensures fresh(right) && Shows(row[..|row| / 2]) && right.Shows(row[|row| / 2..])
      ensures right.next == old(next) && next == right
    {
      right := new LeafNode();
      var mid := |keys| / 2;
      right.keys := keys[mid..];
      right.values := values[mid..];
      keys := keys[..mid];
      values := values[..mid];
      right.next := next;
      next := right;
    }

    /** The pass over the keys of one leaf; `stop` when a key is past the range. */
    method Scan(start: int, end: int, found: seq<V>, ghost row: seq<Entry<V>>, ghost rest: seq<Entry<V>>)
      returns (result: seq<V>, stop: bool)
      requires Shows(row)
      ensures result + (if stop then [] else Scanned(rest, start, end)) == found + Scanned(row + rest, start, end)
    {
      result := found;
      assert row[0..] == row;
      for i := 0 to |keys|
        invariant result + Scanned(row[i..] + rest, start, end) == found + Scanned(row + rest, start, end)
      {
        ghost var tail := row[i..] + rest;
        assert tail[0] == row[i] && tail[1..] == row[i + 1..] + rest;
        if start <= keys[i] <= end {
          result := result + [values[i]];
        } else if keys[i] > end {
          return result, true;
        }
      }
      assert row[|row|..] + rest == rest;
      stop := false;
    }

    /** Along the links, whether the keys are in order or not. */
    method RangeQuery(start: int, end: int, ghost chain: seq<LeafNode<V>>, ghost rows: seq<seq<Entry<V>>>, ghost p: nat)
      returns (result: seq<V>)
      requires Chained(chain, rows) && p < |chain| && chain[p] == this
      ensures result == Scanned(Flat(rows[p..]), start, end)
      ensures Sorted(Flat(rows[p..])) ==> result == InRange(Flat(rows[p..]), start, end)
    {
      hide Sorted, Flat, InRange;
      result := [];
      var leaf: LeafNode?<V> := this;
      ghost var q := p;
      ghost var n := ScannedPart(Flat(rows[p..]), start, end);
      while leaf != null
        invariant p <= q <= |chain| && leaf == if q < |chain| then chain[q] else null
        invariant result + Scanned(Flat(rows[q..]), start, end) == Scanned(Flat(rows[p..]), start, end)
        decreases |chain| - q
      {
        var stop: bool;
        FlatAt(rows, q);
        result, stop := leaf.Scan(start, end, result, rows[q], Flat(rows[q + 1..]));
        if stop {
          return;
        }
        leaf := leaf.next;
        q := q + 1;
      }
      AllEmpty(rows[q..]);
    }
  }

  class InternalNode<V> {
    var keys: seq<int>
    var children: seq<LeafNode<V>>

    constructor ()
      ensures keys == [] && children == []
    {
      keys, children := [], [];
    }

    method FindChildIndex(key: int) returns (idx: nat)
      ensures idx == Route(keys, key)
    {
      idx := 0;
      while idx < |keys| && key > keys[idx]
        invariant idx <= |keys| && forall i :: 0 <= i < idx ==> keys[i] < key
      {
        idx := idx + 1;
      }
    }

    /** Behind the last key the child goes to the end, wherever the child at the index is. */
    method InsertChild(idx: nat, key: int, child: LeafNode<V>)
      requires idx <= |keys| && (idx < |keys| ==> idx < |children|)
      modifies this
      ensures keys == old(keys[..idx] + [key] + keys[idx..])
      ensures children == if idx < |old(keys)| then old(children)[..idx + 1] + [child] + old(children)[idx + 1..]
                          else old(children) + [child]
    {
      if idx < |keys| {
        keys := keys[..idx] + [key] + keys[idx..];
        children := children[..idx + 1] + [child] + children[idx + 1..];
      } else {
        keys := keys + [key];
        children := children + [child];
      }
    }

    method EraseChild(idx: nat)
      requires idx < |children| && |children| == |keys| + 1
      modifies this
      ensures children == old(children[..idx] + children[idx + 1..])
      ensures var s := if idx > 0 then idx - 1 else 0;
              keys == if old(keys) == [] then [] else old(keys)[..s] + old(keys)[s + 1..]
    {
      children := children[..idx] + children[idx + 1..];
      if idx > 0 {
        keys := keys[..idx - 1] + keys[idx..];
      } else if keys != [] {
        keys := keys[1..];
      }
    }
  }

  datatype Root<V> = NoRoot | LeafRoot(leaf: LeafNode<V>) | InnerRoot(node: InternalNode<V>)

  /** Different leaves, each linked to the next, that hold these rows. */
  ghost predicate Chained<V>(chain: seq<LeafNode<V>>, rows: seq<seq<Entry<V>>>)
    reads chain
  {
    |chain| == |rows| &&
    (forall i, j :: 0 <= i < j < |chain| ==> chain[i] != chain[j]) &&
    (forall i {:trigger chain[i].next} :: 0 <= i < |chain| ==>
      chain[i].next == if i + 1 < |chain| then chain[i + 1] else null) &&
    forall i :: 0 <= i < |chain| ==> chain[i].Shows(rows[i])
  }

  /** The chain after a split: the new leaf stands behind the one it was taken from. */
  ghost function Spliced<V>(chain: seq<LeafNode<V>>, p: nat, right: LeafNode<V>): (r: seq<LeafNode<V>>)
    requires p < |chain|
    ensures |r| == |chain| + 1
    ensures forall i :: 0 <= i < |r| ==> r[i] == if i <= p then chain[i] else if i == p + 1 then right else chain[i - 1]
  {
    chain[..p + 1] + [right] + chain[p + 1..]
  }

  lemma SplicedChain<V>(chain: seq<LeafNode<V>>, rows: seq<seq<Entry<V>>>, p: nat, right: LeafNode<V>)
    requires |chain| == |rows| && p < |chain| && right !in chain
    requires forall i, j :: 0 <= i < j < |chain| ==> chain[i] != chain[j]
    requires forall i :: 0 <= i < |chain| && i != p ==> chain[i].Shows(rows[i])
    requires forall i {:trigger chain[i].next} :: 0 <= i < |chain| && i != p ==>
      chain[i].next == if i + 1 < |chain| then chain[i + 1] else null
    requires chain[p].Shows(rows[p][..|rows[p]| / 2]) && chain[p].next == right
    requires right.Shows(rows[p][|rows[p]| / 2..]) && right.next == if p + 1 < |chain| then chain[p + 1] else null
    ensures Chained(Spliced(chain, p, right), SplitRows(rows, p))
  {
    SplicedLinks(chain, p, right);
    SplicedShows(chain, rows, p, right);
    assert forall i :: 0 <= i < |chain| ==> chain[i] != right;
  }

  lemma SplicedLinks<V>(chain: seq<LeafNode<V>>, p: nat, right: LeafNode<V>)
    requires p < |chain|
    requires forall i {:trigger chain[i].next} :: 0 <= i < |chain| && i != p ==>
      chain[i].next == if i + 1 < |chain| then chain[i + 1] else null
    requires chain[p].next == right && right.next == if p + 1 < |chain| then chain[p + 1] else null
    ensures var r := Spliced(chain, p, right);
            forall i {:trigger r[i].next} :: 0 <= i < |r| ==> r[i].next == if i + 1 < |r| then r[i + 1] else null
  {
    var r := Spliced(chain, p, right);
    forall i | 0 <= i < |r| ensures r[i].next == if i + 1 < |r| then r[i + 1] else null {
      if i > p + 1 {
        assert r[i] == chain[i - 1];
      } else if i < p {
        assert r[i] == chain[i] && r[i + 1] == chain[i + 1];
      }
    }
  }

  lemma SplicedShows<V>(chain: seq<LeafNode<V>>, rows: seq<seq<Entry<V>>>, p: nat, right: LeafNode<V>)
    requires |chain| == |rows| && p < |chain|
    requires forall i :: 0 <= i < |chain| && i != p ==> chain[i].Shows(rows[i])
    requires chain[p].Shows(rows[p][..|rows[p]| / 2]) && right.Shows(rows[p][|rows[p]| / 2..])
    ensures forall i :: 0 <= i <= |chain| ==> Spliced(chain, p, right)[i].Shows(SplitRows(rows, p)[i])
  {
    var r := Spliced(chain, p, right);
    forall i | 0 <= i < |r| ensures r[i].Shows(SplitRows(rows, p)[i]) {
      if i > p + 1 {
        assert r[i] == chain[i - 1];
      } else if i < p {
        assert r[i] == chain[i];
      }
    }
  }

  /** A leaf rewritten in place. */
  lemma RewrittenChain<V>(chain: seq<LeafNode<V>>, rows: seq<seq<Entry<V>>>, p: nat, row: seq<Entry<V>>)
    requires |chain| == |rows| && p < |chain|
    requires forall i, j :: 0 <= i < j < |chain| ==> chain[i] != chain[j]
    requires forall i {:trigger chain[i].next} :: 0 <= i < |chain| ==>
      chain[i].next == if i + 1 < |chain| then chain[i + 1] else null
    requires forall i :: 0 <= i < |chain| && i != p ==> chain[i].Shows(rows[i])
    requires chain[p].Shows(row)
    ensures Chained(chain, rows[p := row])
  {
  }

  method SplitInChain<V>(leaf: LeafNode<V>, ghost chain: seq<LeafNode<V>>, ghost rows: seq<seq<Entry<V>>>, ghost p: nat)
    returns (right: LeafNode<V>)
    requires |chain| == |rows| && Chained(chain, rows) && p < |chain| && leaf == chain[p] && |rows[p]| > 1
    modifies leaf
    ensures fresh(right) && Chained(Spliced(chain, p, right), SplitRows(rows, p))
    ensures |right.keys| > 0 && right.keys[0] == rows[p][|rows[p]| / 2].key
  {
    assert forall i :: 0 <= i < |chain| && i != p ==> chain[i] != leaf;
    right := leaf.Split(rows[p]);
    SplicedChain(chain, rows, p, right);
  }

  method InsertInChain<V>(leaf: LeafNode<V>, key: int, value: V,
                          ghost chain: seq<LeafNode<V>>, ghost rows: seq<seq<Entry<V>>>, ghost p: nat)
    requires |chain| == |rows| && Chained(chain, rows) && p < |chain| && leaf == chain[p] && Sorted(rows[p])
    modifies leaf`keys, leaf`values
    ensures Chained(chain, rows[p := Put(rows[p], Entry(key, value))])
  {
    hide Put;
    assert forall i :: 0 <= i < |chain| && i != p ==> chain[i] != leaf;
    leaf.InsertKey(key, value, rows[p]);
    RewrittenChain(chain, rows, p, Put(rows[p], Entry(key, value)));
  }

  method RemoveInChain<V>(leaf: LeafNode<V>, key: int,
                          ghost chain: seq<LeafNode<V>>, ghost rows: seq<seq<Entry<V>>>, ghost p: nat)
    returns (hadKey: bool)
    requires |chain| == |rows| && Chained(chain, rows) && p < |chain| && leaf == chain[p] && Sorted(rows[p])
    modifies leaf`keys, leaf`values
    ensures hadKey == Holds(rows[p], key)
    ensures Chained(chain, if Holds(rows[p], key) then rows[p := Drop(rows[p], key)] else rows)
    ensures |leaf.keys| == if Holds(rows[p], key) then |rows[p]| - 1 else |rows[p]|
  {
    assert forall i :: 0 <= i < |chain| && i != p ==> chain[i] != leaf;
    hadKey := leaf.Contains(key, rows[p]);
    leaf.RemoveKey(key, rows[p]);
    if Holds(rows[p], key) {
      RewrittenChain(chain, rows, p, Drop(rows[p], key));
    } else {
      assert rows[p := rows[p]] == rows;
      RewrittenChain(chain, rows, p, rows[p]);
    }
  }

  /** These are the leaves of the chain at these places. */
  ghost predicate Picks<V>(children: seq<LeafNode<V>>, chain: seq<LeafNode<V>>, at: seq<nat>) {
    |children| == |at| && forall j :: 0 <= j < |at| ==> at[j] < |chain| && children[j] == chain[at[j]]
  }

  lemma PicksSplit<V>(children: seq<LeafNode<V>>, chain: seq<LeafNode<V>>, at: seq<nat>, j: nat, right: LeafNode<V>)
    requires Picks(children, chain, at) && j < |at| && forall a, b :: 0 <= a < b < |at| ==> at[a] < at[b]
    ensures Picks(children[..j + 1] + [right] + children[j + 1..], Spliced(chain, at[j], right), Shift(at, j))
  {
    var c, a := children[..j + 1] + [right] + children[j + 1..], Shift(at, j);
    forall i | 0 <= i < |a| ensures a[i] <= |chain| && c[i] == Spliced(chain, at[j], right)[a[i]] {
      if i > j + 1 {
        assert c[i] == children[i - 1] && at[j] < at[i - 1];
      } else if i < j {
        assert c[i] == children[i] && at[i] < at[j];
      }
    }
  }

  lemma DropIndexIf<V>(row: seq<Entry<V>>, k: int)
    ensures Holds(row, k) ==> |Drop(row, k)| == |row| - 1
  {
    hide Place;
  }

  lemma AfterInsertCases<V>(lay: Layout<V>, e: Entry<V>, degree: nat)
    requires degree >= 2 && Ordered(lay, degree)
    ensures var j := Route(lay.seps, e.key);
            if |lay.rows[lay.at[j]]| < 2 * degree - 1 then AfterInsert(lay, e, degree) == PutAt(lay, j, e)
            else
              Placed(Split(lay, j)) && |lay.rows[lay.at[j]]| == 2 * degree - 1 && j < |Split(lay, j).seps| &&
              AfterInsert(lay, e, degree) ==
                PutAt(Split(lay, j), if e.key > Split(lay, j).seps[j] then j + 1 else j, e)
  {
    hide Divided, Sorted, Flat, Put;
    SplitKeepsPlaced(lay, Route(lay.seps, e.key));
  }

  lemma PicksAt<V>(children: seq<LeafNode<V>>, chain: seq<LeafNode<V>>, at: seq<nat>, j: nat)
    requires Picks(children, chain, at) && j < |children|
    ensures |children| == |at| && at[j] < |chain| && children[j] == chain[at[j]]
  {
  }

  lemma AtTheEnd<V>(children: seq<LeafNode<V>>, j: nat, right: LeafNode<V>)
    requires j < |children|
    ensures j + 1 == |children| ==> children[..j + 1] + [right] + children[j + 1..] == children + [right]
  {
  }

  lemma PicksLess<V>(children: seq<LeafNode<V>>, chain: seq<LeafNode<V>>, at: seq<nat>, j: nat)
    requires Picks(children, chain, at) && j < |at|
    ensures |children| == |at| && Picks(children[..j] + children[j + 1..], chain, at[..j] + at[j + 1..])
  {
    var c, a := children[..j] + children[j + 1..], at[..j] + at[j + 1..];
    forall i | 0 <= i < |a| ensures a[i] < |chain| && c[i] == chain[a[i]] {
      var o := if i < j then i else i + 1;
      assert c[i] == children[o] && a[i] == at[o];
    }
  }

  lemma PicksSplitHead<V>(leaf: LeafNode<V>, chain: seq<LeafNode<V>>, at: seq<nat>)
    requires |at| == 1 && at[0] < |chain| && leaf == chain[at[0]]
    ensures forall right :: Picks([leaf, right], Spliced(chain, at[0], right), Shift(at, 0))
  {
  }

  class Tree<V> {
    const degree: nat
    var root: Root<V>
    var firstLeaf: LeafNode?<V>
    ghost var chain: seq<LeafNode<V>>
    ghost var lay: Layout<V>
    ghost var Repr: set<object>

    /** The leaves, apart from how the root refers to them. */
    ghost predicate Core()
      reads this, Repr
    {
      degree >= 2 && this in Repr && (forall i :: 0 <= i < |chain| ==> chain[i] in Repr) &&
      |chain| == |lay.rows| && Chained(chain, lay.rows) && Arranged(lay) &&
      |chain| > 0 && firstLeaf == chain[0]
    }

    ghost predicate Rooted()
      reads this, Repr
      requires Core()
    {
      match root
      case NoRoot => false
      case LeafRoot(leaf) => |lay.at| == 1 && leaf == chain[lay.at[0]]
      case InnerRoot(node) => |lay.at| >= 2 && Parents(node)
    }

    ghost predicate Parents(node: InternalNode<V>)
      reads this, Repr
      requires Core()
    {
      node in Repr && node.keys == lay.seps && Picks(node.children, chain, lay.at)
    }

    ghost predicate Valid()
      reads this, Repr
    {
      degree >= 2 && this in Repr &&
      if root.NoRoot? then lay == Blank() && chain == [] && firstLeaf == null
      else Core() && Rooted() && Sized(lay, degree)
    }

    /** Every entry in the order of the leaves. */
    ghost function Entries(): seq<Entry<V>>
      reads this
    {
      Flat(lay.rows)
    }

    constructor (deg: int)
      ensures Valid() && lay == Blank() && fresh(Repr) && degree == if deg > 2 then deg else 2
    {
      degree := if deg > 2 then deg else 2;
      root, firstLeaf := NoRoot, null;
      chain, lay, Repr := [], Blank(), {this};
    }

    // ---------- Insertion ----------

    method FirstInsert(key: int, value: V)
      requires Valid() && root.NoRoot?
      modifies this
      ensures Valid() && lay == Layout([[Entry(key, value)]], [0], []) && fresh(Repr - old(Repr))
    {
      var leaf := new LeafNode<V>();
      leaf.InsertKey(key, value, []);
      root := LeafRoot(leaf);
      firstLeaf := leaf;
      chain, lay, Repr := [leaf], Layout([[Entry(key, value)]], [0], []), Repr + {leaf};
      FirstKeeps(Entry(key, value));
    }

    /** Split the `j`-th child; the caller ties the new leaf to the root. */
    method SplitLeaf(leaf: LeafNode<V>, ghost j: nat) returns (right: LeafNode<V>)
      requires Core() && j < |lay.at| && leaf == chain[lay.at[j]] && |lay.rows[lay.at[j]]| > 1
      modifies this`chain, this`lay, this`Repr, leaf
      ensures Core() && lay == Split(old(lay), j) && chain == Spliced(old(chain), old(lay).at[j], right)
      ensures fresh(right) && Repr == old(Repr) + {right} && right.keys != [] && right.keys[0] == lay.seps[j]
    {
      hide Divided, Sorted, Flat, Put, Chained;
      ghost var p := lay.at[j];
      SplitArranged(lay, j);
      right := SplitInChain(leaf, chain, lay.rows, p);
      chain, lay, Repr := Spliced(chain, p, right), Split(lay, j), Repr + {right};
    }

    /** A full leaf that is the root gets an internal node above its two halves. */
    method SplitRoot()
      requires Valid() && root.LeafRoot? && |lay.rows[lay.at[0]]| == 2 * degree - 1
      modifies this, root.leaf
      ensures Valid() && root.InnerRoot? && lay == Split(old(lay), 0) && fresh(Repr - old(Repr))
    {
      hide Divided, Sorted, Flat, Put, Chained;
      SplitSizes(lay, 0, degree);
      var newRoot := new InternalNode<V>();
      var oldLeaf := root.leaf;
      PicksSplitHead(oldLeaf, chain, lay.at);
      var newLeaf := SplitLeaf(oldLeaf, 0);
      var promoteKey := newLeaf.keys[0];
      newRoot.keys := newRoot.keys + [promoteKey];
      newRoot.children := newRoot.children + [oldLeaf];
      newRoot.children := newRoot.children + [newLeaf];
      root := InnerRoot(newRoot);
      Repr := Repr + {newRoot};
    }

    method SplitChild(node: InternalNode<V>, idx: nat)
      requires Valid() && root == InnerRoot(node) && idx < |node.children| && Room(lay, degree)
      requires |lay.rows[lay.at[idx]]| == 2 * degree - 1
      modifies this`chain, this`lay, this`Repr, node, node.children[idx]
      ensures Valid() && lay == Split(old(lay), idx) && fresh(Repr - old(Repr))
    {
      hide Divided, Sorted, Flat, Put, Chained, Picks;
      PicksAt(node.children, chain, lay.at, idx);
      SplitSizes(lay, idx, degree);
      ghost var children, at, chain0 := node.children, lay.at, chain;
      var newLeaf := SplitLeaf(node.children[idx], idx);
      var promoteKey := newLeaf.keys[0];
      node.InsertChild(idx, promoteKey, newLeaf);
      PicksSplit(children, chain0, at, idx, newLeaf);
      AtTheEnd(children, idx, newLeaf);
    }

    method InsertIntoLeaf(leaf: LeafNode<V>, key: int, value: V, ghost j: nat)
      requires Valid() && !root.NoRoot? && j < |lay.at| && leaf == chain[lay.at[j]] &&
               |lay.rows[lay.at[j]]| < 2 * degree - 1
      requires (j > 0 ==> lay.seps[j - 1] < key) && (j < |lay.seps| ==> key <= lay.seps[j])
      modifies this`lay, leaf`keys, leaf`values
      ensures Valid() && lay == PutAt(old(lay), j, Entry(key, value))
    {
      hide Divided, Sorted, Flat, Put, Chained;
      ghost var p := lay.at[j];
      ghost var e := Entry(key, value);
      RowSorted(lay.rows, p);
      PutArranged(lay, j, e);
      PutSized(lay, j, e, degree);
      InsertInChain(leaf, key, value, chain, lay.rows, p);
      lay := PutAt(lay, j, e);
    }

    method InsertNonfull(key: int, value: V)
      requires Valid() && !root.NoRoot?
      requires if root.LeafRoot? then |lay.rows[lay.at[0]]| < 2 * degree - 1 else Room(lay, degree)
      modifies Repr
      ensures Valid() && fresh(Repr - old(Repr))
      ensures lay == AfterInsert(old(lay), Entry(key, value), degree)
    {
      hide Divided, Sorted, Flat, Put, Chained;
      if root.LeafRoot? {
        InsertIntoLeaf(root.leaf, key, value, 0);
      } else {
        InsertBelow(root.node, key, value);
      }
    }

    method InsertBelow(node: InternalNode<V>, key: int, value: V)
      requires Valid() && root == InnerRoot(node) && Room(lay, degree)
      modifies Repr
      ensures Valid() && fresh(Repr - old(Repr))
      ensures lay == AfterInsert(old(lay), Entry(key, value), degree)
    {
      hide Divided, Sorted, Flat, Put, Chained, AfterInsert, Split, PutAt;
      AfterInsertCases(lay, Entry(key, value), degree);
      var idx := node.FindChildIndex(key);
      var full := IsFull(node.children[idx], lay.at[idx]);
      if full {
        idx := SplitOnTheWay(node, idx, key);
      }
      InsertIntoLeaf(node.children[idx], key, value, idx);
    }

    /** Split a full child, and choose between its halves. */
    method SplitOnTheWay(node: InternalNode<V>, idx: nat, key: int) returns (i: nat)
      requires Valid() && root == InnerRoot(node) && Room(lay, degree) && idx == Route(lay.seps, key)
      requires |lay.rows[lay.at[idx]]| >= 2 * degree - 1
      modifies this`chain, this`lay, this`Repr, node, node.children[idx]
      ensures Valid() && lay == Split(old(lay), idx) && fresh(Repr - old(Repr))
      ensures i == (if key > lay.seps[idx] then idx + 1 else idx) && |lay.rows[lay.at[i]]| < 2 * degree - 1
      ensures (i > 0 ==> lay.seps[i - 1] < key) && (i < |lay.seps| ==> key <= lay.seps[i])
    {
      hide Divided, Sorted, Flat, Put, Chained;
      SplitRoute(lay, key);
      SplitSizes(lay, idx, degree);
      SplitChild(node, idx);
      i := if key > node.keys[idx] then idx + 1 else idx;
    }

    method IsFull(leaf: LeafNode<V>, ghost p: nat) returns (full: bool)
      requires Valid() && p < |chain| && leaf == chain[p]
      ensures full == (|lay.rows[p]| >= 2 * degree - 1)
    {
      assert leaf.Shows(lay.rows[p]);
      full := |leaf.keys| >= 2 * degree - 1;
    }

    /** A run must not reach the split of an internal node, so the internal root is not full. */
    method Insert(key: int, value: V)
      requires Valid() && Room(lay, degree)
      modifies Repr
      ensures Valid() && fresh(Repr - old(Repr))
      ensures lay == AfterInsert(old(lay), Entry(key, value), degree)
      ensures Entries() == Put(old(Entries()), Entry(key, value))
    {
      hide Divided, Sorted, Flat, Put, Chained;
      InsertKeeps(lay, Entry(key, value), degree);
      if root.NoRoot? {
        FirstInsert(key, value);
        return;
      }
      if root.LeafRoot? {
        var full := IsFull(root.leaf, lay.at[0]);
        if full {
          RootSplitFirst(lay, Entry(key, value), degree);
          SplitRoot();
        }
      }
      InsertNonfull(key, value);
    }

    // ---------- Removal ----------

    method RemoveFromLeaf(leaf: LeafNode<V>, key: int, ghost j: nat) returns (underflow: bool)
      requires Core() && j == Route(lay.seps, key) && leaf == chain[lay.at[j]]
      modifies this`lay, leaf`keys, leaf`values
      ensures Core()
      ensures var hit := Holds(old(lay).rows[old(lay).at[j]], key);
              lay == (if hit then DropAt(old(lay), j, key) else old(lay)) &&
              underflow == (hit && |lay.rows[lay.at[j]]| < degree - 1)
      ensures |leaf.keys| == |lay.rows[lay.at[j]]|
    {
      hide Divided, Sorted, Flat, Put, Chained;
      ghost var p := lay.at[j];
      ghost var row := lay.rows[p];
      RowSorted(lay.rows, p);
      var hadKey := RemoveInChain(leaf, key, chain, lay.rows, p);
      if hadKey {
        DropArranged(lay, key);
        lay := DropAt(lay, j, key);
      }
      underflow := hadKey && |leaf.keys| < degree - 1;
    }

    /** The root is a leaf: when it runs empty the whole chain goes. */
    method RemoveFromRoot(key: int)
      requires Valid() && root.LeafRoot?
      modifies Repr
      ensures Valid() && Repr == old(Repr) && lay == AfterRemove(old(lay), key, degree)
    {
      hide Divided, Sorted, Flat, Put, Chained, Drop, Place;
      DropIndexIf(lay.rows[lay.at[0]], key);
      var leaf := root.leaf;
      var underflow := RemoveFromLeaf(leaf, key, 0);
      if leaf.keys == [] {
        root, firstLeaf := NoRoot, null;
        chain, lay := [], Blank();
      }
    }

    method RemoveFromChild(node: InternalNode<V>, key: int)
      requires Valid() && root == InnerRoot(node)
      modifies Repr
      ensures Valid() && Repr == old(Repr) && lay == AfterRemove(old(lay), key, degree)
    {
      hide Divided, Sorted, Flat, Put, Chained, Drop, AfterRemove;
      RemoveKeeps(lay, key, degree);
      RemoveBelow(node, key);
      if node.keys == [] && |node.children| == 1 {
        root := LeafRoot(node.children[0]);
      }
    }

    method RemoveBelow(node: InternalNode<V>, key: int)
      requires Core() && Parents(node) && Sized(lay, degree) && |lay.at| >= 2
      modifies this`lay, node, set leaf | leaf in chain
      ensures Core() && Parents(node) && lay == AfterRemove(old(lay), key, degree)
    {
      hide Divided, Sorted, Flat, Put, Chained, Drop;
      var idx := node.FindChildIndex(key);
      var leaf := node.children[idx];
      var underflow := RemoveFromLeaf(leaf, key, idx);
      if underflow && leaf.keys == [] {
        DetachChild(node, idx);
      }
    }

    method DetachChild(node: InternalNode<V>, idx: nat)
      requires Core() && Parents(node) && |lay.at| >= 2 && idx < |lay.at| && lay.rows[lay.at[idx]] == []
      modifies this`lay, node
      ensures Core() && Parents(node) && lay == Detach(old(lay), idx)
    {
      hide Divided, Sorted, Flat, Put, Chained, Picks;
      DetachPlaced(lay, idx);
      DetachArranged(lay, idx);
      PicksLess(node.children, chain, lay.at, idx);
      node.EraseChild(idx);
      lay := Detach(lay, idx);
    }

    method Remove(key: int)
      requires Valid()
      modifies Repr
      ensures Valid() && Repr == old(Repr) && lay == AfterRemove(old(lay), key, degree)
      ensures Entries() == if Holds(old(Entries()), key) && !Hidden(old(lay), key)
                           then Drop(old(Entries()), key) else old(Entries())
    {
      StepContents(lay, BPlusLeaves.Op.Remove(key), degree);
      if root.NoRoot? {
        return;
      }
      if root.LeafRoot? {
        RemoveFromRoot(key);
      } else {
        RemoveFromChild(root.node, key);
      }
    }

    /** One call of a run; an insert that would split an internal node is not made. */
    method Do(op: Op<V>) returns (done: bool)
      requires Valid()
      modifies Repr
      ensures Valid() && fresh(Repr - old(Repr))
      ensures done == Step(old(lay), op, degree).Some?
      ensures lay == if done then Step(old(lay), op, degree).value else old(lay)
    {
      hide Divided, Sorted, Flat, Put, Chained, Drop, AfterInsert, AfterRemove;
      done := true;
      match op {
        case Insert(key, value) =>
          if root.InnerRoot? && |root.node.keys| >= 2 * degree - 1 {
            done := false;
          } else {
            Insert(key, value);
          }
        case Remove(key) =>
          Remove(key);
      }
    }

    // ---------- Queries ----------

    method FindLeaf(key: int) returns (leaf: LeafNode?<V>)
      requires Valid()
      ensures leaf == if root.NoRoot? then null else chain[lay.at[Route(lay.seps, key)]]
    {
      if root.NoRoot? {
        return null;
      }
      if root.LeafRoot? {
        return root.leaf;
      }
      var idx := root.node.FindChildIndex(key);
      if idx >= |root.node.children| {
        assert false;
      }
      return root.node.children[idx];
    }

    /** The first entry of the key, unless the key is hidden behind a separator. */
    method Find(key: int) returns (value: Option<V>)
      requires Valid()
      ensures value == if Holds(Entries(), key) && !Hidden(lay, key)
                       then Some(Entries()[Place(Entries(), key)].value) else None
      ensures value.Some? ==> exists i :: 0 <= i < |Entries()| && Entries()[i] == Entry(key, value.value)
      ensures value.None? ==> key in lay.seps || forall i :: 0 <= i < |Entries()| ==> Entries()[i].key != key
    {
      var leaf := FindLeaf(key);
      if leaf == null {
        return None;
      }
      HoldsIff(Entries(), key);
      HiddenIsLost(lay, key);
      ghost var row := Routed(lay, key);
      RowSorted(lay.rows, lay.at[Route(lay.seps, key)]);
      LookupExact(lay, key, degree);
      value := leaf.Find(key, row);
    }

    /** Passes the empty tree and a lone leaf with different keys, and no tree with an internal root. */
    method Validate() returns (ok: bool)
      requires Valid()
      ensures ok <==> root.NoRoot? ||
                      (root.LeafRoot? &&
                       forall i, j :: 0 <= i < j < |root.leaf.keys| ==> root.leaf.keys[i] < root.leaf.keys[j])
    {
      if root.NoRoot? {
        return true;
      }
      if root.LeafRoot? {
        assert root.leaf.Shows(lay.rows[lay.at[0]]);
        var min, max;
        ok, min, max := ValidateLeaf(root.leaf, true, degree, 0, 0, true);
      } else {
        FirstBelow(lay, degree);
        assert root.node.children[0] == chain[lay.at[0]] && chain[lay.at[0]].Shows(lay.rows[lay.at[0]]);
        ok := ValidateInner(root.node, degree);
      }
    }

    /** Exactly the values whose keys are in the range, in order. */
    method RangeQuery(start: int, end: int) returns (result: seq<V>)
      requires Valid()
      ensures result == InRange(Entries(), start, end) && Sorted(Entries())
      ensures start > end ==> result == []
      ensures var es := Entries();
              var lo, hi := Place(es, start), Place(es, end + 1);
              start <= end ==>
                lo <= hi && |result| == hi - lo && forall i :: lo <= i < hi ==> result[i - lo] == es[i].value
    {
      hide *;
      EntriesAre();
      ListsRange(lay, start, end, degree);
      result := RangeFrom(start, end);
    }

    lemma EntriesAre()
      requires Valid()
      ensures Entries() == Flat(lay.rows) && Ok(lay, degree)
    {
    }

    method RangeFrom(start: int, end: int) returns (result: seq<V>)
      requires Valid()
      ensures result == InRange(Flat(lay.rows), start, end)
    {
      var leaf := FindLeaf(start);
      if leaf == null {
        return [];
      }
      RangeFromRouted(lay, start, end, degree);
      result := leaf.RangeQuery(start, end, chain, lay.rows, lay.at[Route(lay.seps, start)]);
    }
  }

  // ---------- The tree's own test ----------

  ghost predicate Increasing(keys: seq<int>) {
    forall i, j :: 0 <= i < j < |keys| ==> keys[i] < keys[j]
  }

  /** The part of the test for a leaf; the smallest and largest key so far go along. */
  method ValidateLeaf<V>(leaf: LeafNode<V>, isRoot: bool, degree: nat, minKey: int, maxKey: int, first: bool)
    returns (ok: bool, min: int, max: int)
    ensures ok <==> (isRoot || |leaf.keys| >= degree - 1) && leaf.keys != [] && (first || maxKey < leaf.keys[0]) &&
                    forall i, j :: 0 <= i < j < |leaf.keys| ==> leaf.keys[i] < leaf.keys[j]
    ensures ok ==> min == (if first then leaf.keys[0] else minKey) && max == leaf.keys[|leaf.keys| - 1]
  {
    min, max := minKey, maxKey;
    if !isRoot && |leaf.keys| + 1 < degree {
      return false, min, max;
    }
    if leaf.keys == [] {
      return false, min, max;
    }
    for i := 1 to |leaf.keys|
      invariant Increasing(leaf.keys[..i])
    {
      if leaf.keys[i] <= leaf.keys[i - 1] {
        return false, min, max;
      }
      IncreasingNext(leaf.keys, i);
    }
    assert leaf.keys[..|leaf.keys|] == leaf.keys;
    if first {
      min := leaf.keys[0];
    } else if leaf.keys[0] <= max {
      return false, min, max;
    }
    max := leaf.keys[|leaf.keys| - 1];
    ok := true;
  }

  lemma IncreasingNext(keys: seq<int>, i: nat)
    requires 0 < i < |keys| && Increasing(keys[..i]) && keys[i - 1] < keys[i]
    ensures Increasing(keys[..i + 1])
  {
    forall a | 0 <= a < i ensures keys[a] < keys[i] {
      assert keys[..i][a] == keys[a] && keys[..i][i - 1] == keys[i - 1];
    }
    forall a, b | 0 <= a < b < i ensures keys[a] < keys[b] {
      assert keys[..i][a] == keys[a] && keys[..i][b] == keys[b];
    }
  }

  /**
   The smallest key is that of the first child for all children, so the comparison with the
   separator before the second child fails whenever the first child is where it should be.
   */
  method ValidateInner<V>(node: InternalNode<V>, degree: nat) returns (ok: bool)
    requires |node.children| >= 2 && |node.keys| >= 1 && node.children[0].keys != [] ==>
      node.children[0].keys[0] <= node.keys[0]
    ensures ok <==> |node.children| == 1 && node.keys == [] && node.children[0].keys != [] &&
                    |node.children[0].keys| >= degree - 1 && Increasing(node.children[0].keys)
  {
    if node.children == [] || |node.keys| != |node.children| - 1 {
      return false;
    }
    var childMin, childMax, childFirst := 0, 0, true;
    for i := 0 to |node.children|
      invariant i <= 1 && childFirst == (i == 0)
      invariant i == 1 ==>
        node.children[0].keys != [] && childMin == node.children[0].keys[0] &&
        |node.children[0].keys| >= degree - 1 && Increasing(node.children[0].keys)
    {
      var valid;
      valid, childMin, childMax := ValidateLeaf(node.children[i], false, degree, childMin, childMax, childFirst);
      if !valid {
        return false;
      }
      childFirst := false;
      if i < |node.keys| && childMax > node.keys[i] {
        return false;
      }
      if i > 0 && childMin <= node.keys[i - 1] {
        return false;
      }
    }
    return true;
  }

  /** The first leaf stays below the first separator. */
  lemma FirstBelow<V>(lay: Layout<V>, degree: nat)
    requires Ordered(lay, degree) && |lay.at| >= 2
    ensures lay.rows[lay.at[0]][0].key <= lay.seps[0]
  {
    assert Separates(lay.rows, lay.at[0], lay.seps[0]);
  }

  /** Splitting a full root leaf first and then inserting is inserting. */
  lemma RootSplitFirst<V>(lay: Layout<V>, e: Entry<V>, degree: nat)
    requires Ok(lay, degree) && lay != Blank() && |lay.at| == 1 && |lay.rows[lay.at[0]]| == 2 * degree - 1
    ensures Ok(Split(lay, 0), degree) && Room(Split(lay, 0), degree)
    ensures AfterInsert(Split(lay, 0), e, degree) == AfterInsert(lay, e, degree)
  {
    SplitArranged(lay, 0);
    SplitSizes(lay, 0, degree);
    SplitRoute(lay, e.key);
    hide Divided, Sorted, Flat, Put;
    var half := Split(lay, 0);
    assert Route(half.seps, e.key) == if e.key > half.seps[0] then 1 else 0;
  }

  /** Any run of calls on a new tree, as long as no insert meets a full internal root. */
  method Perform<V>(deg: int, ops: seq<Op<V>>) returns (t: Tree<V>, done: bool)
    ensures t.Valid() && fresh(t.Repr) && t.degree == (if deg > 2 then deg else 2)
    ensures done == After(ops, t.degree).Some? && (done ==> t.lay == After(ops, t.degree).value)
  {
    hide *;
    t := new Tree<V>(deg);
    AfterNone<V>(t.degree);
    assert ops[..0] == [];
    for i := 0 to |ops|
      invariant t.Valid() && fresh(t.Repr) && t.degree == if deg > 2 then deg else 2
      invariant After(ops[..i], t.degree) == Some(t.lay)
    {
      AfterNext(ops, i, t.degree);
      done := t.Do(ops[i]);
      if !done {
        NoneStays(ops, i + 1, t.degree);
        return;
      }
    }
    assert ops[..|ops|] == ops;
    done := true;
  }

  /** Any run, and then a range query. */
  method Replay<V>(deg: int, ops: seq<Op<V>>, start: int, end: int) returns (answer: Option<seq<V>>)
    ensures var run := After(ops, if deg > 2 then deg else 2);
            answer == if run.None? then None else Some(InRange(Flat(run.value.rows), start, end))
    ensures answer.Some? ==>
      var es := Flat(After(ops, if deg > 2 then deg else 2).value.rows);
      var lo, hi := Place(es, start), Place(es, end + 1);
      Sorted(es) && (start > end ==> answer.value == []) &&
      (start <= end ==>
         lo <= hi && |answer.value| == hi - lo && forall i :: lo <= i < hi ==> answer.value[i - lo] == es[i].value)
  {
    hide *;
    var t, done := Perform(deg, ops);
    if !done {
      return None;
    }
    t.EntriesAre();
    var result := t.RangeQuery(start, end);
    answer := Some(result);
  }

  /**
   Any run that inserts no key twice, a lookup, and the same lookup after a removal.  The
   lookup finds a stored key exactly if it is no separator, and then the removal takes it.
   */
  method ReplayLookup<V>(deg: int, ops: seq<Op<V>>, key: int) returns (done: bool, found: Option<V>, left: seq<V>)
    requires DifferentKeys(ops)
    ensures var run := After(ops, if deg > 2 then deg else 2);
            done == run.Some? &&
            (done ==>
               var es, lost := Flat(run.value.rows), key in run.value.seps;
               found == (if Holds(es, key) && !lost then Some(es[Place(es, key)].value) else None) &&
               left == InRange(if Holds(es, key) && !lost then Drop(es, key) else es, key, key))
  {
    hide Divided, Sorted, Flat, InRange, Drop, AfterRemove, Hidden;
    var t;
    t, done := Perform(deg, ops);
    found, left := None, [];
    if done {
      DifferentAreNew(ops, t.degree);
      SeparatorsAreLost(ops, t.degree, key);
      HiddenIsLost(t.lay, key);
      found := t.Find(key);
      t.Remove(key);
      left := t.RangeQuery(key, key);
    }
  }

  lemma ListsRange<V>(lay: Layout<V>, start: int, end: int, degree: nat)
    requires Ok(lay, degree)
    ensures Sorted(Flat(lay.rows)) && (start > end ==> InRange(Flat(lay.rows), start, end) == [])
    ensures var es := Flat(lay.rows);
            var lo, hi := Place(es, start), Place(es, end + 1);
            start <= end ==>
              lo <= hi && |InRange(es, start, end)| == hi - lo &&
              forall i :: lo <= i < hi ==> InRange(es, start, end)[i - lo] == es[i].value
  {
    assert Sorted(Flat(lay.rows));
    hide Flat, Sorted, Divided, InRange;
    if start <= end {
      InRangeIndex(Flat(lay.rows), start, end);
    } else {
      InRangeNone(Flat(lay.rows), start, end);
    }
  }

  lemma HiddenIsLost<V>(lay: Layout<V>, k: int)
    ensures Hidden(lay, k) ==> k in lay.seps
  {
  }

  lemma SecondIsHidden(a: Entry<int>, b: Entry<int>, c: Entry<int>, d: Entry<int>, lay: Layout<int>)
    requires a.key < b.key < c.key < d.key && lay == Layout([[a], [b, c, d]], [0, 1], [b.key])
    ensures Hidden(lay, b.key) && InRange(Flat(lay.rows), b.key, b.key) == [b.value]
  {
    assert Route(lay.seps, b.key) == 0;
    FlatPair([a], [b, c, d]);
    InRangeSkip([a], [b, c, d], b.key, b.key);
    assert [b, c, d][1..] == [c, d];
    InRangeBeyond([c, d], b.key, b.key);
  }

  /** Four inserts into a new tree of degree two. */
  method FourInserts() returns (t: Tree<int>)
    ensures t.Valid() && fresh(t.Repr) && t.root.InnerRoot?
    ensures t.lay == Layout([[Entry(1, 10)], [Entry(2, 20), Entry(3, 30), Entry(4, 40)]], [0, 1], [2])
  {
    hide Divided, Sorted, Flat, Put, AfterInsert, Chained, Picks;
    t := new Tree<int>(2);
    ghost var a, b, c, d := Entry(1, 10), Entry(2, 20), Entry(3, 30), Entry(4, 40);
    FirstInsert(a);
    t.Insert(1, 10);
    SecondInsert(a, b, t.lay);
    t.Insert(2, 20);
    ThirdInsert(a, b, c, t.lay);
    t.Insert(3, 30);
    FourthInsert(a, b, c, d, t.lay);
    t.Insert(4, 40);
  }

  /**
   The second key is listed by a range query, not found by a lookup, still listed after its
   removal, and the tree does not pass its own test.
   */
  method LookupMisses() returns (listed: seq<int>, found: Option<int>, valid: bool, left: seq<int>)
    ensures listed == [20] && found == None && !valid && left == [20]
  {
    hide Divided, Sorted, Flat, InRange, Drop;
    var t := FourInserts();
    SecondIsHidden(Entry(1, 10), Entry(2, 20), Entry(3, 30), Entry(4, 40), t.lay);
    listed := t.RangeQuery(2, 2);
    found := t.Find(2);
    valid := t.Validate();
    t.Remove(2);
    left := t.RangeQuery(2, 2);
  }
}
