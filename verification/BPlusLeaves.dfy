/**
 The leaf level of the B+ tree, as values.

 A layout lists the leaves in the order of their `next` links, the places in that list of
 the leaves the root still points to, and the separator keys between them.  A leaf that
 lost its last key is dropped by the root but stays in the list.  Only trees of height at
 most two are covered: a run ends when an insert would split an internal node.
 */
module BPlusLeaves {
  import opened Common

  datatype Entry<V> = Entry(key: int, value: V)

  datatype Layout<V> = Layout(rows: seq<seq<Entry<V>>>, at: seq<nat>, seps: seq<int>)

  datatype Op<V> = Insert(key: int, value: V) | Remove(key: int)

  // ---------- Sorted lists of entries ----------

  ghost predicate Sorted<V>(es: seq<Entry<V>>) {
    forall i, j :: 0 <= i < j < |es| ==> es[i].key <= es[j].key
  }

  /** The place of the first entry whose key is not smaller. */
  ghost function Place<V>(es: seq<Entry<V>>, k: int): (i: nat)
    ensures i <= |es| && (i < |es| ==> es[i].key >= k)
    ensures forall j :: 0 <= j < i ==> es[j].key < k
  {
    if |es| == 0 || es[0].key >= k then 0 else 1 + Place(es[1..], k)
  }

  /** The list with one more entry, before those of the same key. */
  ghost function Put<V>(es: seq<Entry<V>>, e: Entry<V>): seq<Entry<V>> {
    es[..Place(es, e.key)] + [e] + es[Place(es, e.key)..]
  }

  ghost predicate Holds<V>(es: seq<Entry<V>>, k: int) {
    Place(es, k) < |es| && es[Place(es, k)].key == k
  }

  /** The list without the first entry of a key it holds. */
  ghost function Drop<V>(es: seq<Entry<V>>, k: int): seq<Entry<V>>
    requires Holds(es, k)
  {
    es[..Place(es, k)] + es[Place(es, k) + 1..]
  }

  /** The values bound to the keys of a closed range, in order. */
  ghost function InRange<V>(es: seq<Entry<V>>, start: int, end: int): seq<V> {
    if |es| == 0 then []
    else if start <= es[0].key <= end then [es[0].value] + InRange(es[1..], start, end)
    else InRange(es[1..], start, end)
  }

  /** What a range query lists on its way along the leaves: it stops at the first key past the range. */
  ghost function Scanned<V>(es: seq<Entry<V>>, start: int, end: int): seq<V> {
    if |es| == 0 then []
    else if start <= es[0].key <= end then [es[0].value] + Scanned(es[1..], start, end)
    else if es[0].key > end then []
    else Scanned(es[1..], start, end)
  }

  ghost predicate Below<V>(es: seq<Entry<V>>, k: int) {
    forall i :: 0 <= i < |es| ==> es[i].key < k
  }

  ghost predicate From<V>(es: seq<Entry<V>>, k: int) {
    forall i :: 0 <= i < |es| ==> k <= es[i].key
  }

  lemma PutSorted<V>(es: seq<Entry<V>>, e: Entry<V>)
    requires Sorted(es)
    ensures Sorted(Put(es, e))
  {
    hide Put;
    PutIndex(es, e);
    var i, r := Place(es, e.key), Put(es, e);
    forall a, b | 0 <= a < b < |r| ensures r[a].key <= r[b].key {
      assert r[a] == if a < i then es[a] else if a == i then e else es[a - 1];
      assert r[b] == if b < i then es[b] else if b == i then e else es[b - 1];
      assert i < b - 1 ==> es[i].key <= es[b - 1].key;
    }
  }

  lemma PutIndex<V>(es: seq<Entry<V>>, e: Entry<V>)
    ensures |Put(es, e)| == |es| + 1
    ensures forall j {:trigger Put(es, e)[j]} :: 0 <= j <= |es| ==>
      (Put(es, e)[j] == if j < Place(es, e.key) then es[j] else if j == Place(es, e.key) then e else es[j - 1])
  {
    hide Place;
  }

  lemma DropIndex<V>(es: seq<Entry<V>>, k: int)
    requires Holds(es, k)
    ensures |Drop(es, k)| == |es| - 1
    ensures forall j {:trigger Drop(es, k)[j]} :: 0 <= j < |es| - 1 ==>
      Drop(es, k)[j] == es[if j < Place(es, k) then j else j + 1]
  {
    hide Place;
  }

  /** An entry put into the part that its key belongs to is put into the whole. */
  lemma PutWithin<V>(a: seq<Entry<V>>, b: seq<Entry<V>>, c: seq<Entry<V>>, e: Entry<V>)
    requires Below(a, e.key) && From(c, e.key)
    ensures Put(a + b + c, e) == a + Put(b, e) + c
  {
    hide Place;
    PlaceWithin(a, b, c, e.key);
    var i := Place(b, e.key);
    Cuts(a, b, c, i);
    Assoc(a + (b[..i] + [e]), b[i..], c);
    Assoc(a, b[..i] + [e], b[i..]);
    assert a + (b[..i] + [e]) == a + b[..i] + [e];
  }

  lemma PlaceWithin<V>(a: seq<Entry<V>>, b: seq<Entry<V>>, c: seq<Entry<V>>, k: int)
    requires Below(a, k) && From(c, k)
    ensures Place(a + b + c, k) == |a| + Place(b, k)
  {
    var w, i := a + b + c, Place(b, k);
    assert forall j :: 0 <= j < |a| + i ==> w[j].key < k;
    assert |a| + i < |w| ==> w[|a| + i].key >= k;
  }

  lemma DropWithin<V>(a: seq<Entry<V>>, b: seq<Entry<V>>, c: seq<Entry<V>>, k: int)
    requires Below(a, k) && From(c, k) && Holds(b, k)
    ensures Holds(a + b + c, k) && Drop(a + b + c, k) == a + Drop(b, k) + c
  {
    hide Place;
    PlaceWithin(a, b, c, k);
    var i := Place(b, k);
    Cuts(a, b, c, i);
    Cuts(a, b, c, i + 1);
    assert (a + b + c)[|a| + i] == b[i];
    Assoc(a + b[..i], b[i + 1..], c);
    Assoc(a, b[..i], b[i + 1..]);
  }

  lemma Cuts<V>(a: seq<Entry<V>>, b: seq<Entry<V>>, c: seq<Entry<V>>, i: nat)
    requires i <= |b|
    ensures (a + b + c)[..|a| + i] == a + b[..i]
    ensures (a + b + c)[|a| + i..] == b[i..] + c
  {
  }

  lemma {:induction false} InRangeSkip<V>(a: seq<Entry<V>>, b: seq<Entry<V>>, start: int, end: int)
    requires Below(a, start)
    ensures InRange(a + b, start, end) == InRange(b, start, end)
  {
    if |a| == 0 {
      assert a + b == b;
    } else {
      InRangeSkip(a[1..], b, start, end);
      assert (a + b)[0] == a[0] && (a + b)[1..] == a[1..] + b;
    }
  }

  lemma {:induction false} InRangeBeyond<V>(es: seq<Entry<V>>, start: int, end: int)
    requires Sorted(es) && |es| > 0 && end < es[0].key
    ensures InRange(es, start, end) == []
  {
    if |es| > 1 { InRangeBeyond(es[1..], start, end); }
  }

  /** The range by index: from the first key that is not below it to the first key above it. */
  lemma {:induction false} InRangeIndex<V>(es: seq<Entry<V>>, start: int, end: int)
    requires Sorted(es) && start <= end
    ensures Place(es, start) <= Place(es, end + 1)
    ensures |InRange(es, start, end)| == Place(es, end + 1) - Place(es, start)
    ensures forall i {:trigger es[i]} :: Place(es, start) <= i < Place(es, end + 1) ==>
      InRange(es, start, end)[i - Place(es, start)] == es[i].value
  {
    if |es| > 0 {
      var rest := es[1..];
      InRangeIndex(rest, start, end);
      assert |rest| > 0 ==> es[0].key <= rest[0].key;
      forall i | Place(es, start) <= i < Place(es, end + 1)
        ensures InRange(es, start, end)[i - Place(es, start)] == es[i].value
      {
        assert i > 0 ==> rest[i - 1] == es[i];
      }
    }
  }

  lemma {:induction false} InRangeNone<V>(es: seq<Entry<V>>, start: int, end: int)
    requires start > end
    ensures InRange(es, start, end) == []
  {
    if |es| > 0 { InRangeNone(es[1..], start, end); }
  }

  /** In a list of any order: each entry is listed by itself, in its turn. */
  lemma {:induction false} InRangeConcat<V>(a: seq<Entry<V>>, e: Entry<V>, b: seq<Entry<V>>, start: int, end: int)
    ensures InRange(a + [e] + b, start, end) ==
            InRange(a, start, end) + (if start <= e.key <= end then [e.value] else []) + InRange(b, start, end)
  {
    if |a| == 0 {
      assert (a + [e] + b)[1..] == b;
    } else {
      InRangeConcat(a[1..], e, b, start, end);
      assert (a + [e] + b)[0] == a[0] && (a + [e] + b)[1..] == a[1..] + [e] + b;
    }
  }

  /** A scan lists what is in the range before the first key past it, and so everything if the entries are sorted. */
  lemma {:induction false} ScannedPart<V>(es: seq<Entry<V>>, start: int, end: int) returns (n: nat)
    ensures n <= |es| && (n < |es| ==> es[n].key > end) && forall i :: 0 <= i < n ==> es[i].key <= end
    ensures Scanned(es, start, end) == InRange(es[..n], start, end)
    ensures Sorted(es) ==> Scanned(es, start, end) == InRange(es, start, end)
  {
    if |es| == 0 || es[0].key > end {
      n := 0;
      if |es| > 0 && Sorted(es) {
        InRangeBeyond(es, start, end);
      }
    } else {
      var m := ScannedPart(es[1..], start, end);
      n := m + 1;
      assert es[..n][1..] == es[1..][..m];
    }
  }

  /** A sorted list holds a key if some entry has it. */
  lemma HoldsIff<V>(es: seq<Entry<V>>, k: int)
    requires Sorted(es)
    ensures Holds(es, k) <==> exists i :: 0 <= i < |es| && es[i].key == k
  {
    if i :| 0 <= i < |es| && es[i].key == k {
      assert Place(es, k) <= i;
    }
  }

  // ---------- The list of leaves ----------

  ghost function Flat<V>(rows: seq<seq<Entry<V>>>): seq<Entry<V>> {
    if rows == [] then [] else rows[0] + Flat(rows[1..])
  }

  lemma FlatHead<V>(rows: seq<seq<Entry<V>>>)
    requires rows != []
    ensures Flat(rows) == rows[0] + Flat(rows[1..])
  {
  }

  lemma {:induction false} FlatConcat<V>(a: seq<seq<Entry<V>>>, b: seq<seq<Entry<V>>>)
    ensures Flat(a + b) == Flat(a) + Flat(b)
  {
    if a == [] {
      assert a + b == b;
    } else {
      assert (a + b)[0] == a[0] && (a + b)[1..] == a[1..] + b;
      FlatHead(a);
      FlatHead(a + b);
      FlatConcat(a[1..], b);
      hide Flat;
      Assoc(a[0], Flat(a[1..]), Flat(b));
    }
  }

  lemma FlatPair<V>(a: seq<Entry<V>>, b: seq<Entry<V>>)
    ensures Flat([a, b]) == a + b
  {
    assert [a, b] == [a] + [b];
    FlatConcat([a], [b]);
    FlatOne(a);
    FlatOne(b);
  }

  lemma FlatOne<V>(a: seq<Entry<V>>)
    ensures Flat([a]) == a
  {
    assert [a][1..] == [];
  }

  lemma FlatAt<V>(rows: seq<seq<Entry<V>>>, p: nat)
    requires p < |rows|
    ensures Flat(rows) == Flat(rows[..p]) + rows[p] + Flat(rows[p + 1..])
    ensures Flat(rows[p..]) == rows[p] + Flat(rows[p + 1..])
  {
    hide Flat;
    assert rows == rows[..p] + rows[p..];
    assert rows[p..][0] == rows[p] && rows[p..][1..] == rows[p + 1..];
    FlatConcat(rows[..p], rows[p..]);
    FlatHead(rows[p..]);
    Assoc(Flat(rows[..p]), rows[p], Flat(rows[p + 1..]));
  }

  lemma FlatUpdate<V>(rows: seq<seq<Entry<V>>>, p: nat, row: seq<Entry<V>>)
    requires p < |rows|
    ensures Flat(rows[p := row]) == Flat(rows[..p]) + row + Flat(rows[p + 1..])
  {
    FlatAt(rows[p := row], p);
    assert rows[p := row][..p] == rows[..p];
    assert rows[p := row][p + 1..] == rows[p + 1..];
  }

  ghost predicate RowsBelow<V>(rows: seq<seq<Entry<V>>>, k: int) {
    forall r, i :: 0 <= r < |rows| && 0 <= i < |rows[r]| ==> rows[r][i].key < k
  }

  ghost predicate RowsFrom<V>(rows: seq<seq<Entry<V>>>, k: int) {
    forall r, i :: 0 <= r < |rows| && 0 <= i < |rows[r]| ==> k <= rows[r][i].key
  }

  lemma {:induction false} FlatBelow<V>(rows: seq<seq<Entry<V>>>, k: int)
    requires RowsBelow(rows, k)
    ensures Below(Flat(rows), k)
  {
    if rows != [] { FlatBelow(rows[1..], k); }
  }

  lemma {:induction false} FlatFrom<V>(rows: seq<seq<Entry<V>>>, k: int)
    requires RowsFrom(rows, k)
    ensures From(Flat(rows), k)
  {
    if rows != [] { FlatFrom(rows[1..], k); }
  }

  // ---------- Layouts ----------

  /** The key `s` divides the leaves up to `p` from those after. */
  ghost predicate Separates<V>(rows: seq<seq<Entry<V>>>, p: nat, s: int) {
    forall r, i :: 0 <= r < |rows| && 0 <= i < |rows[r]| ==>
      if r <= p then rows[r][i].key <= s else s <= rows[r][i].key
  }

  /** The child a key is sent to: left of the first separator that is not smaller. */
  ghost function Route(seps: seq<int>, k: int): (j: nat)
    ensures j <= |seps| && (j < |seps| ==> k <= seps[j])
    ensures forall i :: 0 <= i < j ==> seps[i] < k
  {
    if |seps| == 0 || k <= seps[0] then 0 else 1 + Route(seps[1..], k)
  }

  ghost predicate Placed<V>(lay: Layout<V>) {
    |lay.at| == |lay.seps| + 1 &&
    (forall j :: 0 <= j < |lay.at| ==> lay.at[j] < |lay.rows|) &&
    (forall i, j :: 0 <= i < j < |lay.at| ==> lay.at[i] < lay.at[j])
  }

  ghost predicate Divided<V>(lay: Layout<V>)
    requires Placed(lay)
  {
    (forall i, j :: 0 <= i < j < |lay.seps| ==> lay.seps[i] <= lay.seps[j]) &&
    (forall j :: 0 <= j < |lay.seps| ==> Separates(lay.rows, lay.at[j], lay.seps[j])) &&
    forall p :: 0 <= p < |lay.rows| && p !in lay.at ==> lay.rows[p] == []
  }

  /** Attached leaves are neither empty nor over full. */
  ghost predicate Sized<V>(lay: Layout<V>, degree: nat)
    requires Placed(lay)
  {
    |lay.seps| <= 2 * degree - 1 &&
    forall j :: 0 <= j < |lay.at| ==> 1 <= |lay.rows[lay.at[j]]| <= 2 * degree - 1
  }

  ghost predicate Arranged<V>(lay: Layout<V>) {
    Placed(lay) && Divided(lay) && Sorted(Flat(lay.rows))
  }

  /** What holds of the leaves of a nonempty tree between calls. */
  ghost predicate Ordered<V>(lay: Layout<V>, degree: nat) {
    Arranged(lay) && Sized(lay, degree)
  }

  ghost function Blank<V>(): Layout<V> {
    Layout([], [], [])
  }

  ghost predicate Ok<V>(lay: Layout<V>, degree: nat) {
    degree >= 2 && (lay == Blank() || Ordered(lay, degree))
  }

  /** The root is not a full internal node. */
  ghost predicate Room<V>(lay: Layout<V>, degree: nat) {
    |lay.seps| < 2 * degree - 1
  }

  // ---------- The operations on layouts ----------

  /** Places after the `j`-th move up by one, and its right half comes behind it. */
  ghost function Shift(at: seq<nat>, j: nat): (r: seq<nat>)
    requires j < |at|
    ensures |r| == |at| + 1
    ensures forall i :: 0 <= i < |r| ==> r[i] == if i <= j then at[i] else at[i - 1] + 1
  {
    seq(|at| + 1, i requires 0 <= i < |at| + 1 => if i <= j then at[i] else at[i - 1] + 1)
  }

  ghost function SplitRows<V>(rows: seq<seq<Entry<V>>>, p: nat): (r: seq<seq<Entry<V>>>)
    requires p < |rows|
    ensures |r| == |rows| + 1
    ensures forall i :: 0 <= i < |r| ==>
      (r[i] == if i < p then rows[i]
               else if i == p then rows[p][..|rows[p]| / 2]
               else if i == p + 1 then rows[p][|rows[p]| / 2..]
               else rows[i - 1])
  {
    var mid := |rows[p]| / 2;
    rows[..p] + [rows[p][..mid], rows[p][mid..]] + rows[p + 1..]
  }

  /** The `j`-th child gives its upper half to a new leaf, whose first key is promoted. */
  ghost function Split<V>(lay: Layout<V>, j: nat): Layout<V>
    requires Placed(lay) && j < |lay.at| && |lay.rows[lay.at[j]]| > 0
  {
    var row := lay.rows[lay.at[j]];
    Layout(SplitRows(lay.rows, lay.at[j]), Shift(lay.at, j), lay.seps[..j] + [row[|row| / 2].key] + lay.seps[j..])
  }

  ghost function PutAt<V>(lay: Layout<V>, j: nat, e: Entry<V>): Layout<V>
    requires Placed(lay) && j < |lay.at|
  {
    lay.(rows := lay.rows[lay.at[j] := Put(lay.rows[lay.at[j]], e)])
  }

  ghost function DropAt<V>(lay: Layout<V>, j: nat, k: int): Layout<V>
    requires Placed(lay) && j < |lay.at| && Holds(lay.rows[lay.at[j]], k)
  {
    lay.(rows := lay.rows[lay.at[j] := Drop(lay.rows[lay.at[j]], k)])
  }

  /** The root lets go of its `j`-th child and of the separator before it, or the first. */
  ghost function Detach<V>(lay: Layout<V>, j: nat): Layout<V>
    requires Placed(lay) && j < |lay.at| && |lay.at| >= 2
  {
    var s := if j > 0 then j - 1 else 0;
    Layout(lay.rows, lay.at[..j] + lay.at[j + 1..], lay.seps[..s] + lay.seps[s + 1..])
  }

  ghost function AfterInsert<V>(lay: Layout<V>, e: Entry<V>, degree: nat): Layout<V>
    requires Ok(lay, degree)
  {
    if lay == Blank() then Layout([[e]], [0], [])
    else
      var j := Route(lay.seps, e.key);
      if |lay.rows[lay.at[j]]| < 2 * degree - 1 then PutAt(lay, j, e)
      else
        SplitKeepsPlaced(lay, j);
        var half := Split(lay, j);
        PutAt(half, if e.key > half.seps[j] then j + 1 else j, e)
  }

  /** The leaf a key is sent to. */
  ghost function Routed<V>(lay: Layout<V>, k: int): seq<Entry<V>>
    requires Placed(lay)
  {
    lay.rows[lay.at[Route(lay.seps, k)]]
  }

  ghost function AfterRemove<V>(lay: Layout<V>, k: int, degree: nat): Layout<V>
    requires Ok(lay, degree)
  {
    if lay == Blank() || !Holds(Routed(lay, k), k) then lay
    else
      var j := Route(lay.seps, k);
      var less := DropAt(lay, j, k);
      if |Drop(Routed(lay, k), k)| > 0 then less
      else if |lay.at| == 1 then Blank()
      else Detach(less, j)
  }

  // ---------- Splitting ----------

  lemma SplitKeepsPlaced<V>(lay: Layout<V>, j: nat)
    requires Placed(lay) && j < |lay.at| && |lay.rows[lay.at[j]]| > 0
    ensures Placed(Split(lay, j))
  {
  }

  lemma {:induction false} SplitFlat<V>(rows: seq<seq<Entry<V>>>, p: nat)
    requires p < |rows|
    ensures Flat(SplitRows(rows, p)) == Flat(rows)
  {
    var mid := |rows[p]| / 2;
    var pair := [rows[p][..mid], rows[p][mid..]];
    FlatPair(rows[p][..mid], rows[p][mid..]);
    assert rows[p][..mid] + rows[p][mid..] == rows[p];
    FlatConcat(rows[..p] + pair, rows[p + 1..]);
    FlatConcat(rows[..p], pair);
    FlatAt(rows, p);
  }

  /** A division of the old list divides the new one, at the place it moved to. */
  lemma SplitSeparates<V>(rows: seq<seq<Entry<V>>>, p: nat, q: nat, s: int)
    requires p < |rows| && Separates(rows, q, s)
    ensures Separates(SplitRows(rows, p), if q < p then q else q + 1, s)
  {
    var r': seq<seq<Entry<V>>> := SplitRows(rows, p);
    var q' := if q < p then q else q + 1;
    forall r, i | 0 <= r < |r'| && 0 <= i < |r'[r]|
      ensures if r <= q' then r'[r][i].key <= s else s <= r'[r][i].key
    {
      var o := if r <= p then r else r - 1;
      var x := if r == p + 1 then i + |rows[p]| / 2 else i;
      assert r'[r][i] == rows[o][x];
    }
  }

  /** Entries of different leaves keep the order of the leaves. */
  lemma {:induction false} RowsInOrder<V>(rows: seq<seq<Entry<V>>>, a: nat, i: nat, b: nat, j: nat)
    requires Sorted(Flat(rows)) && a <= b < |rows| && i < |rows[a]| && j < |rows[b]| && (a == b ==> i < j)
    ensures rows[a][i].key <= rows[b][j].key
  {
    FlatAt(rows, b);
    var f := Flat(rows[..b]);
    assert Flat(rows)[|f| + j] == rows[b][j];
    if a == b {
      assert Flat(rows)[|f| + i] == rows[b][i];
    } else {
      FlatAt(rows[..b], a);
      var g := Flat(rows[..b][..a]);
      assert f[|g| + i] == rows[a][i];
      assert Flat(rows)[|g| + i] == rows[a][i];
    }
  }

  lemma RowSorted<V>(rows: seq<seq<Entry<V>>>, p: nat)
    requires p < |rows| && Sorted(Flat(rows))
    ensures Sorted(rows[p])
  {
    forall i, j | 0 <= i < j < |rows[p]| ensures rows[p][i].key <= rows[p][j].key {
      RowsInOrder(rows, p, i, p, j);
    }
  }

  /** The promoted key divides the two halves. */
  lemma {:induction false} SplitPromotes<V>(rows: seq<seq<Entry<V>>>, p: nat)
    requires Sorted(Flat(rows)) && p < |rows| && |rows[p]| > 0
    ensures Separates(SplitRows(rows, p), p, rows[p][|rows[p]| / 2].key)
  {
    SplitFlat(rows, p);
    var r': seq<seq<Entry<V>>>, s := SplitRows(rows, p), rows[p][|rows[p]| / 2].key;
    assert r'[p + 1][0].key == s;
    forall r, i | 0 <= r < |r'| && 0 <= i < |r'[r]|
      ensures if r <= p then r'[r][i].key <= s else s <= r'[r][i].key
    {
      if r <= p {
        RowsInOrder(r', r, i, p + 1, 0);
      } else if r > p + 1 || i > 0 {
        RowsInOrder(r', p + 1, 0, r, i);
      }
    }
  }

  /** The promoted key lies between the separators around its leaf. */
  lemma PromotedBetween<V>(lay: Layout<V>, j: nat, a: nat)
    requires Placed(lay) && Divided(lay) && j < |lay.at| && |lay.rows[lay.at[j]]| > 0 && a < |lay.seps|
    ensures var row := lay.rows[lay.at[j]];
            if a < j then lay.seps[a] <= row[|row| / 2].key else row[|row| / 2].key <= lay.seps[a]
  {
    assert Separates(lay.rows, lay.at[a], lay.seps[a]);
    assert a < j ==> lay.at[a] < lay.at[j];
    assert a > j ==> lay.at[j] < lay.at[a];
  }

  lemma InsertedSorted(t: seq<int>, j: nat, s: int)
    requires j <= |t| && forall a, b :: 0 <= a < b < |t| ==> t[a] <= t[b]
    requires forall a :: 0 <= a < |t| ==> if a < j then t[a] <= s else s <= t[a]
    ensures var r := t[..j] + [s] + t[j..]; forall a, b :: 0 <= a < b < |r| ==> r[a] <= r[b]
  {
    var r := t[..j] + [s] + t[j..];
    forall a | 0 <= a < |r| ensures r[a] == if a < j then t[a] else if a == j then s else t[a - 1] {
    }
  }

  lemma SplitSeps<V>(lay: Layout<V>, j: nat)
    requires Placed(lay) && Divided(lay) && j < |lay.at| && |lay.rows[lay.at[j]]| > 0
    ensures var t := Split(lay, j).seps; forall a, b :: 0 <= a < b < |t| ==> t[a] <= t[b]
  {
    var row := lay.rows[lay.at[j]];
    var s := row[|row| / 2].key;
    forall a | 0 <= a < |lay.seps| ensures if a < j then lay.seps[a] <= s else s <= lay.seps[a] {
      PromotedBetween(lay, j, a);
    }
    InsertedSorted(lay.seps, j, s);
  }

  lemma SplitDivides<V>(lay: Layout<V>, j: nat, i: nat)
    requires Placed(lay) && Divided(lay) && Sorted(Flat(lay.rows)) && j < |lay.at| && |lay.rows[lay.at[j]]| > 0
    requires i <= |lay.seps|
    ensures Separates(Split(lay, j).rows, Split(lay, j).at[i], Split(lay, j).seps[i])
  {
    hide Divided, Sorted, Flat;
    var p := lay.at[j];
    if i == j {
      SplitPromotes(lay.rows, p);
    } else {
      var o := if i < j then i else i - 1;
      assert Split(lay, j).seps[i] == lay.seps[o];
      assert o < j ==> lay.at[o] < p;
      assert o > j ==> p < lay.at[o];
      DividedAt(lay, o);
      SplitSeparates(lay.rows, p, lay.at[o], lay.seps[o]);
    }
  }

  lemma DividedAt<V>(lay: Layout<V>, o: nat)
    requires Placed(lay) && Divided(lay) && o < |lay.seps|
    ensures Separates(lay.rows, lay.at[o], lay.seps[o])
  {
  }

  lemma SplitEmpties<V>(lay: Layout<V>, j: nat, q: nat)
    requires Placed(lay) && Divided(lay) && j < |lay.at| && |lay.rows[lay.at[j]]| > 0
    requires q <= |lay.rows| && q !in Shift(lay.at, j)
    ensures SplitRows(lay.rows, lay.at[j])[q] == []
  {
    ShiftKeeps(lay.at, j, if q < lay.at[j] then q else q - 1);
  }

  lemma ShiftKeeps(at: seq<nat>, j: nat, o: int)
    requires j < |at| && forall a, b :: 0 <= a < b < |at| ==> at[a] < at[b]
    ensures at[j] in Shift(at, j) && at[j] + 1 in Shift(at, j)
    ensures o in at ==> (if o < at[j] then o else o + 1) in Shift(at, j)
  {
    var r := Shift(at, j);
    assert r[j] == at[j] && r[j + 1] == at[j] + 1;
    if o in at {
      var x :| 0 <= x < |at| && at[x] == o;
      assert r[if x < j then x else x + 1] == if x < j then o else o + 1;
    }
  }

  lemma SplitArranged<V>(lay: Layout<V>, j: nat)
    requires Arranged(lay) && j < |lay.at| && |lay.rows[lay.at[j]]| > 0
    ensures Arranged(Split(lay, j)) && Flat(Split(lay, j).rows) == Flat(lay.rows)
  {
    SplitKeepsPlaced(lay, j);
    SplitFlat(lay.rows, lay.at[j]);
    SplitSeps(lay, j);
    forall i | 0 <= i <= |lay.seps| ensures Separates(Split(lay, j).rows, Split(lay, j).at[i], Split(lay, j).seps[i]) {
      SplitDivides(lay, j, i);
    }
    forall q | 0 <= q < |Split(lay, j).rows| && q !in Split(lay, j).at ensures Split(lay, j).rows[q] == [] {
      SplitEmpties(lay, j, q);
    }
  }

  // ---------- Inserting ----------

  lemma BeforeRouted<V>(lay: Layout<V>, k: int, j: nat)
    requires Placed(lay) && Divided(lay) && j < |lay.at| && (j > 0 ==> lay.seps[j - 1] < k)
    ensures RowsBelow(lay.rows[..lay.at[j]], k)
  {
    var rows: seq<seq<Entry<V>>>, p := lay.rows, lay.at[j];
    forall r, i | 0 <= r < p && 0 <= i < |rows[r]| ensures rows[r][i].key < k {
      var x :| 0 <= x < |lay.at| && lay.at[x] == r;
      assert x <= j - 1;
      assert Separates(rows, lay.at[j - 1], lay.seps[j - 1]);
    }
  }

  lemma AfterRouted<V>(lay: Layout<V>, k: int, j: nat)
    requires Placed(lay) && Divided(lay) && j < |lay.at| && (j < |lay.seps| ==> k <= lay.seps[j])
    ensures RowsFrom(lay.rows[lay.at[j] + 1..], k)
  {
    var rows: seq<seq<Entry<V>>>, p := lay.rows, lay.at[j];
    forall r, i | p < r < |rows| && 0 <= i < |rows[r]| ensures k <= rows[r][i].key {
      var x :| 0 <= x < |lay.at| && lay.at[x] == r;
      assert j < x;
      assert Separates(rows, p, lay.seps[j]);
    }
  }

  /** Everything before the routed leaf is smaller than the key, and nothing after it is. */
  lemma RoutedAlone<V>(lay: Layout<V>, k: int, j: nat)
    requires Placed(lay) && Divided(lay) && j < |lay.at|
    requires (j > 0 ==> lay.seps[j - 1] < k) && (j < |lay.seps| ==> k <= lay.seps[j])
    ensures Below(Flat(lay.rows[..lay.at[j]]), k) && From(Flat(lay.rows[lay.at[j] + 1..]), k)
  {
    var rows, p := lay.rows, lay.at[j];
    BeforeRouted(lay, k, j);
    AfterRouted(lay, k, j);
    FlatBelow(rows[..p], k);
    FlatFrom(rows[p + 1..], k);
  }

  /** A leaf may be rewritten with its own entries and others between its bounds. */
  lemma RewriteSeparates<V>(rows: seq<seq<Entry<V>>>, p: nat, row: seq<Entry<V>>, k: int, q: nat, s: int)
    requires p < |rows| && Separates(rows, q, s)
    requires forall i :: 0 <= i < |row| ==> row[i] in rows[p] || row[i].key == k
    requires if p <= q then k <= s else s <= k
    ensures Separates(rows[p := row], q, s)
  {
    assert forall e :: e in rows[p] ==> if p <= q then e.key <= s else s <= e.key;
  }

  lemma PutMembers<V>(row: seq<Entry<V>>, e: Entry<V>)
    ensures forall i :: 0 <= i < |Put(row, e)| ==> Put(row, e)[i] in row || Put(row, e)[i].key == e.key
  {
  }

  lemma PutArranged<V>(lay: Layout<V>, j: nat, e: Entry<V>)
    requires Arranged(lay) && j < |lay.at|
    requires (j > 0 ==> lay.seps[j - 1] < e.key) && (j < |lay.seps| ==> e.key <= lay.seps[j])
    ensures Arranged(PutAt(lay, j, e)) && Flat(PutAt(lay, j, e).rows) == Put(Flat(lay.rows), e)
  {
    hide Divided, Sorted, Flat, Put;
    var rows, p := lay.rows, lay.at[j];
    PutDivided(lay, j, e);
    RoutedAlone(lay, e.key, j);
    FlatAt(rows, p);
    FlatUpdate(rows, p, Put(rows[p], e));
    PutWithin(Flat(rows[..p]), rows[p], Flat(rows[p + 1..]), e);
    PutSorted(Flat(rows), e);
  }

  lemma PutDivided<V>(lay: Layout<V>, j: nat, e: Entry<V>)
    requires Placed(lay) && Divided(lay) && j < |lay.at|
    requires (j > 0 ==> lay.seps[j - 1] < e.key) && (j < |lay.seps| ==> e.key <= lay.seps[j])
    ensures Placed(PutAt(lay, j, e)) && Divided(PutAt(lay, j, e))
  {
    hide Put, Separates;
    var rows, p, r := lay.rows, lay.at[j], PutAt(lay, j, e);
    PutMembers(rows[p], e);
    forall i | 0 <= i < |lay.seps| ensures Separates(r.rows, lay.at[i], lay.seps[i]) {
      assert if i < j then lay.seps[i] <= lay.seps[j - 1] else lay.seps[j] <= lay.seps[i];
      RewriteSeparates(rows, p, Put(rows[p], e), e.key, lay.at[i], lay.seps[i]);
    }
  }

  /** The two halves of a full leaf, and the other leaves, have room and are not empty. */
  lemma SplitSizes<V>(lay: Layout<V>, j: nat, degree: nat)
    requires Placed(lay) && Sized(lay, degree) && degree >= 2 && j < |lay.at| && |lay.rows[lay.at[j]]| == 2 * degree - 1
    ensures var half := Split(lay, j);
            Placed(half) && |half.seps| == |lay.seps| + 1 &&
            (forall i :: 0 <= i < |half.at| ==> 1 <= |half.rows[half.at[i]]| <= 2 * degree - 1) &&
            |half.rows[half.at[j]]| <= degree && |half.rows[half.at[j + 1]]| <= degree
  {
    SplitKeepsPlaced(lay, j);
    var half := Split(lay, j);
    forall i | 0 <= i < |half.at| ensures 1 <= |half.rows[half.at[i]]| <= 2 * degree - 1 {
      var o := if i <= j then i else i - 1;
      assert i != j && i != j + 1 ==> lay.at[o] != lay.at[j] && half.rows[half.at[i]] == lay.rows[lay.at[o]];
    }
  }

  /** After the split the key belongs to one of the two halves. */
  lemma SplitRoute<V>(lay: Layout<V>, k: int)
    requires Placed(lay) && |Routed(lay, k)| > 0
    ensures var j := Route(lay.seps, k);
            var seps := Split(lay, j).seps;
            var i := if k > seps[j] then j + 1 else j;
            |seps| == |lay.seps| + 1 && (i > 0 ==> seps[i - 1] < k) && (i < |seps| ==> k <= seps[i])
  {
    var j := Route(lay.seps, k);
    var seps := Split(lay, j).seps;
    assert j < |lay.seps| ==> seps[j + 1] == lay.seps[j];
    assert j > 0 ==> seps[j - 1] == lay.seps[j - 1];
  }

  lemma InsertSplit<V>(lay: Layout<V>, e: Entry<V>, degree: nat)
    requires Ordered(lay, degree) && degree >= 2 && Room(lay, degree) && |Routed(lay, e.key)| == 2 * degree - 1
    ensures Ok(AfterInsert(lay, e, degree), degree)
    ensures Flat(AfterInsert(lay, e, degree).rows) == Put(Flat(lay.rows), e)
  {
    var j := Route(lay.seps, e.key);
    hide Divided, Sorted, Flat, Put;
    SplitArranged(lay, j);
    SplitSizes(lay, j, degree);
    SplitRoute(lay, e.key);
    var half := Split(lay, j);
    var i := if e.key > half.seps[j] then j + 1 else j;
    PutArranged(half, i, e);
    PutSized(half, i, e, degree);
  }

  /** Inserting keeps the order of the leaves and puts the entry before those of the same key. */
  lemma InsertKeeps<V>(lay: Layout<V>, e: Entry<V>, degree: nat)
    requires Ok(lay, degree) && Room(lay, degree)
    ensures Ok(AfterInsert(lay, e, degree), degree)
    ensures Flat(AfterInsert(lay, e, degree).rows) == Put(Flat(lay.rows), e)
  {
    if lay == Blank() {
      FirstKeeps(e);
    } else if |Routed(lay, e.key)| < 2 * degree - 1 {
      PutArranged(lay, Route(lay.seps, e.key), e);
      PutSized(lay, Route(lay.seps, e.key), e, degree);
    } else {
      InsertSplit(lay, e, degree);
    }
  }

  lemma FirstKeeps<V>(e: Entry<V>)
    ensures Flat([[e]]) == Put<V>([], e) == [e]
  {
    assert [[e]][1..] == [];
  }

  lemma PutSized<V>(lay: Layout<V>, j: nat, e: Entry<V>, degree: nat)
    requires Placed(lay) && Sized(lay, degree) && j < |lay.at| && |lay.rows[lay.at[j]]| < 2 * degree - 1
    ensures Sized(PutAt(lay, j, e), degree)
  {
  }

  // ---------- Removing ----------

  lemma DropFlat<V>(lay: Layout<V>, k: int)
    requires Arranged(lay) && Holds(Routed(lay, k), k)
    ensures Holds(Flat(lay.rows), k)
    ensures Flat(DropAt(lay, Route(lay.seps, k), k).rows) == Drop(Flat(lay.rows), k)
  {
    var j, rows := Route(lay.seps, k), lay.rows;
    var p := lay.at[j];
    RoutedAlone(lay, k, j);
    FlatAt(rows, p);
    FlatUpdate(rows, p, Drop(rows[p], k));
    DropWithin(Flat(rows[..p]), rows[p], Flat(rows[p + 1..]), k);
  }

  lemma DropSorted<V>(es: seq<Entry<V>>, k: int)
    requires Sorted(es) && Holds(es, k)
    ensures Sorted(Drop(es, k))
  {
    hide Drop, Place;
    DropIndex(es, k);
  }

  lemma DropMembers<V>(row: seq<Entry<V>>, k: int)
    requires Holds(row, k)
    ensures forall i :: 0 <= i < |Drop(row, k)| ==> Drop(row, k)[i] in row
  {
  }

  lemma DropArranged<V>(lay: Layout<V>, k: int)
    requires Arranged(lay) && Holds(Routed(lay, k), k)
    ensures var less := DropAt(lay, Route(lay.seps, k), k);
            Arranged(less) && Holds(Flat(lay.rows), k) && Flat(less.rows) == Drop(Flat(lay.rows), k)
  {
    var j, rows := Route(lay.seps, k), lay.rows;
    var p := lay.at[j];
    var less := DropAt(lay, j, k);
    DropMembers(rows[p], k);
    DropFlat(lay, k);
    DropSorted(Flat(rows), k);
    forall i | 0 <= i < |lay.seps| ensures Separates(less.rows, lay.at[i], lay.seps[i]) {
      assert i > j ==> lay.seps[j] <= lay.seps[i] && p < lay.at[i];
      assert i < j ==> lay.at[i] < p;
      RewriteSeparates(rows, p, Drop(rows[p], k), k, lay.at[i], lay.seps[i]);
    }
  }

  lemma DetachPlaced<V>(lay: Layout<V>, j: nat)
    requires Placed(lay) && j < |lay.at| && |lay.at| >= 2
    ensures Placed(Detach(lay, j))
    ensures forall i :: 0 <= i < |Detach(lay, j).at| ==> Detach(lay, j).at[i] == lay.at[if i < j then i else i + 1]
    ensures var s := if j > 0 then j - 1 else 0;
            forall i :: 0 <= i < |Detach(lay, j).seps| ==>
              Detach(lay, j).seps[i] == lay.seps[if i < s then i else i + 1]
  {
  }

  /** An empty leaf can be let go. */
  lemma DetachArranged<V>(lay: Layout<V>, j: nat)
    requires Arranged(lay) && j < |lay.at| && |lay.at| >= 2 && lay.rows[lay.at[j]] == []
    ensures Arranged(Detach(lay, j))
  {
    DetachPlaced(lay, j);
    var r := Detach(lay, j);
    forall i | 0 <= i < |r.seps| ensures Separates(r.rows, r.at[i], r.seps[i]) {
      DetachSeparates(lay, j, i);
    }
    DetachKeeps(lay, j);
  }

  lemma DetachKeeps<V>(lay: Layout<V>, j: nat)
    requires Placed(lay) && j < |lay.at| && |lay.at| >= 2
    ensures forall p :: p in lay.at && p != lay.at[j] ==> p in Detach(lay, j).at
  {
    var at := Detach(lay, j).at;
    forall p | p in lay.at && p != lay.at[j] ensures p in at {
      var x :| 0 <= x < |lay.at| && lay.at[x] == p;
      assert at[if x < j then x else x - 1] == p;
    }
  }

  lemma DetachSeparates<V>(lay: Layout<V>, j: nat, i: nat)
    requires Placed(lay) && Divided(lay) && j < |lay.at| && |lay.at| >= 2 && lay.rows[lay.at[j]] == []
    requires i < |Detach(lay, j).seps|
    ensures Separates(lay.rows, Detach(lay, j).at[i], Detach(lay, j).seps[i])
  {
    var r, rows := Detach(lay, j), lay.rows;
    DetachPlaced(lay, j);
    var s := if j > 0 then j - 1 else 0;
    var o := if i < s then i else i + 1;
    assert r.seps[i] == lay.seps[o] && Separates(rows, lay.at[o], lay.seps[o]);
    if j > 0 && i == j - 1 {
      // the separator behind the lost leaf now follows the leaf before it
      assert r.at[i] == lay.at[j - 1] && o == j;
      forall q | lay.at[j - 1] < q <= lay.at[j] ensures rows[q] == [] {
        if q in lay.at {
          var x :| 0 <= x < |lay.at| && lay.at[x] == q;
          assert x == j;
        }
      }
    } else {
      assert r.at[i] == lay.at[o];
    }
  }

  /** Removing keeps the order of the leaves, and takes at most the first entry of the key. */
  lemma RemoveKeeps<V>(lay: Layout<V>, k: int, degree: nat)
    requires Ok(lay, degree)
    ensures Ok(AfterRemove(lay, k, degree), degree)
    ensures var hit := lay != Blank() && Holds(Routed(lay, k), k);
            (hit ==> Holds(Flat(lay.rows), k)) &&
            Flat(AfterRemove(lay, k, degree).rows) == if hit then Drop(Flat(lay.rows), k) else Flat(lay.rows)
  {
    assert Flat(Blank<V>().rows) == [];
    hide Divided, Sorted, Flat, Place, Drop;
    if lay != Blank() && Holds(Routed(lay, k), k) {
      var j := Route(lay.seps, k);
      var less := DropAt(lay, j, k);
      DropArranged(lay, k);
      DropIndex(Routed(lay, k), k);
      if |Drop(Routed(lay, k), k)| == 0 {
        if |lay.at| == 1 {
          OnlyLeaf(less);
        } else {
          DetachArranged(less, j);
          DetachSized(lay, j, k, degree);
        }
      } else {
        DropSized(lay, j, k, degree);
      }
    }
  }

  lemma DropSized<V>(lay: Layout<V>, j: nat, k: int, degree: nat)
    requires Placed(lay) && Sized(lay, degree) && j < |lay.at| && Holds(lay.rows[lay.at[j]], k)
    requires |lay.rows[lay.at[j]]| > 1
    ensures Placed(DropAt(lay, j, k)) && Sized(DropAt(lay, j, k), degree)
  {
    hide Drop, Place;
    DropIndex(lay.rows[lay.at[j]], k);
  }

  lemma DetachSized<V>(lay: Layout<V>, j: nat, k: int, degree: nat)
    requires Placed(lay) && Sized(lay, degree) && j < |lay.at| && |lay.at| >= 2 && Holds(lay.rows[lay.at[j]], k)
    ensures var r := Detach(DropAt(lay, j, k), j); Placed(r) && Sized(r, degree)
  {
    var less := DropAt(lay, j, k);
    var r := Detach(less, j);
    forall i | 0 <= i < |r.at|
      ensures r.at[i] == lay.at[if i < j then i else i + 1] && r.rows[r.at[i]] == lay.rows[r.at[i]]
    {
    }
  }

  /** When the last attached leaf is empty, so is the list. */
  lemma OnlyLeaf<V>(lay: Layout<V>)
    requires Placed(lay) && Divided(lay) && |lay.at| == 1 && lay.rows[lay.at[0]] == []
    ensures Flat(lay.rows) == []
  {
    AllEmpty(lay.rows);
  }

  lemma {:induction false} AllEmpty<V>(rows: seq<seq<Entry<V>>>)
    requires forall p :: 0 <= p < |rows| ==> rows[p] == []
    ensures Flat(rows) == []
  {
    if rows != [] { AllEmpty(rows[1..]); }
  }

  // ---------- Queries ----------

  /** A range query that starts at the routed leaf misses nothing before it. */
  lemma RangeFromRouted<V>(lay: Layout<V>, start: int, end: int, degree: nat)
    requires Ordered(lay, degree)
    ensures var p := lay.at[Route(lay.seps, start)];
            InRange(Flat(lay.rows[p..]), start, end) == InRange(Flat(lay.rows), start, end) &&
            Sorted(Flat(lay.rows[p..]))
  {
    var j, rows := Route(lay.seps, start), lay.rows;
    var p := lay.at[j];
    RoutedAlone(lay, start, j);
    FlatConcat(rows[..p], rows[p..]);
    assert rows == rows[..p] + rows[p..];
    InRangeSkip(Flat(rows[..p]), Flat(rows[p..]), start, end);
    SuffixSorted(Flat(rows[..p]), Flat(rows[p..]));
  }

  lemma SuffixSorted<V>(a: seq<Entry<V>>, b: seq<Entry<V>>)
    requires Sorted(a + b)
    ensures Sorted(b)
  {
    forall i, j | 0 <= i < j < |b| ensures b[i].key <= b[j].key {
      assert (a + b)[|a| + i] == b[i] && (a + b)[|a| + j] == b[j];
    }
  }

  /** A key that is a separator and is larger than everything left of it. */
  ghost predicate Hidden<V>(lay: Layout<V>, k: int) {
    Placed(lay) && k in lay.seps && Below(Routed(lay, k), k)
  }

  /** A lookup finds a key exactly when it is there and not hidden, and then finds its first entry. */
  lemma LookupExact<V>(lay: Layout<V>, k: int, degree: nat)
    requires Ordered(lay, degree)
    ensures Holds(Routed(lay, k), k) <==> Holds(Flat(lay.rows), k) && !Hidden(lay, k)
    ensures Holds(Routed(lay, k), k) ==>
      Routed(lay, k)[Place(Routed(lay, k), k)] == Flat(lay.rows)[Place(Flat(lay.rows), k)]
  {
    hide Flat, Place, Divided, Sorted;
    var j, rows := Route(lay.seps, k), lay.rows;
    var p := lay.at[j];
    RoutedAlone(lay, k, j);
    FlatAt(rows, p);
    if k !in lay.seps {
      RoutedBefore(lay, k, j);
    }
    HoldsWithin(Flat(rows[..p]), rows[p], Flat(rows[p + 1..]), k);
  }

  lemma HoldsWithin<V>(a: seq<Entry<V>>, b: seq<Entry<V>>, c: seq<Entry<V>>, k: int)
    requires Below(a, k) && From(c, k)
    ensures Holds(b, k) ==> Holds(a + b + c, k) && (a + b + c)[Place(a + b + c, k)] == b[Place(b, k)]
    ensures Holds(a + b + c, k) && !Holds(b, k) ==> Below(b, k) && !From(c, k + 1)
  {
    PlaceWithin(a, b, c, k);
    var w := a + b + c;
    assert w[|a| + Place(b, k)..] == b[Place(b, k)..] + c;
    if Holds(w, k) && !Holds(b, k) {
      assert w[Place(w, k)] == c[0];
    }
  }

  lemma {:induction false} RoutedBefore<V>(lay: Layout<V>, k: int, j: nat)
    requires Placed(lay) && Divided(lay) && j == Route(lay.seps, k) && k !in lay.seps
    ensures From(Flat(lay.rows[lay.at[j] + 1..]), k + 1)
  {
    var rows: seq<seq<Entry<V>>>, p := lay.rows, lay.at[j];
    forall r, i | p < r < |rows| && 0 <= i < |rows[r]| ensures k + 1 <= rows[r][i].key {
      var x :| 0 <= x < |lay.at| && lay.at[x] == r;
      assert j < x;
      assert lay.seps[j] != k && Separates(rows, p, lay.seps[j]);
    }
    FlatFrom(rows[p + 1..], k + 1);
  }

  // ---------- Runs ----------

  /** The layout after a run, as long as no insert meets a full internal root. */
  ghost function After<V>(ops: seq<Op<V>>, degree: nat): (r: Option<Layout<V>>)
    requires degree >= 2
    ensures r.Some? ==> Ok(r.value, degree)
  {
    if ops == [] then Some(Blank())
    else
      var before := After(ops[..|ops| - 1], degree);
      if before.None? then None else Step(before.value, ops[|ops| - 1], degree)
  }

  ghost function Step<V>(lay: Layout<V>, op: Op<V>, degree: nat): (r: Option<Layout<V>>)
    requires Ok(lay, degree)
    ensures r.Some? ==> Ok(r.value, degree)
  {
    match op
    case Insert(k, v) =>
      if Room(lay, degree) then
        InsertKeeps(lay, Entry(k, v), degree);
        Some(AfterInsert(lay, Entry(k, v), degree))
      else None
    case Remove(k) =>
      RemoveKeeps(lay, k, degree);
      Some(AfterRemove(lay, k, degree))
  }

  /** What one call does to the entries: a removal misses a key that is hidden, and only such a key. */
  lemma StepContents<V>(lay: Layout<V>, op: Op<V>, degree: nat)
    requires Ok(lay, degree) && (op.Insert? ==> Room(lay, degree))
    ensures var es, next := Flat(lay.rows), Flat(Step(lay, op, degree).value.rows);
            match op
            case Insert(k, v) => next == Put(es, Entry(k, v))
            case Remove(k) => next == if Holds(es, k) && !Hidden(lay, k) then Drop(es, k) else es
  {
    match op {
      case Insert(k, v) =>
        InsertKeeps(lay, Entry(k, v), degree);
      case Remove(k) =>
        RemoveKeeps(lay, k, degree);
        if lay != Blank() {
          LookupExact(lay, k, degree);
        }
    }
  }

  /**
   After every run the leaves are in order, attached or not, and no range query misses anything
   before the leaf it starts at.
   */
  lemma AlwaysOrdered<V>(ops: seq<Op<V>>, degree: nat, start: int, end: int)
    requires degree >= 2 && After(ops, degree).Some?
    ensures var lay := After(ops, degree).value;
            Sorted(Flat(lay.rows)) &&
            (lay.rows != [] ==>
               Placed(lay) &&
               InRange(Flat(lay.rows[lay.at[Route(lay.seps, start)]..]), start, end)
               == InRange(Flat(lay.rows), start, end))
  {
    var lay := After(ops, degree).value;
    if lay.rows != [] {
      RangeFromRouted(lay, start, end, degree);
    }
  }

  lemma AfterNone<V>(degree: nat)
    requires degree >= 2
    ensures After<V>([], degree) == Some(Blank())
  {
  }

  lemma AfterNext<V>(ops: seq<Op<V>>, i: nat, degree: nat)
    requires degree >= 2 && i < |ops|
    ensures var before := After(ops[..i], degree);
            After(ops[..i + 1], degree) == if before.None? then None else Step(before.value, ops[i], degree)
  {
    assert ops[..i + 1][..i] == ops[..i];
  }

  /** A run that met a full internal root stays out of reach. */
  lemma {:induction false} NoneStays<V>(ops: seq<Op<V>>, i: nat, degree: nat)
    requires degree >= 2 && i <= |ops| && After(ops[..i], degree).None?
    ensures After(ops, degree).None?
    decreases |ops| - i
  {
    if i == |ops| {
      assert ops[..i] == ops;
    } else {
      AfterNext(ops, i, degree);
      NoneStays(ops, i + 1, degree);
    }
  }

  // ---------- Four inserts into a new tree of degree two ----------

  lemma FirstInsert<V>(a: Entry<V>)
    ensures AfterInsert(Blank(), a, 2) == Layout([[a]], [0], [])
  {
  }

  lemma SecondInsert<V>(a: Entry<V>, b: Entry<V>, lay: Layout<V>)
    requires a.key < b.key && lay == Layout([[a]], [0], []) && Ok(lay, 2)
    ensures AfterInsert(lay, b, 2) == Layout([[a, b]], [0], [])
  {
    assert Place([a], b.key) == 1;
    assert Put([a], b) == [a, b];
    assert [[a]][0 := [a, b]] == [[a, b]];
  }

  lemma ThirdInsert<V>(a: Entry<V>, b: Entry<V>, c: Entry<V>, lay: Layout<V>)
    requires a.key < b.key < c.key && lay == Layout([[a, b]], [0], []) && Ok(lay, 2)
    ensures AfterInsert(lay, c, 2) == Layout([[a, b, c]], [0], [])
  {
    assert Place([a, b], c.key) == 2;
    assert Put([a, b], c) == [a, b, c];
    assert [[a, b]][0 := [a, b, c]] == [[a, b, c]];
  }

  /** The leaf is full: the second key moves to a new leaf and becomes the separator. */
  lemma FourthInsert<V>(a: Entry<V>, b: Entry<V>, c: Entry<V>, d: Entry<V>, lay: Layout<V>)
    requires a.key < b.key < c.key < d.key && lay == Layout([[a, b, c]], [0], []) && Ok(lay, 2)
    ensures AfterInsert(lay, d, 2) == Layout([[a], [b, c, d]], [0, 1], [b.key])
  {
    var rows := [[a, b, c]];
    assert rows[0][..1] == [a] && rows[0][1..] == [b, c];
    assert SplitRows(rows, 0) == [[a], [b, c]];
    assert Shift([0], 0) == [0, 1];
    assert Split(lay, 0) == Layout([[a], [b, c]], [0, 1], [b.key]);
    assert Place([b, c], d.key) == 2;
    assert Put([b, c], d) == [b, c, d];
    assert [[a], [b, c]][1 := [b, c, d]] == [[a], [b, c, d]];
  }
}
