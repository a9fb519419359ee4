/**
 The insert that splits a full internal root, on values.

 The split drops the middle separator and promotes another one, from the left half.  A key
 between the promoted and the middle one is sent to the right half, too far along the list
 of leaves.  The left half keeps one child too many for its keys, so that a leaf split in
 the last place it sends keys to has its new half put behind a child that is not its own.
 */
module BPlusRootSplit {
  import opened Common
  import opened BPlusLeaves

  /** The separators that stay with the left half: the first ones, without the promoted one. */
  ghost function LeftSeps(seps: seq<int>, degree: nat): seq<int>
    requires degree >= 2 && |seps| == 2 * degree - 1
  {
    seps[..(degree - 1) / 2] + seps[(degree - 1) / 2 + 1..degree - 1]
  }

  ghost function Promoted(seps: seq<int>, degree: nat): int
    requires degree >= 2 && |seps| == 2 * degree - 1
  {
    seps[(degree - 1) / 2]
  }

  /** The leaf a key is sent to by the new root, counted among the children of the old one. */
  ghost function Sent(seps: seq<int>, k: int, degree: nat): nat
    requires degree >= 2 && |seps| == 2 * degree - 1
  {
    if k <= Promoted(seps, degree) then Route(LeftSeps(seps, degree), k) else degree + Route(seps[degree..], k)
  }

  ghost predicate FullRoot<V>(lay: Layout<V>, degree: nat) {
    degree >= 2 && Ordered(lay, degree) && |lay.seps| == 2 * degree - 1
  }

  // ---------- The insert ----------

  /** An internal node: its keys, and the places of its children in the list of leaves. */
  datatype Half = Half(keys: seq<int>, kids: seq<nat>)

  ghost function LeftHalf<V>(lay: Layout<V>, degree: nat): Half
    requires FullRoot(lay, degree)
  {
    Half(LeftSeps(lay.seps, degree), lay.at[..degree])
  }

  ghost function RightHalf<V>(lay: Layout<V>, degree: nat): Half
    requires FullRoot(lay, degree)
  {
    Half(lay.seps[degree..], lay.at[degree..])
  }

  /** A node that can send every key on. */
  ghost predicate Sends<V>(h: Half, rows: seq<seq<Entry<V>>>) {
    |h.kids| > |h.keys| && forall i :: 0 <= i < |h.kids| ==> h.kids[i] < |rows|
  }

  /** The places after a new leaf behind `p`. */
  ghost function Bump(kids: seq<nat>, p: nat): (r: seq<nat>)
    ensures |r| == |kids| && forall i :: 0 <= i < |r| ==> r[i] == if kids[i] <= p then kids[i] else kids[i] + 1
  {
    seq(|kids|, i requires 0 <= i < |kids| => if kids[i] <= p then kids[i] else kids[i] + 1)
  }

  /** Behind the last key the child goes to the end. */
  ghost function WithChild(h: Half, idx: nat, key: int, kid: nat): Half
    requires idx <= |h.keys| < |h.kids|
  {
    if idx < |h.keys| then
      Half(h.keys[..idx] + [key] + h.keys[idx..], h.kids[..idx + 1] + [kid] + h.kids[idx + 1..])
    else
      Half(h.keys + [key], h.kids + [kid])
  }

  /** The leaves on the way of an insert, the node it goes through, the other node, and the place it comes to. */
  datatype Landing<V> = Landing(rows: seq<seq<Entry<V>>>, half: Half, other: Half, at: nat)

  /** A full leaf is split and its new half given to the node; the index then looks at the new key. */
  ghost function Land<V>(h: Half, other: Half, rows: seq<seq<Entry<V>>>, k: int, degree: nat): (r: Landing<V>)
    requires degree >= 2 && Sends(h, rows)
    ensures r.at < |r.rows|
  {
    var idx := Route(h.keys, k);
    var p := h.kids[idx];
    if |rows[p]| < 2 * degree - 1 then Landing(rows, h, other, p)
    else
      var r := SplitRows(rows, p);
      var wide := WithChild(Half(h.keys, Bump(h.kids, p)), idx, r[p + 1][0].key, p + 1);
      Landing(r, wide, Half(other.keys, Bump(other.kids, p)), wide.kids[if k > wide.keys[idx] then idx + 1 else idx])
  }

  /** The tree of three levels. */
  datatype Tall<V> = Tall(rows: seq<seq<Entry<V>>>, key: int, left: Half, right: Half)

  ghost function AfterSplit<V>(lay: Layout<V>, e: Entry<V>, degree: nat): Tall<V>
    requires FullRoot(lay, degree)
  {
    HalvesSend(lay, degree);
    var key, left, right := Promoted(lay.seps, degree), LeftHalf(lay, degree), RightHalf(lay, degree);
    if e.key <= key then
      var l := Land(left, right, lay.rows, e.key, degree);
      Tall(l.rows[l.at := Put(l.rows[l.at], e)], key, l.half, l.other)
    else
      var l := Land(right, left, lay.rows, e.key, degree);
      Tall(l.rows[l.at := Put(l.rows[l.at], e)], key, l.other, l.half)
  }

  lemma HalvesSend<V>(lay: Layout<V>, degree: nat)
    requires FullRoot(lay, degree)
    ensures Sends(LeftHalf(lay, degree), lay.rows) && Sends(RightHalf(lay, degree), lay.rows)
  {
    hide Divided, Sorted, Sized;
  }

  /** The children of the halves are those of the root, in order; the left half has two keys less than children. */
  lemma HalvesAre<V>(lay: Layout<V>, degree: nat)
    requires FullRoot(lay, degree)
    ensures var l, r := LeftHalf(lay, degree), RightHalf(lay, degree);
            |l.kids| == degree == |r.kids| && |l.keys| == degree - 2 && |r.keys| == degree - 1 &&
            Rising(l.kids) && Rising(r.kids) &&
            forall i :: 0 <= i < degree ==> l.kids[i] == lay.at[i] && r.kids[i] == lay.at[degree + i]
  {
    hide Divided, Sorted, Sized;
  }

  ghost predicate Rising(kids: seq<nat>) {
    forall i, j :: 0 <= i < j < |kids| ==> kids[i] < kids[j]
  }

  /**
   The key goes to the last leaf the left half can send it to, that leaf is full, and the
   key belongs to its upper half.
   */
  ghost predicate Stray<V>(lay: Layout<V>, k: int, degree: nat)
    requires FullRoot(lay, degree)
  {
    k <= Promoted(lay.seps, degree) && Route(LeftSeps(lay.seps, degree), k) == degree - 2 &&
    |lay.rows[lay.at[degree - 2]]| == 2 * degree - 1 && k > lay.rows[lay.at[degree - 2]][degree - 1].key
  }

  /** The child of the old root whose entries, in the list, the new entry comes to stand among. */
  ghost function Lands<V>(lay: Layout<V>, k: int, degree: nat): nat
    requires FullRoot(lay, degree)
  {
    if Stray(lay, k, degree) then degree - 1 else Sent(lay.seps, k, degree)
  }

  ghost predicate AtMost<V>(es: seq<Entry<V>>, k: int) {
    forall i :: 0 <= i < |es| ==> es[i].key <= k
  }

  // ---------- Where the key goes ----------

  /** Keys up to the promoted one are sent where the old root sent them. */
  lemma SentLeft(seps: seq<int>, k: int, degree: nat)
    requires degree >= 2 && |seps| == 2 * degree - 1 && k <= Promoted(seps, degree)
    requires forall i, j :: 0 <= i < j < |seps| ==> seps[i] <= seps[j]
    ensures Sent(seps, k, degree) == Route(seps, k)
  {
    var m, l, j := (degree - 1) / 2, LeftSeps(seps, degree), Route(seps, k);
    assert j <= m;
    assert forall i :: 0 <= i < |l| ==> l[i] == if i < m then seps[i] else seps[i + 1];
    assert j < |l| ==> k <= l[j];
  }

  /** Larger ones go to the first leaf of the right half, or beyond it to where the old root sent them. */
  lemma SentRight(seps: seq<int>, k: int, degree: nat)
    requires degree >= 2 && |seps| == 2 * degree - 1 && k > Promoted(seps, degree)
    ensures var j := Sent(seps, k, degree);
            degree <= j <= |seps| && (j > degree ==> seps[j - 1] < k) && (j < |seps| ==> k <= seps[j])
  {
    var r := seps[degree..];
    var i := Route(r, k);
    assert i > 0 ==> r[i - 1] == seps[degree + i - 1];
    assert i < |r| ==> r[i] == seps[degree + i];
  }

  // ---------- The entries afterwards ----------

  /** Halving a leaf on the way makes no difference to the entries. */
  lemma PutHalves<V>(row: seq<Entry<V>>, e: Entry<V>)
    requires Sorted(row) && |row| >= 2
    ensures var lo, hi := row[..|row| / 2], row[|row| / 2..];
            Put(row, e) == if e.key > hi[0].key then lo + Put(hi, e) else Put(lo, e) + hi
  {
    hide Put;
    var lo, hi := row[..|row| / 2], row[|row| / 2..];
    Halves(row);
    if e.key > hi[0].key {
      PutWithin(lo, hi, [], e);
      assert lo + hi + [] == row && lo + Put(hi, e) + [] == lo + Put(hi, e);
    } else {
      PutWithin([], lo, hi, e);
      assert [] + lo + hi == row && [] + Put(lo, e) + hi == Put(lo, e) + hi;
    }
  }

  lemma Halves<V>(row: seq<Entry<V>>)
    requires Sorted(row) && |row| >= 2
    ensures var lo, hi := row[..|row| / 2], row[|row| / 2..];
            lo + hi == row && AtMost(lo, hi[0].key) && From(hi, hi[0].key)
  {
    var m := |row| / 2;
    var lo, hi := row[..m], row[m..];
    assert lo + hi == row && hi[0] == row[m];
    forall i | 0 <= i < |lo| ensures lo[i].key <= hi[0].key {
      assert lo[i] == row[i];
    }
    forall i | 0 <= i < |hi| ensures hi[0].key <= hi[i].key {
      assert hi[i] == row[m + i];
    }
  }

  /** Where an insert through one node ends. */
  lemma LandCases<V>(h: Half, other: Half, rows: seq<seq<Entry<V>>>, k: int, degree: nat)
    requires degree >= 2 && Sends(h, rows) && Rising(h.kids)
    ensures var idx, l := Route(h.keys, k), Land(h, other, rows, k, degree);
            var p := h.kids[idx];
            if |rows[p]| < 2 * degree - 1 then l.rows == rows && l.at == p
            else
              l.rows == SplitRows(rows, p) &&
              l.at == if k <= rows[p][|rows[p]| / 2].key then p
                      else if idx == |h.keys| && idx + 1 < |h.kids| then h.kids[idx + 1] + 1
                      else p + 1
  {
    var idx := Route(h.keys, k);
    var p := h.kids[idx];
    if |rows[p]| >= 2 * degree - 1 {
      var r: seq<seq<Entry<V>>>, kids := SplitRows(rows, p), Bump(h.kids, p);
      var wide: Half := WithChild(Half(h.keys, kids), idx, r[p + 1][0].key, p + 1);
      assert r[p + 1][0] == rows[p][|rows[p]| / 2];
      assert wide.keys[idx] == r[p + 1][0].key && wide.kids[idx] == p;
      assert idx + 1 < |h.kids| ==> h.kids[idx + 1] > p;
      assert wide.kids[idx + 1] ==
        if idx == |h.keys| && idx + 1 < |h.kids| then h.kids[idx + 1] + 1 else p + 1;
    }
  }

  /** The place in the list that an entry comes to, once its leaf `p` is split or has room. */
  ghost predicate LandsAt<V>(l: Landing<V>, rows: seq<seq<Entry<V>>>, k: int, degree: nat, p: nat, beyond: nat)
    requires p < |rows|
  {
    if |rows[p]| < 2 * degree - 1 then l.rows == rows && l.at == p
    else
      |rows[p]| > 0 && l.rows == SplitRows(rows, p) &&
      l.at == if k <= rows[p][|rows[p]| / 2].key then p else beyond
  }

  lemma LeftLands<V>(lay: Layout<V>, k: int, degree: nat)
    requires FullRoot(lay, degree) && k <= Promoted(lay.seps, degree) && Sent(lay.seps, k, degree) < |lay.at|
    requires Sends(LeftHalf(lay, degree), lay.rows)
    ensures var p := lay.at[Sent(lay.seps, k, degree)];
            var l := Land(LeftHalf(lay, degree), RightHalf(lay, degree), lay.rows, k, degree);
            LandsAt(l, lay.rows, k, degree, p,
                    if Sent(lay.seps, k, degree) == degree - 2 then lay.at[degree - 1] + 1 else p + 1)
  {
    SizesFit(lay, degree);
    SentIs(lay, k, degree);
    hide Ordered, Land, SplitRows, LeftHalf, RightHalf, LeftSeps, Rising, Sent, Sends;
    HalvesAre(lay, degree);
    LandCases(LeftHalf(lay, degree), RightHalf(lay, degree), lay.rows, k, degree);
  }

  lemma Middle(degree: nat)
    requires degree >= 1
    ensures (2 * degree - 1) / 2 == degree - 1
  {
  }

  lemma SizesFit<V>(lay: Layout<V>, degree: nat)
    requires FullRoot(lay, degree)
    ensures |lay.at| == 2 * degree
    ensures forall j :: 0 <= j < |lay.at| ==> lay.at[j] < |lay.rows| && 1 <= |lay.rows[lay.at[j]]| <= 2 * degree - 1
  {
    hide Divided, Sorted;
  }

  lemma SentIs<V>(lay: Layout<V>, k: int, degree: nat)
    requires FullRoot(lay, degree)
    ensures Sent(lay.seps, k, degree) ==
            if k <= Promoted(lay.seps, degree) then Route(LeftHalf(lay, degree).keys, k)
            else degree + Route(RightHalf(lay, degree).keys, k)
    ensures k <= Promoted(lay.seps, degree) ==> Sent(lay.seps, k, degree) == Route(LeftSeps(lay.seps, degree), k)
  {
  }

  lemma RightLands<V>(lay: Layout<V>, k: int, degree: nat)
    requires FullRoot(lay, degree) && k > Promoted(lay.seps, degree) && Sent(lay.seps, k, degree) < |lay.at|
    requires Sends(RightHalf(lay, degree), lay.rows)
    ensures var p := lay.at[Sent(lay.seps, k, degree)];
            var l := Land(RightHalf(lay, degree), LeftHalf(lay, degree), lay.rows, k, degree);
            LandsAt(l, lay.rows, k, degree, p, p + 1)
  {
    SizesFit(lay, degree);
    SentIs(lay, k, degree);
    hide Ordered, Land, SplitRows, LeftHalf, RightHalf, LeftSeps, Rising, Sent, Sends;
    HalvesAre(lay, degree);
    LandCases(RightHalf(lay, degree), LeftHalf(lay, degree), lay.rows, k, degree);
  }

  /** The entry stands among those of one child of the old root, and nothing else has changed. */
  lemma FlatAfter<V>(lay: Layout<V>, e: Entry<V>, degree: nat)
    requires FullRoot(lay, degree)
    ensures Lands(lay, e.key, degree) < |lay.at|
    ensures var p := lay.at[Lands(lay, e.key, degree)];
            Flat(AfterSplit(lay, e, degree).rows) ==
              Flat(lay.rows[..p]) + Put(lay.rows[p], e) + Flat(lay.rows[p + 1..])
  {
    hide Flat, Put, Sent, Ordered, Land, LeftHalf, RightHalf, Sends, LandsAt, Promoted, AfterSplit, Stray, LeftSeps;
    SentWhere(lay, e.key, degree);
    HalvesSend(lay, degree);
    SizesFit(lay, degree);
    SplitRowsAfter(lay, e, degree);
    StrayIff(lay, e.key, degree);
    var rows, k, p := lay.rows, e.key, lay.at[Sent(lay.seps, e.key, degree)];
    IsSorted(lay, degree);
    if k > Promoted(lay.seps, degree) {
      RightLands(lay, k, degree);
      LandedFlat(Land(RightHalf(lay, degree), LeftHalf(lay, degree), rows, k, degree), rows, e, degree, p);
    } else {
      LeftLands(lay, k, degree);
      var l := Land(LeftHalf(lay, degree), RightHalf(lay, degree), rows, k, degree);
      if Stray(lay, k, degree) {
        StrayFits(lay, k, degree);
        StrayFlat(l, rows, e, degree, p, lay.at[degree - 1]);
      } else {
        LandsHere(l, rows, k, degree, p,
                  if Sent(lay.seps, k, degree) == degree - 2 then lay.at[degree - 1] + 1 else p + 1);
        LandedFlat(l, rows, e, degree, p);
      }
    }
  }

  lemma IsSorted<V>(lay: Layout<V>, degree: nat)
    requires FullRoot(lay, degree)
    ensures Sorted(Flat(lay.rows))
  {
  }

  lemma SplitRowsAfter<V>(lay: Layout<V>, e: Entry<V>, degree: nat)
    requires FullRoot(lay, degree)
    ensures Sends(LeftHalf(lay, degree), lay.rows) && Sends(RightHalf(lay, degree), lay.rows)
    ensures var l := if e.key <= Promoted(lay.seps, degree)
                     then Land(LeftHalf(lay, degree), RightHalf(lay, degree), lay.rows, e.key, degree)
                     else Land(RightHalf(lay, degree), LeftHalf(lay, degree), lay.rows, e.key, degree);
            AfterSplit(lay, e, degree).rows == l.rows[l.at := Put(l.rows[l.at], e)]
  {
    hide Put, Ordered, Land, LeftHalf, RightHalf, Sends, Promoted;
    HalvesSend(lay, degree);
  }

  lemma StrayIff<V>(lay: Layout<V>, k: int, degree: nat)
    requires FullRoot(lay, degree)
    ensures |lay.at| == 2 * degree && lay.at[degree - 2] < |lay.rows|
    ensures var row := lay.rows[lay.at[degree - 2]];
            Stray(lay, k, degree) <==>
            k <= Promoted(lay.seps, degree) && Sent(lay.seps, k, degree) == degree - 2 &&
            |row| >= 2 * degree - 1 && k > row[|row| / 2].key
  {
    hide Ordered, LeftHalf, RightHalf, Sent, LeftSeps, Promoted;
    SizesFit(lay, degree);
    SentIs(lay, k, degree);
    Middle(degree);
  }

  /** A leaf that has room, or keeps the entry in its lower half, is not left. */
  lemma LandsHere<V>(l: Landing<V>, rows: seq<seq<Entry<V>>>, k: int, degree: nat, p: nat, beyond: nat)
    requires p < |rows| && |rows[p]| > 0
    requires |rows[p]| < 2 * degree - 1 || k <= rows[p][|rows[p]| / 2].key || beyond == p + 1
    requires LandsAt(l, rows, k, degree, p, beyond)
    ensures LandsAt(l, rows, k, degree, p, p + 1)
  {
  }

  /** An entry put into the leaf it was sent to, or the right one of its halves. */
  lemma LandedFlat<V>(l: Landing<V>, rows: seq<seq<Entry<V>>>, e: Entry<V>, degree: nat, p: nat)
    requires degree >= 2 && p < |rows| && Sorted(Flat(rows)) && LandsAt(l, rows, e.key, degree, p, p + 1)
    ensures l.at < |l.rows|
    ensures Flat(l.rows[l.at := Put(l.rows[l.at], e)]) == Flat(rows[..p]) + Put(rows[p], e) + Flat(rows[p + 1..])
  {
    hide Flat, Put;
    if |rows[p]| < 2 * degree - 1 {
      FlatUpdate(rows, p, Put(rows[p], e));
    } else {
      RowSorted(rows, p);
      PutHalves(rows[p], e);
      SplitPutFlat(rows, p, e);
    }
  }

  lemma StrayFits<V>(lay: Layout<V>, k: int, degree: nat)
    requires FullRoot(lay, degree) && Stray(lay, k, degree)
    ensures Sent(lay.seps, k, degree) == degree - 2 && lay.at[degree - 2] < lay.at[degree - 1] < |lay.rows|
    ensures var row := lay.rows[lay.at[degree - 2]]; |row| == 2 * degree - 1 && k > row[|row| / 2].key
  {
    Middle(degree);
    hide Divided, Sorted, Sized;
  }

  /** An entry put into a leaf behind one that is split. */
  lemma StrayFlat<V>(l: Landing<V>, rows: seq<seq<Entry<V>>>, e: Entry<V>, degree: nat, p: nat, x: nat)
    requires p < x < |rows| && |rows[p]| >= 2 * degree - 1 && |rows[p]| > 0 && e.key > rows[p][|rows[p]| / 2].key
    requires LandsAt(l, rows, e.key, degree, p, x + 1)
    ensures l.at < |l.rows|
    ensures Flat(l.rows[l.at := Put(l.rows[l.at], e)]) == Flat(rows[..x]) + Put(rows[x], e) + Flat(rows[x + 1..])
  {
    hide Flat, Put;
    var r := SplitRows(rows, p);
    assert r[x + 1] == rows[x] && r[x + 2..] == rows[x + 1..];
    assert r[..x + 1] == SplitRows(rows[..x], p);
    SplitFlat(rows[..x], p);
    FlatUpdate(r, x + 1, Put(rows[x], e));
  }

  lemma SplitPutFlat<V>(rows: seq<seq<Entry<V>>>, p: nat, e: Entry<V>)
    requires p < |rows| && |rows[p]| >= 2
    ensures var r, lo, hi := SplitRows(rows, p), rows[p][..|rows[p]| / 2], rows[p][|rows[p]| / 2..];
            var q := if e.key > hi[0].key then p + 1 else p;
            Flat(r[q := Put(r[q], e)]) ==
              Flat(rows[..p]) + (if e.key > hi[0].key then lo + Put(hi, e) else Put(lo, e) + hi) + Flat(rows[p + 1..])
  {
    hide Flat, Put;
    var lo, hi := rows[p][..|rows[p]| / 2], rows[p][|rows[p]| / 2..];
    var r := SplitRows(rows, p);
    var x, y := if e.key > hi[0].key then lo else Put(lo, e), if e.key > hi[0].key then Put(hi, e) else hi;
    var q := if e.key > hi[0].key then p + 1 else p;
    assert r[q := Put(r[q], e)] == rows[..p] + [x, y] + rows[p + 1..];
    FlatConcat(rows[..p] + [x, y], rows[p + 1..]);
    FlatConcat(rows[..p], [x, y]);
    FlatPair(x, y);
  }

  /** An entry keeps the order exactly if nothing before its leaf is larger and nothing behind is smaller. */
  lemma SortedAround<V>(a: seq<Entry<V>>, b: seq<Entry<V>>, c: seq<Entry<V>>, e: Entry<V>)
    requires Sorted(a + b + c) && From(c, e.key)
    ensures Sorted(a + Put(b, e) + c) <==> AtMost(a, e.key)
  {
    PutIndex(b, e);
    hide Put;
    var i, w, v := Place(b, e.key), a + Put(b, e) + c, a + b + c;
    var at := |a| + i;
    forall j | 0 <= j < |w| ensures w[j] == if j < at then v[j] else if j == at then e else v[j - 1] {
    }
    if AtMost(a, e.key) {
      forall j | 0 <= j < at ensures v[j].key <= e.key {
        assert v[j] == if j < |a| then a[j] else b[j - |a|];
      }
      forall j | at <= j < |v| ensures e.key <= v[j].key {
        if i < |b| {
          assert v[at] == b[i];
        } else {
          assert v[j] == c[j - at];
        }
      }
      InsertedOrder(v, w, at, e);
    } else {
      var j :| 0 <= j < |a| && a[j].key > e.key;
      assert w[j] == a[j] && w[at] == e;
    }
  }

  lemma InsertedOrder<V>(v: seq<Entry<V>>, w: seq<Entry<V>>, at: nat, e: Entry<V>)
    requires Sorted(v) && at <= |v| && |w| == |v| + 1
    requires forall j {:trigger w[j]} :: 0 <= j < |w| ==>
      (w[j] == if j < at then v[j] else if j == at then e else v[j - 1])
    requires forall j :: 0 <= j < |v| ==> (if j < at then v[j].key <= e.key else e.key <= v[j].key)
    ensures Sorted(w)
  {
    forall x, y | 0 <= x < y < |w| ensures w[x].key <= w[y].key {
      assert w[x] == if x < at then v[x] else if x == at then e else v[x - 1];
      assert w[y] == if y < at then v[y] else if y == at then e else v[y - 1];
    }
  }

  /**
   An insert that splits the root keeps the leaves in order if and only if its key is at
   least as large as everything in the left half, or is at most the promoted one and, should
   it stray, at least as large as everything in the leaf it was sent to.
   */
  lemma SplitOrder<V>(lay: Layout<V>, e: Entry<V>, degree: nat)
    requires FullRoot(lay, degree)
    ensures Sorted(Flat(AfterSplit(lay, e, degree).rows)) <==>
            (e.key <= Promoted(lay.seps, degree) &&
             (Stray(lay, e.key, degree) ==> AtMost(lay.rows[lay.at[degree - 2]], e.key))) ||
            AtMost(Flat(lay.rows[..lay.at[degree]]), e.key)
  {
    hide *;
    FlatAfter(lay, e, degree);
    LandsOrder(lay, e, degree);
    if Stray(lay, e.key, degree) {
      StrayBefore(lay, e.key, degree);
    } else {
      SentBefore(lay, e.key, degree);
    }
  }

  /** With more than three children to a half no key strays. */
  lemma StraysAreSmall<V>(lay: Layout<V>, k: int, degree: nat)
    requires FullRoot(lay, degree) && Stray(lay, k, degree)
    ensures degree <= 3 && lay.seps[degree - 2] == Promoted(lay.seps, degree)
  {
    SentLeft(lay.seps, k, degree);
  }

  lemma LandsOrder<V>(lay: Layout<V>, e: Entry<V>, degree: nat)
    requires FullRoot(lay, degree) && Lands(lay, e.key, degree) < |lay.at|
    ensures Sorted(Flat(AfterSplit(lay, e, degree).rows)) <==>
            AtMost(Flat(lay.rows[..lay.at[Lands(lay, e.key, degree)]]), e.key)
  {
    hide Flat, Put, Sorted, Ordered, Lands, AfterSplit, From, AtMost;
    SizesFit(lay, degree);
    IsSorted(lay, degree);
    AfterLands(lay, e.key, degree);
    var p := lay.at[Lands(lay, e.key, degree)];
    FlatAfter(lay, e, degree);
    FlatAt(lay.rows, p);
    SortedAround(Flat(lay.rows[..p]), lay.rows[p], Flat(lay.rows[p + 1..]), e);
  }

  lemma AfterLands<V>(lay: Layout<V>, k: int, degree: nat)
    requires FullRoot(lay, degree) && Lands(lay, k, degree) < |lay.at|
    ensures lay.at[Lands(lay, k, degree)] < |lay.rows|
    ensures From(Flat(lay.rows[lay.at[Lands(lay, k, degree)] + 1..]), k)
  {
    hide Flat, Lands, From, Divided, Sorted, Sized;
    LandsBelow(lay, k, degree);
    AfterSent(lay, k, Lands(lay, k, degree));
  }

  lemma LandsBelow<V>(lay: Layout<V>, k: int, degree: nat)
    requires FullRoot(lay, degree) && Lands(lay, k, degree) < |lay.at|
    ensures var j := Lands(lay, k, degree); j < |lay.seps| ==> k <= lay.seps[j]
  {
    SentWhere(lay, k, degree);
  }

  lemma SentBefore<V>(lay: Layout<V>, k: int, degree: nat)
    requires FullRoot(lay, degree) && !Stray(lay, k, degree) && Lands(lay, k, degree) < |lay.at|
    ensures AtMost(Flat(lay.rows[..lay.at[Lands(lay, k, degree)]]), k) <==>
            k <= Promoted(lay.seps, degree) || AtMost(Flat(lay.rows[..lay.at[degree]]), k)
  {
    hide Flat, Sorted, Divided, Sent, Below, AtMost, Stray;
    SentWhere(lay, k, degree);
    var j := Sent(lay.seps, k, degree);
    if k <= Promoted(lay.seps, degree) || j > degree {
      BeforeSent(lay, k, j);
      BelowIsAtMost(Flat(lay.rows[..lay.at[j]]), k);
      if j > degree {
        PrefixAtMost(lay.rows, lay.at[degree], lay.at[j], k);
      }
    }
  }

  /** What stands before a stray entry: the leaf it was sent to, and smaller keys. */
  lemma StrayBefore<V>(lay: Layout<V>, k: int, degree: nat)
    requires FullRoot(lay, degree) && Stray(lay, k, degree) && Lands(lay, k, degree) < |lay.at|
    ensures k <= Promoted(lay.seps, degree)
    ensures AtMost(Flat(lay.rows[..lay.at[Lands(lay, k, degree)]]), k) <==> AtMost(lay.rows[lay.at[degree - 2]], k)
    ensures AtMost(Flat(lay.rows[..lay.at[degree]]), k) ==> AtMost(lay.rows[lay.at[degree - 2]], k)
  {
    SentWhere(lay, k, degree);
    hide Flat, Sorted, Divided, Sent, Below, AtMost;
    var rows, p, x := lay.rows, lay.at[degree - 2], lay.at[degree - 1];
    FlatUpTo(lay, degree - 2);
    BeforeSent(lay, k, degree - 2);
    BelowIsAtMost(Flat(rows[..p]), k);
    JoinAtMost(Flat(rows[..p]), rows[p], k);
    if AtMost(Flat(rows[..lay.at[degree]]), k) {
      PrefixAtMost(rows, x, lay.at[degree], k);
    }
  }

  lemma JoinAtMost<V>(a: seq<Entry<V>>, b: seq<Entry<V>>, k: int)
    requires AtMost(a, k)
    ensures AtMost(a + b, k) <==> AtMost(b, k)
  {
    var w := a + b;
    assert forall i :: 0 <= i < |b| ==> w[|a| + i] == b[i];
  }

  /** The leaves between two neighbouring children are empty. */
  lemma NothingBetween<V>(lay: Layout<V>, j: nat)
    requires Placed(lay) && Divided(lay) && j + 1 < |lay.at|
    ensures forall q :: lay.at[j] < q < lay.at[j + 1] ==> lay.rows[q] == []
  {
    assert forall x :: 0 <= x < |lay.at| ==> lay.at[x] <= lay.at[j] || lay.at[j + 1] <= lay.at[x];
  }

  /** Up to the next child the list has the entries before a child and those of the child. */
  lemma FlatUpTo<V>(lay: Layout<V>, j: nat)
    requires Placed(lay) && Divided(lay) && j + 1 < |lay.at|
    ensures lay.at[j] < lay.at[j + 1] < |lay.rows|
    ensures Flat(lay.rows[..lay.at[j + 1]]) == Flat(lay.rows[..lay.at[j]]) + lay.rows[lay.at[j]]
  {
    NothingBetween(lay, j);
    hide Flat, Divided;
    var rows, p, x := lay.rows, lay.at[j], lay.at[j + 1];
    assert rows[..x] == rows[..p] + rows[p..x] && rows[p..x][0] == rows[p];
    assert rows[p..x][1..] == rows[p + 1..x];
    FlatConcat(rows[..p], rows[p..x]);
    FlatHead(rows[p..x]);
    AllEmpty(rows[p + 1..x]);
    assert rows[p] + [] == rows[p];
  }

  lemma SentWhere<V>(lay: Layout<V>, k: int, degree: nat)
    requires FullRoot(lay, degree)
    ensures var j := Sent(lay.seps, k, degree);
            j < |lay.at| && (j < |lay.seps| ==> k <= lay.seps[j]) &&
            (k <= Promoted(lay.seps, degree) ==> (j > 0 ==> lay.seps[j - 1] < k)) &&
            (k > Promoted(lay.seps, degree) ==> j >= degree && (j > degree ==> lay.seps[j - 1] < k))
  {
    if k <= Promoted(lay.seps, degree) {
      SentLeft(lay.seps, k, degree);
    } else {
      SentRight(lay.seps, k, degree);
    }
  }

  lemma AfterSent<V>(lay: Layout<V>, k: int, j: nat)
    requires Placed(lay) && Divided(lay) && j < |lay.at| && (j < |lay.seps| ==> k <= lay.seps[j])
    ensures From(Flat(lay.rows[lay.at[j] + 1..]), k)
  {
    AfterRouted(lay, k, j);
    FlatFrom(lay.rows[lay.at[j] + 1..], k);
  }

  lemma BeforeSent<V>(lay: Layout<V>, k: int, j: nat)
    requires Placed(lay) && Divided(lay) && j < |lay.at| && (j > 0 ==> lay.seps[j - 1] < k)
    ensures Below(Flat(lay.rows[..lay.at[j]]), k)
  {
    BeforeRouted(lay, k, j);
    FlatBelow(lay.rows[..lay.at[j]], k);
  }

  lemma BelowIsAtMost<V>(es: seq<Entry<V>>, k: int)
    requires Below(es, k)
    ensures AtMost(es, k)
  {
  }

  lemma PrefixAtMost<V>(rows: seq<seq<Entry<V>>>, p: nat, q: nat, k: int)
    requires p <= q <= |rows| && AtMost(Flat(rows[..q]), k)
    ensures AtMost(Flat(rows[..p]), k)
  {
    hide Flat;
    assert rows[..q] == rows[..p] + rows[p..q];
    FlatConcat(rows[..p], rows[p..q]);
    var f, g := Flat(rows[..p]), Flat(rows[p..q]);
    assert forall i :: 0 <= i < |f| ==> (f + g)[i] == f[i];
  }

  // ---------- Range queries ----------

  /** The leaf that a lookup in the tree of three levels comes to. */
  ghost function LeafFor<V>(t: Tall<V>, k: int): nat
    requires Sends(t.left, t.rows) && Sends(t.right, t.rows)
  {
    var h := if k <= t.key then t.left else t.right;
    h.kids[Route(h.keys, k)]
  }

  ghost function Queried<V>(t: Tall<V>, start: int, end: int): seq<V>
    requires Sends(t.left, t.rows) && Sends(t.right, t.rows)
  {
    Scanned(Flat(t.rows[LeafFor(t, start)..]), start, end)
  }
}
