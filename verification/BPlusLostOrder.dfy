/**
 Two runs of a tree of degree two whose last insert splits the root and leaves a stored key
 out of reach of range queries.
 */
module BPlusLostOrder {
  import opened Common
  import opened BPlusLeaves
  import opened BPlusRootSplit

  /** A query that meets a larger key first does not come to the key behind it. */
  lemma ScanMisses<V>(pre: seq<Entry<V>>, x: Entry<V>, y: Entry<V>, e: Entry<V>, post: seq<Entry<V>>)
    requires Below(pre, x.key) && x.key < e.key < y.key && Sorted(post) && (post == [] || e.key < post[0].key)
    ensures var es := pre + ([x, y, e] + post);
            !Sorted(es) && Scanned(es, x.key, e.key) == [x.value] && InRange(es, x.key, e.key) == [x.value, e.value]
  {
    var t0, t1, t2, n := [x, y, e] + post, [y, e] + post, [e] + post, |pre|;
    assert t0[1..] == t1 && t1[1..] == t2 && t2[1..] == post;
    assert (pre + t0)[n + 1] == y && (pre + t0)[n + 2] == e;
    if post != [] {
      InRangeBeyond(post, x.key, e.key);
    }
    assert InRange(t2, x.key, e.key) == [e.value];
    assert InRange(t1, x.key, e.key) == [e.value];
    assert Scanned(t1, x.key, e.key) == [];
    assert Scanned(t0, x.key, e.key) == [x.value];
    ScanSkip(pre, t0, x.key, e.key);
    InRangeSkip(pre, t0, x.key, e.key);
  }

  lemma {:induction false} ScanSkip<V>(a: seq<Entry<V>>, b: seq<Entry<V>>, start: int, end: int)
    requires Below(a, start) && start <= end
    ensures Scanned(a + b, start, end) == Scanned(b, start, end)
  {
    if |a| == 0 {
      assert a + b == b;
    } else {
      ScanSkip(a[1..], b, start, end);
      assert (a + b)[0] == a[0] && (a + b)[1..] == a[1..] + b;
    }
  }

  // ---------- A key between the promoted one and the middle ----------

  /** Seven inserts into a new tree of degree two that fill the root. */
  ghost function Filling<V>(a: Entry<V>, b: Entry<V>, c: Entry<V>, d: Entry<V>, f: Entry<V>, g: Entry<V>, h: Entry<V>)
    : seq<Op<V>>
  {
    [Insert(a.key, a.value), Insert(b.key, b.value), Insert(c.key, c.value), Insert(d.key, d.value),
     Insert(f.key, f.value), Insert(g.key, g.value), Insert(h.key, h.value)]
  }

  lemma FifthInsert<V>(a: Entry<V>, b: Entry<V>, c: Entry<V>, d: Entry<V>, f: Entry<V>, lay: Layout<V>)
    requires a.key < b.key < c.key < d.key < f.key
    requires lay == Layout([[a], [b, c, d]], [0, 1], [b.key]) && Ok(lay, 2)
    ensures AfterInsert(lay, f, 2) == Layout([[a], [b], [c, d, f]], [0, 1, 2], [b.key, c.key])
  {
    var rows := [[a], [b, c, d]];
    assert Route([b.key], f.key) == 1;
    assert rows[1][..1] == [b] && rows[1][1..] == [c, d];
    assert SplitRows(rows, 1) == [[a], [b], [c, d]];
    assert Shift([0, 1], 1) == [0, 1, 2];
    assert Split(lay, 1) == Layout([[a], [b], [c, d]], [0, 1, 2], [b.key, c.key]);
    assert Place([c, d], f.key) == 2;
    assert Put([c, d], f) == [c, d, f];
    assert [[a], [b], [c, d]][2 := [c, d, f]] == [[a], [b], [c, d, f]];
  }

  lemma SixthInsert<V>(a: Entry<V>, b: Entry<V>, c: Entry<V>, d: Entry<V>, f: Entry<V>, g: Entry<V>, lay: Layout<V>)
    requires a.key < b.key < g.key < c.key < d.key < f.key
    requires lay == Layout([[a], [b], [c, d, f]], [0, 1, 2], [b.key, c.key]) && Ok(lay, 2)
    ensures AfterInsert(lay, g, 2) == Layout([[a], [b, g], [c, d, f]], [0, 1, 2], [b.key, c.key])
  {
    assert Route([b.key, c.key], g.key) == 1;
    assert Place([b], g.key) == 1;
    assert Put([b], g) == [b, g];
    assert [[a], [b], [c, d, f]][1 := [b, g]] == [[a], [b, g], [c, d, f]];
  }

  lemma SeventhInsert<V>(a: Entry<V>, b: Entry<V>, c: Entry<V>, d: Entry<V>, f: Entry<V>, g: Entry<V>, h: Entry<V>,
                         lay: Layout<V>)
    requires a.key < b.key < g.key < c.key < d.key < f.key < h.key
    requires lay == Layout([[a], [b, g], [c, d, f]], [0, 1, 2], [b.key, c.key]) && Ok(lay, 2)
    ensures AfterInsert(lay, h, 2) == Filled(a, b, c, d, f, g, h)
  {
    var rows := [[a], [b, g], [c, d, f]];
    assert Route([b.key, c.key], h.key) == 2;
    assert rows[2][..1] == [c] && rows[2][1..] == [d, f];
    assert SplitRows(rows, 2) == [[a], [b, g], [c], [d, f]];
    assert Shift([0, 1, 2], 2) == [0, 1, 2, 3];
    assert Split(lay, 2) == Layout([[a], [b, g], [c], [d, f]], [0, 1, 2, 3], [b.key, c.key, d.key]);
    assert Place([d, f], h.key) == 2;
    assert Put([d, f], h) == [d, f, h];
    assert [[a], [b, g], [c], [d, f]][3 := [d, f, h]] == [[a], [b, g], [c], [d, f, h]];
  }

  ghost function Filled<V>(a: Entry<V>, b: Entry<V>, c: Entry<V>, d: Entry<V>, f: Entry<V>, g: Entry<V>, h: Entry<V>)
    : Layout<V>
  {
    Layout([[a], [b, g], [c], [d, f, h]], [0, 1, 2, 3], [b.key, c.key, d.key])
  }

  lemma InsertNext<V>(ops: seq<Op<V>>, i: nat, lay: Layout<V>, e: Entry<V>, degree: nat)
    requires degree >= 2 && i < |ops| && ops[i] == Insert(e.key, e.value) && Room(lay, degree)
    requires After(ops[..i], degree) == Some(lay)
    ensures Ok(lay, degree) && After(ops[..i + 1], degree) == Some(AfterInsert(lay, e, degree))
  {
    hide After, AfterInsert, Ok;
    AfterNext(ops, i, degree);
  }

  lemma FiveInserts<V>(ops: seq<Op<V>>, a: Entry<V>, b: Entry<V>, c: Entry<V>, d: Entry<V>, f: Entry<V>)
    requires a.key < b.key < c.key < d.key < f.key && |ops| >= 5
    requires ops[0] == Insert(a.key, a.value) && ops[1] == Insert(b.key, b.value) && ops[2] == Insert(c.key, c.value)
    requires ops[3] == Insert(d.key, d.value) && ops[4] == Insert(f.key, f.value)
    ensures After(ops[..5], 2) == Some(Layout([[a], [b], [c, d, f]], [0, 1, 2], [b.key, c.key]))
  {
    hide After, AfterInsert, Ok;
    AfterNone<V>(2);
    assert ops[..0] == [];
    InsertNext(ops, 0, Blank(), a, 2);
    FirstInsert(a);
    var l1 := Layout([[a]], [0], []);
    InsertNext(ops, 1, l1, b, 2);
    SecondInsert(a, b, l1);
    var l2 := Layout([[a, b]], [0], []);
    InsertNext(ops, 2, l2, c, 2);
    ThirdInsert(a, b, c, l2);
    var l3 := Layout([[a, b, c]], [0], []);
    InsertNext(ops, 3, l3, d, 2);
    FourthInsert(a, b, c, d, l3);
    var l4 := Layout([[a], [b, c, d]], [0, 1], [b.key]);
    InsertNext(ops, 4, l4, f, 2);
    FifthInsert(a, b, c, d, f, l4);
  }

  lemma FillingRun<V>(a: Entry<V>, b: Entry<V>, c: Entry<V>, d: Entry<V>, f: Entry<V>, g: Entry<V>, h: Entry<V>)
    requires a.key < b.key < g.key < c.key < d.key < f.key < h.key
    ensures After(Filling(a, b, c, d, f, g, h), 2) == Some(Filled(a, b, c, d, f, g, h))
  {
    hide After, AfterInsert, Ok;
    var ops := Filling(a, b, c, d, f, g, h);
    FiveInserts(ops, a, b, c, d, f);
    var l5 := Layout([[a], [b], [c, d, f]], [0, 1, 2], [b.key, c.key]);
    InsertNext(ops, 5, l5, g, 2);
    SixthInsert(a, b, c, d, f, g, l5);
    var l6 := Layout([[a], [b, g], [c, d, f]], [0, 1, 2], [b.key, c.key]);
    InsertNext(ops, 6, l6, h, 2);
    SeventhInsert(a, b, c, d, f, g, h, l6);
    assert ops[..7] == ops;
  }

  /** The tree after an eighth insert, of a key between the promoted one and its neighbour. */
  lemma EighthInsert<V>(a: Entry<V>, b: Entry<V>, c: Entry<V>, d: Entry<V>, f: Entry<V>, g: Entry<V>, h: Entry<V>,
                        e: Entry<V>)
    requires a.key < b.key < e.key < g.key < c.key < d.key < f.key < h.key
    requires FullRoot(Filled(a, b, c, d, f, g, h), 2)
    ensures AfterSplit(Filled(a, b, c, d, f, g, h), e, 2) ==
            Tall([[a], [b, g], [e, c], [d, f, h]], b.key, Half([], [0, 1]), Half([d.key], [2, 3]))
  {
    var lay := Filled(a, b, c, d, f, g, h);
    hide Ordered;
    assert LeftSeps(lay.seps, 2) == [] && lay.seps[2..] == [d.key];
    assert lay.at[..2] == [0, 1] && lay.at[2..] == [2, 3];
    assert Route([d.key], e.key) == 0;
    assert Place([c], e.key) == 0;
    assert Put([c], e) == [e, c];
    assert lay.rows[2 := [e, c]] == [[a], [b, g], [e, c], [d, f, h]];
  }

  /**
   For any eight such keys: the leaves are out of order, and a range query over the second
   key and the last one inserted lists only the former.
   */
  lemma OrderIsLost<V>(a: Entry<V>, b: Entry<V>, c: Entry<V>, d: Entry<V>, f: Entry<V>, g: Entry<V>, h: Entry<V>,
                       e: Entry<V>)
    requires a.key < b.key < e.key < g.key < c.key < d.key < f.key < h.key
    ensures var run := After(Filling(a, b, c, d, f, g, h), 2);
            run.Some? && FullRoot(run.value, 2) && Missed(AfterSplit(run.value, e, 2), b, e)
  {
    assert |Filled(a, b, c, d, f, g, h).seps| == 3;
    hide *;
    FillingRun(a, b, c, d, f, g, h);
    IsFull(Filling(a, b, c, d, f, g, h), Filled(a, b, c, d, f, g, h));
    EighthInsert(a, b, c, d, f, g, h, e);
    EighthMissed(a, b, c, d, f, g, h, e);
  }

  lemma EighthMissed<V>(a: Entry<V>, b: Entry<V>, c: Entry<V>, d: Entry<V>, f: Entry<V>, g: Entry<V>, h: Entry<V>,
                        e: Entry<V>)
    requires a.key < b.key < e.key < g.key < c.key < d.key < f.key < h.key
    ensures Missed(Tall([[a], [b, g], [e, c], [d, f, h]], b.key, Half([], [0, 1]), Half([d.key], [2, 3])), b, e)
  {
    hide Flat, Scanned, InRange;
    var t := Tall([[a], [b, g], [e, c], [d, f, h]], b.key, Half([], [0, 1]), Half([d.key], [2, 3]));
    assert LeafFor(t, b.key) == 0 && t.rows[0..] == t.rows;
    FlatFour([a], [b, g], [e, c], [d, f, h]);
    assert [a] + [b, g] + [e, c] + [d, f, h] == [a] + ([b, g, e] + [c, d, f, h]);
    ScanMisses([a], b, g, e, [c, d, f, h]);
  }

  /** Out of order, and a range query over two stored keys lists the first only. */
  ghost predicate Missed<V>(t: Tall<V>, x: Entry<V>, e: Entry<V>) {
    Sends(t.left, t.rows) && Sends(t.right, t.rows) && !Sorted(Flat(t.rows)) &&
    Queried(t, x.key, e.key) == [x.value] && InRange(Flat(t.rows), x.key, e.key) == [x.value, e.value]
  }

  lemma IsFull<V>(ops: seq<Op<V>>, lay: Layout<V>)
    requires After(ops, 2) == Some(lay) && |lay.seps| == 3
    ensures FullRoot(lay, 2)
  {
    hide After, Ordered;
  }

  lemma FlatFour<V>(a: seq<Entry<V>>, b: seq<Entry<V>>, c: seq<Entry<V>>, d: seq<Entry<V>>)
    ensures Flat([a, b, c, d]) == a + b + c + d
  {
    assert [a, b, c, d] == [a, b] + [c, d];
    FlatConcat([a, b], [c, d]);
    FlatPair(a, b);
    FlatPair(c, d);
    Assoc(a + b, c, d);
  }

  // ---------- A key that strays ----------

  /** Eight inserts that fill the root and its first leaf. */
  ghost function Crowding<V>(a: Entry<V>, b: Entry<V>, c: Entry<V>, d: Entry<V>, f: Entry<V>, x: Entry<V>, y: Entry<V>,
                             h: Entry<V>)
    : seq<Op<V>>
  {
    [Insert(a.key, a.value), Insert(b.key, b.value), Insert(c.key, c.value), Insert(d.key, d.value),
     Insert(f.key, f.value), Insert(x.key, x.value), Insert(y.key, y.value), Insert(h.key, h.value)]
  }

  ghost function Crowded<V>(a: Entry<V>, b: Entry<V>, c: Entry<V>, d: Entry<V>, f: Entry<V>, x: Entry<V>, y: Entry<V>,
                            h: Entry<V>)
    : Layout<V>
  {
    Layout([[a, x, y], [b], [c], [d, f, h]], [0, 1, 2, 3], [b.key, c.key, d.key])
  }

  lemma CrowdSixth<V>(a: Entry<V>, b: Entry<V>, c: Entry<V>, d: Entry<V>, f: Entry<V>, x: Entry<V>, lay: Layout<V>)
    requires a.key < x.key < b.key < c.key < d.key < f.key
    requires lay == Layout([[a], [b], [c, d, f]], [0, 1, 2], [b.key, c.key]) && Ok(lay, 2)
    ensures AfterInsert(lay, x, 2) == Layout([[a, x], [b], [c, d, f]], [0, 1, 2], [b.key, c.key])
  {
    assert Route([b.key, c.key], x.key) == 0;
    assert Place([a], x.key) == 1;
    assert Put([a], x) == [a, x];
    assert lay.rows[0 := [a, x]] == [[a, x], [b], [c, d, f]];
  }

  lemma CrowdSeventh<V>(a: Entry<V>, b: Entry<V>, c: Entry<V>, d: Entry<V>, f: Entry<V>, x: Entry<V>, y: Entry<V>,
                        lay: Layout<V>)
    requires a.key < x.key < y.key < b.key < c.key < d.key < f.key
    requires lay == Layout([[a, x], [b], [c, d, f]], [0, 1, 2], [b.key, c.key]) && Ok(lay, 2)
    ensures AfterInsert(lay, y, 2) == Layout([[a, x, y], [b], [c, d, f]], [0, 1, 2], [b.key, c.key])
  {
    assert Route([b.key, c.key], y.key) == 0;
    assert Place([a, x], y.key) == 2;
    assert Put([a, x], y) == [a, x, y];
    assert lay.rows[0 := [a, x, y]] == [[a, x, y], [b], [c, d, f]];
  }

  lemma CrowdEighth<V>(a: Entry<V>, b: Entry<V>, c: Entry<V>, d: Entry<V>, f: Entry<V>, x: Entry<V>, y: Entry<V>,
                       h: Entry<V>, lay: Layout<V>)
    requires a.key < x.key < y.key < b.key < c.key < d.key < f.key < h.key
    requires lay == Layout([[a, x, y], [b], [c, d, f]], [0, 1, 2], [b.key, c.key]) && Ok(lay, 2)
    ensures AfterInsert(lay, h, 2) == Crowded(a, b, c, d, f, x, y, h)
  {
    var rows := [[a, x, y], [b], [c, d, f]];
    assert Route([b.key, c.key], h.key) == 2;
    assert rows[2][..1] == [c] && rows[2][1..] == [d, f];
    assert SplitRows(rows, 2) == [[a, x, y], [b], [c], [d, f]];
    assert Shift([0, 1, 2], 2) == [0, 1, 2, 3];
    assert Split(lay, 2) == Layout([[a, x, y], [b], [c], [d, f]], [0, 1, 2, 3], [b.key, c.key, d.key]);
    assert Place([d, f], h.key) == 2;
    assert Put([d, f], h) == [d, f, h];
    assert [[a, x, y], [b], [c], [d, f]][3 := [d, f, h]] == [[a, x, y], [b], [c], [d, f, h]];
  }

  lemma CrowdingRun<V>(a: Entry<V>, b: Entry<V>, c: Entry<V>, d: Entry<V>, f: Entry<V>, x: Entry<V>, y: Entry<V>,
                       h: Entry<V>)
    requires a.key < x.key < y.key < b.key < c.key < d.key < f.key < h.key
    ensures After(Crowding(a, b, c, d, f, x, y, h), 2) == Some(Crowded(a, b, c, d, f, x, y, h))
  {
    hide After, AfterInsert, Ok;
    var ops := Crowding(a, b, c, d, f, x, y, h);
    FiveInserts(ops, a, b, c, d, f);
    var l5 := Layout([[a], [b], [c, d, f]], [0, 1, 2], [b.key, c.key]);
    InsertNext(ops, 5, l5, x, 2);
    CrowdSixth(a, b, c, d, f, x, l5);
    var l6 := Layout([[a, x], [b], [c, d, f]], [0, 1, 2], [b.key, c.key]);
    InsertNext(ops, 6, l6, y, 2);
    CrowdSeventh(a, b, c, d, f, x, y, l6);
    var l7 := Layout([[a, x, y], [b], [c, d, f]], [0, 1, 2], [b.key, c.key]);
    InsertNext(ops, 7, l7, h, 2);
    CrowdEighth(a, b, c, d, f, x, y, h, l7);
    assert ops[..8] == ops;
  }

  /** The new half of the first leaf is put behind the second, and the key goes into the second. */
  lemma NinthInsert<V>(a: Entry<V>, b: Entry<V>, c: Entry<V>, d: Entry<V>, f: Entry<V>, x: Entry<V>, y: Entry<V>,
                       h: Entry<V>, e: Entry<V>)
    requires a.key < x.key < e.key < y.key < b.key < c.key < d.key < f.key < h.key
    requires FullRoot(Crowded(a, b, c, d, f, x, y, h), 2)
    ensures Stray(Crowded(a, b, c, d, f, x, y, h), e.key, 2)
    ensures AfterSplit(Crowded(a, b, c, d, f, x, y, h), e, 2) ==
            Tall([[a], [x, y], [e, b], [c], [d, f, h]], b.key, Half([x.key], [0, 2, 1]), Half([d.key], [3, 4]))
  {
    var lay := Crowded(a, b, c, d, f, x, y, h);
    hide Ordered;
    assert LeftSeps(lay.seps, 2) == [] && lay.seps[2..] == [d.key];
    assert lay.at[..2] == [0, 1] && lay.at[2..] == [2, 3];
    assert lay.rows[0][..1] == [a] && lay.rows[0][1..] == [x, y];
    var r := [[a], [x, y], [b], [c], [d, f, h]];
    assert SplitRows(lay.rows, 0) == r;
    assert Bump([0, 1], 0) == [0, 2] && Bump([2, 3], 0) == [3, 4];
    assert WithChild(Half([], [0, 2]), 0, x.key, 1) == Half([x.key], [0, 2, 1]);
    assert Place([b], e.key) == 0;
    assert Put([b], e) == [e, b];
    assert r[2 := [e, b]] == [[a], [x, y], [e, b], [c], [d, f, h]];
  }

  /** For any nine such keys, the last at most the promoted one, the order is lost all the same. */
  lemma StrayIsLost<V>(a: Entry<V>, b: Entry<V>, c: Entry<V>, d: Entry<V>, f: Entry<V>, x: Entry<V>, y: Entry<V>,
                       h: Entry<V>, e: Entry<V>)
    requires a.key < x.key < e.key < y.key < b.key < c.key < d.key < f.key < h.key
    ensures var run := After(Crowding(a, b, c, d, f, x, y, h), 2);
            run.Some? && FullRoot(run.value, 2) && e.key <= Promoted(run.value.seps, 2) &&
            Missed(AfterSplit(run.value, e, 2), x, e)
  {
    assert |Crowded(a, b, c, d, f, x, y, h).seps| == 3 && Promoted(Crowded(a, b, c, d, f, x, y, h).seps, 2) == b.key;
    hide *;
    CrowdingRun(a, b, c, d, f, x, y, h);
    IsFull(Crowding(a, b, c, d, f, x, y, h), Crowded(a, b, c, d, f, x, y, h));
    NinthInsert(a, b, c, d, f, x, y, h, e);
    NinthMissed(a, b, c, d, f, x, y, h, e);
  }

  lemma NinthMissed<V>(a: Entry<V>, b: Entry<V>, c: Entry<V>, d: Entry<V>, f: Entry<V>, x: Entry<V>, y: Entry<V>,
                       h: Entry<V>, e: Entry<V>)
    requires a.key < x.key < e.key < y.key < b.key < c.key < d.key < f.key < h.key
    ensures Missed(Tall([[a], [x, y], [e, b], [c], [d, f, h]], b.key, Half([x.key], [0, 2, 1]), Half([d.key], [3, 4])),
                   x, e)
  {
    hide Flat, Scanned, InRange;
    var t := Tall([[a], [x, y], [e, b], [c], [d, f, h]], b.key, Half([x.key], [0, 2, 1]), Half([d.key], [3, 4]));
    assert LeafFor(t, x.key) == 0 && t.rows[0..] == t.rows;
    FlatFive([a], [x, y], [e, b], [c], [d, f, h]);
    assert [a] + [x, y] + [e, b] + [c] + [d, f, h] == [a] + ([x, y, e] + [b, c, d, f, h]);
    ScanMisses([a], x, y, e, [b, c, d, f, h]);
  }

  lemma FlatFive<V>(a: seq<Entry<V>>, b: seq<Entry<V>>, c: seq<Entry<V>>, d: seq<Entry<V>>, f: seq<Entry<V>>)
    ensures Flat([a, b, c, d, f]) == a + b + c + d + f
  {
    assert [a, b, c, d, f] == [a, b, c, d] + [f];
    FlatConcat([a, b, c, d], [f]);
    FlatFour(a, b, c, d);
    FlatOne(f);
  }
}
