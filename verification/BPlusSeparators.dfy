/**
 What becomes of a promoted key.

 As long as no key is inserted while it is stored, every separator is the first key of the
 leaf behind it.  A lookup goes left on equality, so a separator is stored and never found,
 and never removed.
 */
module BPlusSeparators {
  import opened Common
  import opened BPlusLeaves

  ghost predicate Strict<V>(es: seq<Entry<V>>) {
    forall i, j :: 0 <= i < j < |es| ==> es[i].key < es[j].key
  }

  ghost predicate FirstIs<V>(row: seq<Entry<V>>, k: int) {
    |row| > 0 && row[0].key == k
  }

  /** The separator is the first key of the child behind it. */
  ghost predicate Leads<V>(lay: Layout<V>, j: nat)
    requires Placed(lay) && j < |lay.seps|
  {
    FirstIs(lay.rows[lay.at[j + 1]], lay.seps[j])
  }

  ghost predicate Keyed<V>(lay: Layout<V>)
    requires Placed(lay)
  {
    forall j :: 0 <= j < |lay.seps| ==> Leads(lay, j)
  }

  ghost predicate Unique<V>(lay: Layout<V>) {
    lay == Blank() || (Placed(lay) && Keyed(lay) && Strict(Flat(lay.rows)))
  }

  /** A lookup finds the key. */
  ghost predicate Found<V>(lay: Layout<V>, k: int) {
    Placed(lay) && Holds(Routed(lay, k), k)
  }

  // ---------- What a call keeps ----------

  lemma PutStrict<V>(es: seq<Entry<V>>, e: Entry<V>)
    requires Strict(es) && !Holds(es, e.key)
    ensures Strict(Put(es, e))
  {
    hide Put;
    PutIndex(es, e);
    var i, r := Place(es, e.key), Put(es, e);
    assert i < |es| ==> e.key < es[i].key;
    forall a, b | 0 <= a < b < |r| ensures r[a].key < r[b].key {
      assert r[a] == if a < i then es[a] else if a == i then e else es[a - 1];
      assert r[b] == if b < i then es[b] else if b == i then e else es[b - 1];
      assert i < b - 1 ==> es[i].key < es[b - 1].key;
    }
  }

  lemma DropStrict<V>(es: seq<Entry<V>>, k: int)
    requires Strict(es) && Holds(es, k)
    ensures Strict(Drop(es, k))
  {
    hide Drop, Place;
    DropIndex(es, k);
  }

  /** A key larger than the separator goes behind the first entry of the leaf. */
  lemma PutKeyed<V>(lay: Layout<V>, j: nat, e: Entry<V>)
    requires Placed(lay) && Keyed(lay) && j < |lay.at| && (j > 0 ==> lay.seps[j - 1] < e.key)
    ensures Placed(PutAt(lay, j, e)) && Keyed(PutAt(lay, j, e))
  {
    var p, r := lay.at[j], PutAt(lay, j, e);
    forall i | 0 <= i < |lay.seps| ensures Leads(r, i) {
      assert Leads(lay, i);
      if i + 1 == j {
        assert Place(lay.rows[p], e.key) > 0;
        assert Put(lay.rows[p], e)[0] == lay.rows[p][0];
      } else {
        assert lay.at[i + 1] != p;
      }
    }
  }

  lemma SplitKeyed<V>(lay: Layout<V>, j: nat)
    requires Placed(lay) && Keyed(lay) && j < |lay.at| && |lay.rows[lay.at[j]]| >= 2
    ensures Placed(Split(lay, j)) && Keyed(Split(lay, j))
  {
    SplitKeepsPlaced(lay, j);
    var r := Split(lay, j);
    forall i | 0 <= i < |r.seps| ensures Leads(r, i) {
      SplitFirst(lay, j, i);
    }
  }

  lemma SplitFirst<V>(lay: Layout<V>, j: nat, i: nat)
    requires Placed(lay) && Keyed(lay) && j < |lay.at| && |lay.rows[lay.at[j]]| >= 2 && i <= |lay.seps|
    ensures var r := Split(lay, j);
            r.at[i + 1] < |r.rows| && FirstIs(r.rows[r.at[i + 1]], r.seps[i])
  {
    var p, r := lay.at[j], Split(lay, j);
    if i < j {
      assert Leads(lay, i);
      assert r.seps[i] == lay.seps[i] && r.at[i + 1] == lay.at[i + 1] <= p;
    } else if i > j {
      assert Leads(lay, i - 1);
      assert r.seps[i] == lay.seps[i - 1] && r.at[i + 1] == lay.at[i] + 1 && lay.at[i] > p;
    } else {
      assert r.at[i + 1] == p + 1;
    }
  }

  /** Behind a separator the first entry is not the one that a removal takes. */
  lemma DropKeyed<V>(lay: Layout<V>, k: int)
    requires Placed(lay) && Keyed(lay) && Holds(Routed(lay, k), k)
    ensures var less := DropAt(lay, Route(lay.seps, k), k); Placed(less) && Keyed(less)
    ensures Route(lay.seps, k) > 0 ==> |Drop(Routed(lay, k), k)| > 0
  {
    var j := Route(lay.seps, k);
    var p, r := lay.at[j], DropAt(lay, j, k);
    if j > 0 {
      assert Leads(lay, j - 1);
      assert Place(lay.rows[p], k) > 0;
      assert Drop(lay.rows[p], k)[0] == lay.rows[p][0];
    }
    forall i | 0 <= i < |lay.seps| ensures Leads(r, i) {
      assert Leads(lay, i);
      assert i + 1 != j ==> lay.at[i + 1] != p;
    }
  }

  lemma DetachKeyed<V>(lay: Layout<V>)
    requires Placed(lay) && Keyed(lay) && |lay.at| >= 2
    ensures Placed(Detach(lay, 0)) && Keyed(Detach(lay, 0))
  {
    DetachPlaced(lay, 0);
    var r := Detach(lay, 0);
    forall i | 0 <= i < |r.seps| ensures Leads(r, i) {
      assert Leads(lay, i + 1);
      assert r.at[i + 1] == lay.at[i + 2] && r.seps[i] == lay.seps[i + 1];
    }
  }

  /** Inserting a key that is not stored. */
  lemma InsertUnique<V>(lay: Layout<V>, e: Entry<V>, degree: nat)
    requires Ok(lay, degree) && Room(lay, degree) && Unique(lay) && !Holds(Flat(lay.rows), e.key)
    ensures Unique(AfterInsert(lay, e, degree))
  {
    hide Divided, Sorted, Flat, Put, Strict;
    InsertKeeps(lay, e, degree);
    if lay == Blank() {
      FirstStrict(e);
    } else {
      PutStrict(Flat(lay.rows), e);
      var j := Route(lay.seps, e.key);
      if |Routed(lay, e.key)| < 2 * degree - 1 {
        PutKeyed(lay, j, e);
      } else {
        SplitKeyed(lay, j);
        SplitRoute(lay, e.key);
        PutKeyed(Split(lay, j), if e.key > Split(lay, j).seps[j] then j + 1 else j, e);
      }
    }
  }

  lemma FirstStrict<V>(e: Entry<V>)
    ensures Strict(Flat([[e]]))
  {
    FirstKeeps(e);
  }

  lemma RemoveUnique<V>(lay: Layout<V>, k: int, degree: nat)
    requires Ok(lay, degree) && Unique(lay)
    ensures Unique(AfterRemove(lay, k, degree))
  {
    hide Divided, Sorted, Flat, Drop, Strict;
    RemoveKeeps(lay, k, degree);
    if lay != Blank() && Holds(Routed(lay, k), k) {
      DropStrict(Flat(lay.rows), k);
      DropKeyed(lay, k);
      if |Drop(Routed(lay, k), k)| == 0 && |lay.at| >= 2 {
        DetachKeyed(DropAt(lay, 0, k));
      }
    }
  }

  // ---------- What it means for lookups ----------

  /** A separator is stored, and hidden from lookups. */
  lemma SeparatorIsHidden<V>(lay: Layout<V>, k: int)
    requires Unique(lay) && k in lay.seps
    ensures Holds(Flat(lay.rows), k) && Hidden(lay, k)
  {
    var x :| 0 <= x < |lay.seps| && lay.seps[x] == k;
    var j, q := Route(lay.seps, k), lay.at[x + 1];
    assert Leads(lay, x);
    StrictRows(lay.rows, lay.at[j], q);
    assert j <= x && lay.at[j] <= lay.at[x] < q;
    FlatAt(lay.rows, q);
    var n := |Flat(lay.rows[..q])|;
    assert Flat(lay.rows)[n] == lay.rows[q][0];
    StrictHolds(Flat(lay.rows), n);
  }

  lemma StrictHolds<V>(es: seq<Entry<V>>, n: nat)
    requires Strict(es) && n < |es|
    ensures Holds(es, es[n].key)
  {
    assert Place(es, es[n].key) == n;
  }

  lemma StrictRows<V>(rows: seq<seq<Entry<V>>>, a: nat, b: nat)
    requires Strict(Flat(rows)) && b < |rows| && |rows[b]| > 0
    ensures a < b ==> Below(rows[a], rows[b][0].key)
  {
    if a < b {
      hide Flat;
      FlatAt(rows, b);
      var f := Flat(rows[..b]);
      FlatAt(rows[..b], a);
      var g := Flat(rows[..b][..a]);
      assert Flat(rows)[|f|] == rows[b][0];
      forall i | 0 <= i < |rows[a]| ensures rows[a][i].key < rows[b][0].key {
        assert f[|g| + i] == rows[a][i];
        assert Flat(rows)[|g| + i] == rows[a][i];
      }
    }
  }

  /** A lookup finds a key, and a removal takes it, exactly if it is stored and is no separator. */
  lemma LookupUnique<V>(lay: Layout<V>, k: int, degree: nat)
    requires Ok(lay, degree) && Unique(lay)
    ensures Found(lay, k) <==> Holds(Flat(lay.rows), k) && k !in lay.seps
    ensures Flat(AfterRemove(lay, k, degree).rows) ==
            if Holds(Flat(lay.rows), k) && k !in lay.seps then Drop(Flat(lay.rows), k) else Flat(lay.rows)
  {
    hide Divided, Sorted, Strict, Drop;
    if lay != Blank() {
      LookupExact(lay, k, degree);
      if k in lay.seps {
        SeparatorIsHidden(lay, k);
      }
    }
    RemoveKeeps(lay, k, degree);
  }

  // ---------- Runs ----------

  /** No key is inserted while it is stored. */
  ghost predicate NewKeys<V>(ops: seq<Op<V>>, degree: nat)
    requires degree >= 2
  {
    forall i :: 0 <= i < |ops| && ops[i].Insert? && After(ops[..i], degree).Some? ==>
      !Holds(Flat(After(ops[..i], degree).value.rows), ops[i].key)
  }

  /** No key is inserted twice. */
  ghost predicate DifferentKeys<V>(ops: seq<Op<V>>) {
    forall i, j :: 0 <= i < j < |ops| && ops[i].Insert? && ops[j].Insert? ==> ops[i].key != ops[j].key
  }

  ghost predicate Inserted<V>(ops: seq<Op<V>>, k: int) {
    exists i :: 0 <= i < |ops| && ops[i].Insert? && ops[i].key == k
  }

  lemma {:induction false} AlwaysUnique<V>(ops: seq<Op<V>>, degree: nat)
    requires degree >= 2 && After(ops, degree).Some? && NewKeys(ops, degree)
    ensures Unique(After(ops, degree).value)
  {
    if ops != [] {
      var n := |ops| - 1;
      var before, op := ops[..n], ops[n];
      assert NewKeys(before, degree) by {
        assert forall i :: 0 <= i < n ==> before[i] == ops[i] && before[..i] == ops[..i];
      }
      AlwaysUnique(before, degree);
      StepUnique(After(before, degree).value, op, degree);
    }
  }

  lemma StepUnique<V>(lay: Layout<V>, op: Op<V>, degree: nat)
    requires Ok(lay, degree) && Unique(lay) && (op.Insert? ==> !Holds(Flat(lay.rows), op.key))
    ensures Step(lay, op, degree).Some? ==> Unique(Step(lay, op, degree).value)
  {
    match op
    case Insert(k, v) =>
      if Room(lay, degree) {
        InsertUnique(lay, Entry(k, v), degree);
      }
    case Remove(k) => RemoveUnique(lay, k, degree);
  }

  ghost predicate Has<V>(es: seq<Entry<V>>, k: int) {
    exists i :: 0 <= i < |es| && es[i].key == k
  }

  /** Only inserted keys are stored. */
  lemma {:induction false} StoredWasInserted<V>(ops: seq<Op<V>>, degree: nat, k: int)
    requires degree >= 2 && After(ops, degree).Some? && Has(Flat(After(ops, degree).value.rows), k)
    ensures Inserted(ops, k)
  {
    if ops != [] {
      var n := |ops| - 1;
      var before, op := ops[..n], ops[n];
      var lay := After(before, degree).value;
      StepStores(lay, op, degree, k);
      if Has(Flat(lay.rows), k) {
        StoredWasInserted(before, degree, k);
        var i :| 0 <= i < n && before[i].Insert? && before[i].key == k;
        assert ops[i] == before[i];
      } else {
        assert ops[n].Insert? && ops[n].key == k;
      }
    }
  }

  lemma StepStores<V>(lay: Layout<V>, op: Op<V>, degree: nat, k: int)
    requires Ok(lay, degree) && Step(lay, op, degree).Some? && Has(Flat(Step(lay, op, degree).value.rows), k)
    ensures Has(Flat(lay.rows), k) || (op.Insert? && op.key == k)
  {
    hide Flat;
    StepContents(lay, op, degree);
    var es := Flat(lay.rows);
    if op.Insert? {
      PutMembers(es, Entry(op.key, op.value));
    } else if Holds(es, op.key) {
      DropMembers(es, op.key);
    }
  }

  lemma NotInserted<V>(ops: seq<Op<V>>, i: nat)
    requires DifferentKeys(ops) && i < |ops| && ops[i].Insert?
    ensures !Inserted(ops[..i], ops[i].key)
  {
    assert forall x :: 0 <= x < i ==> ops[..i][x] == ops[x];
  }

  lemma DifferentAreNew<V>(ops: seq<Op<V>>, degree: nat)
    requires degree >= 2 && DifferentKeys(ops)
    ensures NewKeys(ops, degree)
  {
    forall i | 0 <= i < |ops| && ops[i].Insert? && After(ops[..i], degree).Some?
      ensures !Holds(Flat(After(ops[..i], degree).value.rows), ops[i].key)
    {
      NotInserted(ops, i);
      if Holds(Flat(After(ops[..i], degree).value.rows), ops[i].key) {
        StoredWasInserted(ops[..i], degree, ops[i].key);
      }
    }
  }

  /**
   After every run that never inserts a stored key: the separators are stored but hidden, and
   a lookup finds, and a removal takes, exactly the stored keys that are not separators.
   */
  lemma SeparatorsAreLost<V>(ops: seq<Op<V>>, degree: nat, k: int)
    requires degree >= 2 && After(ops, degree).Some? && NewKeys(ops, degree)
    ensures var lay := After(ops, degree).value;
            (k in lay.seps ==> Holds(Flat(lay.rows), k) && Hidden(lay, k)) &&
            (Found(lay, k) <==> Holds(Flat(lay.rows), k) && k !in lay.seps) &&
            Flat(AfterRemove(lay, k, degree).rows) ==
              if Holds(Flat(lay.rows), k) && k !in lay.seps then Drop(Flat(lay.rows), k) else Flat(lay.rows)
  {
    AlwaysUnique(ops, degree);
    var lay := After(ops, degree).value;
    LookupUnique(lay, k, degree);
    if k in lay.seps {
      SeparatorIsHidden(lay, k);
    }
  }
}
