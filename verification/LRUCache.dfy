/**
 The LRU cache with time to live.

 The first half is the cache as a list of entries, most recently used first, and what holds
 of it over whole histories of calls.  The second half is the object with its linked list
 and its index, proved against it.  Each call reads the clock once.
 */
module LRUCache {
  import opened Common

  datatype Entry = Entry(key: int, value: int, expire: int)

  datatype Op = Get(key: int, now: int) | Put(key: int, value: int, now: int)

  const MISS := -1

  // ---------- One call ----------

  /** The entries that have not expired. */
  function Clean(s: seq<Entry>, now: int): seq<Entry> {
    if s == [] then []
    else if s[0].expire <= now then Clean(s[1..], now)
    else [s[0]] + Clean(s[1..], now)
  }

  function Place(s: seq<Entry>, k: int): (i: nat)
    ensures i <= |s| && (i < |s| ==> s[i].key == k)
    ensures forall j :: 0 <= j < i ==> s[j].key != k
  {
    if s == [] || s[0].key == k then 0 else 1 + Place(s[1..], k)
  }

  predicate Has(s: seq<Entry>, k: int) {
    Place(s, k) < |s|
  }

  /** The list without its entry at `d`, if there is one. */
  function Cut(s: seq<Entry>, d: nat): (r: seq<Entry>)
    ensures |r| == if d < |s| then |s| - 1 else |s|
    ensures forall i :: 0 <= i < |r| ==> r[i] == s[if i < d then i else i + 1]
  {
    if d < |s| then s[..d] + s[d + 1..] else s
  }

  function AfterGet(s: seq<Entry>, k: int, now: int): seq<Entry> {
    var c := Clean(s, now);
    if Has(c, k) then [c[Place(c, k)]] + Cut(c, Place(c, k)) else c
  }

  function GetResult(s: seq<Entry>, k: int, now: int): int {
    var c := Clean(s, now);
    if Has(c, k) then c[Place(c, k)].value else MISS
  }

  /** A full cache loses its last entry to a new key. */
  function AfterPut(s: seq<Entry>, k: int, v: int, now: int, ttl: int, capacity: nat): seq<Entry> {
    var c := Clean(s, now);
    var e := Entry(k, v, now + ttl);
    if Has(c, k) then [e] + Cut(c, Place(c, k))
    else if |c| == capacity && |c| > 0 then [e] + Cut(c, |c| - 1)
    else [e] + c
  }

  function Apply(s: seq<Entry>, op: Op, ttl: int, capacity: nat): seq<Entry> {
    match op
    case Get(k, now) => AfterGet(s, k, now)
    case Put(k, v, now) => AfterPut(s, k, v, now, ttl, capacity)
  }

  // ---------- Histories ----------

  ghost function After(h: seq<Op>, ttl: int, capacity: nat): seq<Entry> {
    if h == [] then [] else Apply(After(h[..|h| - 1], ttl, capacity), h[|h| - 1], ttl, capacity)
  }

  /** What a call answers; a put answers nothing. */
  function Reply(s: seq<Entry>, op: Op): Option<int> {
    if op.Get? then Some(GetResult(s, op.key, op.now)) else None
  }

  ghost function Replies(h: seq<Op>, ttl: int, capacity: nat): seq<Option<int>> {
    if h == [] then []
    else Replies(h[..|h| - 1], ttl, capacity) + [Reply(After(h[..|h| - 1], ttl, capacity), h[|h| - 1])]
  }

  /** The clock does not go back. */
  ghost predicate Timed(h: seq<Op>) {
    forall i, j :: 0 <= i < j < |h| ==> h[i].now <= h[j].now
  }

  /** A call uses its key if it is a put, or a get that hits. */
  ghost predicate Uses(s: seq<Entry>, op: Op) {
    op.Put? || Has(Clean(s, op.now), op.key)
  }

  /** The last binding given to a key. */
  ghost function LastPut(h: seq<Op>, k: int): Option<Op> {
    if h == [] then None
    else if h[|h| - 1].Put? && h[|h| - 1].key == k then Some(h[|h| - 1])
    else LastPut(h[..|h| - 1], k)
  }

  /** When a key was last used, counted in calls; 0 if never. */
  ghost function LastUse(h: seq<Op>, ttl: int, capacity: nat, k: int): nat {
    if h == [] then 0
    else if h[|h| - 1].key == k && Uses(After(h[..|h| - 1], ttl, capacity), h[|h| - 1]) then |h|
    else LastUse(h[..|h| - 1], ttl, capacity, k)
  }

  /** The other keys used since the last use of `k`. */
  ghost function UsedSince(h: seq<Op>, ttl: int, capacity: nat, k: int): set<int> {
    if h == [] then {}
    else
      var op, h' := h[|h| - 1], h[..|h| - 1];
      if !Uses(After(h', ttl, capacity), op) then UsedSince(h', ttl, capacity, k)
      else if op.key == k then {}
      else UsedSince(h', ttl, capacity, k) + {op.key}
  }

  lemma AfterNext(h: seq<Op>, i: nat, ttl: int, capacity: nat)
    requires i < |h|
    ensures After(h[..i + 1], ttl, capacity) == Apply(After(h[..i], ttl, capacity), h[i], ttl, capacity)
    ensures Replies(h[..i + 1], ttl, capacity)
         == Replies(h[..i], ttl, capacity) + [Reply(After(h[..i], ttl, capacity), h[i])]
  {
    assert h[..i + 1][..i] == h[..i];
  }

  // ---------- Lists ----------

  /** Where an entry of the cleaned list stood before. */
  ghost function Origin(s: seq<Entry>, now: int, i: nat): (r: nat)
    requires i < |Clean(s, now)|
    ensures r < |s| && s[r] == Clean(s, now)[i] && s[r].expire > now
  {
    if s[0].expire <= now then 1 + Origin(s[1..], now, i)
    else if i == 0 then 0
    else 1 + Origin(s[1..], now, i - 1)
  }

  lemma {:induction false} OriginOrder(s: seq<Entry>, now: int, i: nat, j: nat)
    requires i < j < |Clean(s, now)|
    ensures Origin(s, now, i) < Origin(s, now, j)
  {
    if s[0].expire <= now {
      OriginOrder(s[1..], now, i, j);
    } else if i > 0 {
      OriginOrder(s[1..], now, i - 1, j - 1);
    }
  }

  /** A live entry is kept. */
  lemma {:induction false} CleanKeeps(s: seq<Entry>, now: int, p: nat) returns (i: nat)
    requires p < |s| && s[p].expire > now
    ensures i < |Clean(s, now)| && Clean(s, now)[i] == s[p] && Origin(s, now, i) == p
  {
    if p == 0 {
      i := 0;
    } else {
      var k := CleanKeeps(s[1..], now, p - 1);
      i := if s[0].expire <= now then k else k + 1;
    }
  }

  lemma {:induction false} CleanShorter(s: seq<Entry>, now: int)
    ensures |Clean(s, now)| <= |s|
  {
    if s != [] { CleanShorter(s[1..], now); }
  }

  // ---------- What every history keeps ----------

  /** The list is ordered by recency of use. */
  ghost predicate Recent(s: seq<Entry>, h: seq<Op>, ttl: int, capacity: nat) {
    forall i, j :: 0 <= i < j < |s| ==>
      LastUse(h, ttl, capacity, s[i].key) > LastUse(h, ttl, capacity, s[j].key)
  }

  /** Each entry is the last binding of its key, and expires `ttl` after that put. */
  ghost predicate Faithful(s: seq<Entry>, h: seq<Op>, ttl: int) {
    forall i :: 0 <= i < |s| ==>
      var p := LastPut(h, s[i].key);
      p.Some? && p.value.Put? && s[i] == Entry(p.value.key, p.value.value, p.value.now + ttl)
  }

  ghost predicate Sound(h: seq<Op>, ttl: int, capacity: nat) {
    var s := After(h, ttl, capacity);
    |s| <= capacity && Recent(s, h, ttl, capacity) && Faithful(s, h, ttl)
  }

  lemma {:induction false} LastUseBound(h: seq<Op>, ttl: int, capacity: nat, k: int)
    ensures LastUse(h, ttl, capacity, k) <= |h|
  {
    if h != [] { LastUseBound(h[..|h| - 1], ttl, capacity, k); }
  }

  lemma CleanRecent(s: seq<Entry>, now: int, h: seq<Op>, ttl: int, capacity: nat)
    requires Recent(s, h, ttl, capacity)
    ensures Recent(Clean(s, now), h, ttl, capacity)
  {
    var c := Clean(s, now);
    forall i, j | 0 <= i < j < |c|
      ensures LastUse(h, ttl, capacity, c[i].key) > LastUse(h, ttl, capacity, c[j].key)
    {
      OriginOrder(s, now, i, j);
      assert s[Origin(s, now, i)] == c[i] && s[Origin(s, now, j)] == c[j];
    }
  }

  lemma CleanFaithful(s: seq<Entry>, now: int, h: seq<Op>, ttl: int)
    requires Faithful(s, h, ttl)
    ensures Faithful(Clean(s, now), h, ttl)
  {
    var c := Clean(s, now);
    forall i | 0 <= i < |c|
      ensures var p := LastPut(h, c[i].key);
              p.Some? && p.value.Put? && c[i] == Entry(p.value.key, p.value.value, p.value.now + ttl)
    {
      assert s[Origin(s, now, i)] == c[i];
    }
  }

  /** A used key goes to the front; one entry, of that key or the last, may leave. */
  lemma UseRecent(h: seq<Op>, ttl: int, capacity: nat, c: seq<Entry>, e: Entry, d: nat)
    requires h != []
    requires var op, h' := h[|h| - 1], h[..|h| - 1];
             e.key == op.key && Uses(After(h', ttl, capacity), op) && Recent(c, h', ttl, capacity)
    requires forall i :: 0 <= i < |c| && i != d ==> c[i].key != e.key
    ensures Recent([e] + Cut(c, d), h, ttl, capacity)
  {
    hide Uses, After;
    var h', r := h[..|h| - 1], Cut(c, d);
    forall i | 0 <= i < |r|
      ensures LastUse(h, ttl, capacity, r[i].key) == LastUse(h', ttl, capacity, r[i].key) <= |h'|
    {
      LastUseBound(h', ttl, capacity, r[i].key);
    }
    assert LastUse(h, ttl, capacity, e.key) == |h|;
    forall i, j | 0 <= i < j < |[e] + r|
      ensures LastUse(h, ttl, capacity, ([e] + r)[i].key) > LastUse(h, ttl, capacity, ([e] + r)[j].key)
    {
      assert ([e] + r)[j] == r[j - 1];
      if i > 0 {
        assert ([e] + r)[i] == r[i - 1];
        var a, b := if i - 1 < d then i - 1 else i, if j - 1 < d then j - 1 else j;
        assert r[i - 1] == c[a] && r[j - 1] == c[b] && a < b;
      }
    }
  }

  lemma UseFaithful(h: seq<Op>, ttl: int, c: seq<Entry>, e: Entry, d: nat)
    requires h != [] && e.key == h[|h| - 1].key && Faithful(c, h[..|h| - 1], ttl)
    requires forall i :: 0 <= i < |c| && i != d ==> c[i].key != e.key
    requires if h[|h| - 1].Put? then e == Entry(e.key, h[|h| - 1].value, h[|h| - 1].now + ttl) else e in c
    ensures Faithful([e] + Cut(c, d), h, ttl)
  {
    var h', r := h[..|h| - 1], Cut(c, d);
    if h[|h| - 1].Get? {
      var p :| 0 <= p < |c| && c[p] == e;
      assert LastPut(h, e.key) == LastPut(h', e.key);
    }
    forall i | 0 <= i < |r|
      ensures r[i].key != e.key && LastPut(h, r[i].key) == LastPut(h', r[i].key)
    {
      assert r[i] == c[if i < d then i else i + 1];
    }
  }

  lemma KeysDiffer(c: seq<Entry>, h: seq<Op>, ttl: int, capacity: nat, k: int)
    requires Recent(c, h, ttl, capacity)
    ensures forall i :: 0 <= i < |c| && i != Place(c, k) ==> c[i].key != k
  {
    var p := Place(c, k);
    forall i | 0 <= i < |c| && i != p ensures c[i].key != k {
      if i > p {
        assert LastUse(h, ttl, capacity, c[p].key) > LastUse(h, ttl, capacity, c[i].key);
      }
    }
  }

  lemma SoundStep(h: seq<Op>, ttl: int, capacity: nat)
    requires h != [] && capacity >= 1 && Sound(h[..|h| - 1], ttl, capacity)
    ensures Sound(h, ttl, capacity)
  {
    hide Recent, Faithful, LastUse, LastPut, Clean;
    var op, h' := h[|h| - 1], h[..|h| - 1];
    var s := After(h', ttl, capacity);
    var c := Clean(s, op.now);
    CleanRecent(s, op.now, h', ttl, capacity);
    CleanFaithful(s, op.now, h', ttl);
    CleanShorter(s, op.now);
    KeysDiffer(c, h', ttl, capacity, op.key);
    var p := Place(c, op.key);
    if op.Get? {
      if p < |c| {
        UseRecent(h, ttl, capacity, c, c[p], p);
        UseFaithful(h, ttl, c, c[p], p);
      } else {
        MissKeeps(h, ttl, capacity, c);
      }
    } else {
      var e := Entry(op.key, op.value, op.now + ttl);
      var d := if p < |c| then p else if |c| == capacity then |c| - 1 else |c|;
      UseRecent(h, ttl, capacity, c, e, d);
      UseFaithful(h, ttl, c, e, d);
      assert Cut(c, |c|) == c;
    }
  }

  lemma MissKeeps(h: seq<Op>, ttl: int, capacity: nat, c: seq<Entry>)
    requires h != [] && h[|h| - 1].Get? && !Uses(After(h[..|h| - 1], ttl, capacity), h[|h| - 1])
    requires Recent(c, h[..|h| - 1], ttl, capacity) && Faithful(c, h[..|h| - 1], ttl)
    ensures Recent(c, h, ttl, capacity) && Faithful(c, h, ttl)
  {
  }

  /** Size, recency order and bindings, after every history. */
  lemma {:induction false} AlwaysSound(h: seq<Op>, ttl: int, capacity: nat)
    requires capacity >= 1
    ensures Sound(h, ttl, capacity)
  {
    if h != [] {
      AlwaysSound(h[..|h| - 1], ttl, capacity);
      SoundStep(h, ttl, capacity);
    }
  }

  /** A hit returns the last value put, and that put is younger than the time to live. */
  lemma HitIsLastPut(h: seq<Op>, ttl: int, capacity: nat, k: int, now: int)
    requires capacity >= 1 && Has(Clean(After(h, ttl, capacity), now), k)
    ensures var p := LastPut(h, k);
            p.Some? && p.value.Put? && p.value.value == GetResult(After(h, ttl, capacity), k, now) &&
            now < p.value.now + ttl
  {
    AlwaysSound(h, ttl, capacity);
    var s := After(h, ttl, capacity);
    var c := Clean(s, now);
    CleanFaithful(s, now, h, ttl);
    var o := Origin(s, now, Place(c, k));
  }

  /**
   What a get answers after any history: the value of the last put of its key, which has not
   expired, or -1; and -1 if there was no such put or it has expired.
   */
  lemma AnswerIs(h: seq<Op>, ttl: int, capacity: nat, k: int, now: int)
    requires capacity >= 1
    ensures var a, p := GetResult(After(h, ttl, capacity), k, now), LastPut(h, k);
            (a == -1 || (p.Some? && p.value.Put? && now < p.value.now + ttl && a == p.value.value)) &&
            (p.None? || p.value.now + ttl <= now ==> a == -1)
  {
    if Has(Clean(After(h, ttl, capacity), now), k) {
      HitIsLastPut(h, ttl, capacity, k, now);
    }
  }

  /** A hit moves its entry to the front and leaves the others in their order. */
  lemma HitMovesFront(s: seq<Entry>, k: int, now: int)
    requires Has(Clean(s, now), k)
    ensures var c, r := Clean(s, now), AfterGet(s, k, now);
            var p := Place(c, k);
            |r| == |c| && r[0] == c[p] && r[0].key == k &&
            forall i :: 0 < i < |r| ==> r[i] == c[if i <= p then i - 1 else i]
  {
  }

  /** A put stands in front with its value and its time to live. */
  lemma PutStandsFront(s: seq<Entry>, k: int, v: int, now: int, ttl: int, capacity: nat)
    ensures var r := AfterPut(s, k, v, now, ttl, capacity); |r| > 0 && r[0] == Entry(k, v, now + ttl)
  {
  }

  /** The entry that a full cache gives up is the least recently used of the live ones. */
  lemma EvictsLeastRecent(h: seq<Op>, ttl: int, capacity: nat, k: int, v: int, now: int, q: int)
    requires capacity >= 1
    requires var c := Clean(After(h, ttl, capacity), now);
             q != k && Has(c, q) && !Has(AfterPut(After(h, ttl, capacity), k, v, now, ttl, capacity), q)
    ensures var c := Clean(After(h, ttl, capacity), now);
            |c| == capacity && !Has(c, k) &&
            forall i :: 0 <= i < |c| && c[i].key != q ==>
              LastUse(h, ttl, capacity, c[i].key) > LastUse(h, ttl, capacity, q)
  {
    hide Clean, After, Faithful, LastUse, AfterPut, Cut;
    AlwaysSound(h, ttl, capacity);
    var s := After(h, ttl, capacity);
    var c, s' := Clean(s, now), AfterPut(s, k, v, now, ttl, capacity);
    CleanRecent(s, now, h, ttl, capacity);
    CleanShorter(s, now);
    var p := Place(c, q);
    assert c[p].key == q;
    PutIs(s, k, v, now, ttl, capacity);
    CutHas(c, Leaves(c, k, capacity), p, Entry(k, v, now + ttl));
  }

  /** Only the entry at `d` leaves. */
  lemma CutHas(c: seq<Entry>, d: nat, p: nat, e: Entry)
    requires p < |c|
    ensures p != d ==> Has([e] + Cut(c, d), c[p].key)
  {
    if p != d {
      var i := if p < d then p + 1 else p;
      assert ([e] + Cut(c, d))[i] == c[p];
      HasAt([e] + Cut(c, d), i);
    }
  }

  lemma HasAt(s: seq<Entry>, i: nat)
    requires i < |s|
    ensures Has(s, s[i].key)
  {
  }

  lemma {:induction false} UsedIff(h: seq<Op>, ttl: int, capacity: nat, k: int, q: int)
    ensures q in UsedSince(h, ttl, capacity, k) <==>
            q != k && LastUse(h, ttl, capacity, q) > LastUse(h, ttl, capacity, k)
  {
    if h != [] {
      var h' := h[..|h| - 1];
      UsedIff(h', ttl, capacity, k, q);
      LastUseBound(h', ttl, capacity, k);
      LastUseBound(h', ttl, capacity, q);
    }
  }

  /** Entries with different keys from a set are at most as many as the set. */
  lemma {:induction false} FrontSize(s: seq<Entry>, n: nat, keys: set<int>)
    requires n <= |s|
    requires forall i, j :: 0 <= i < j < n ==> s[i].key != s[j].key
    requires forall i :: 0 <= i < n ==> s[i].key in keys
    ensures n <= |keys|
  {
    if n > 0 {
      FrontSize(s, n - 1, keys - {s[n - 1].key});
    }
  }

  /** No put or get goes back behind the last put of `k`, and its binding has not expired. */
  ghost predicate Fresh(h: seq<Op>, ttl: int, k: int, now: int) {
    var p := LastPut(h, k);
    p.Some? && p.value.Put? && now < p.value.now + ttl && forall i :: 0 <= i < |h| ==> h[i].now <= now
  }

  lemma KeptBySelf(h: seq<Op>, ttl: int, capacity: nat)
    requires h != [] && Uses(After(h[..|h| - 1], ttl, capacity), h[|h| - 1])
    ensures Has(After(h, ttl, capacity), h[|h| - 1].key)
  {
    assert After(h, ttl, capacity)[0].key == h[|h| - 1].key;
  }

  /** A get keeps every live key. */
  lemma KeptByGet(s: seq<Entry>, q: int, now: int, k: int)
    requires q != k && Has(Clean(s, now), k)
    ensures Has(AfterGet(s, q, now), k)
  {
    var c := Clean(s, now);
    if Has(c, q) {
      CutHas(c, Place(c, q), Place(c, k), c[Place(c, q)]);
    }
  }

  /** A put keeps a live key, unless it is the last of a full list and the new key is not on it. */
  lemma KeptByPut(s: seq<Entry>, q: int, v: int, now: int, ttl: int, capacity: nat, k: int)
    requires q != k && Has(Clean(s, now), k)
    requires var c := Clean(s, now); Has(c, q) || |c| < capacity || Place(c, k) < |c| - 1
    ensures Has(AfterPut(s, q, v, now, ttl, capacity), k)
  {
    hide Clean, AfterPut, Cut;
    var c, e := Clean(s, now), Entry(q, v, now + ttl);
    PutIs(s, q, v, now, ttl, capacity);
    CutHas(c, Leaves(c, q, capacity), Place(c, k), e);
  }

  /** The place of the entry that a put takes out of the list; past its end if there is none. */
  ghost function Leaves(c: seq<Entry>, k: int, capacity: nat): nat {
    if Has(c, k) then Place(c, k) else if |c| == capacity && |c| > 0 then |c| - 1 else |c|
  }

  lemma PutIs(s: seq<Entry>, k: int, v: int, now: int, ttl: int, capacity: nat)
    ensures var c := Clean(s, now);
            AfterPut(s, k, v, now, ttl, capacity) == [Entry(k, v, now + ttl)] + Cut(c, Leaves(c, k, capacity))
  {
    hide Clean;
    var c := Clean(s, now);
    assert Cut(c, |c|) == c;
  }

  /** Another call on a cache that holds the live key `k` keeps it, unless that many other keys were used since. */
  lemma KeptByOther(h: seq<Op>, ttl: int, capacity: nat, k: int)
    requires h != [] && capacity >= 1 && h[|h| - 1].key != k
    requires var h', now := h[..|h| - 1], h[|h| - 1].now;
             Has(Clean(After(h', ttl, capacity), now), k) && |UsedSince(h, ttl, capacity, k)| < capacity
    ensures Has(After(h, ttl, capacity), k)
  {
    var op, h' := h[|h| - 1], h[..|h| - 1];
    var s := After(h', ttl, capacity);
    if op.Get? {
      KeptByGet(s, op.key, op.now, k);
    } else {
      var c := Clean(s, op.now);
      if !Has(c, op.key) {
        AlwaysSound(h', ttl, capacity);
        CleanRecent(s, op.now, h', ttl, capacity);
        CleanShorter(s, op.now);
        FrontIsUsed(h', ttl, capacity, c, Place(c, k), op.key);
      }
      KeptByPut(s, op.key, op.value, op.now, ttl, capacity, k);
    }
  }

  /** The keys in front of an entry, and a new one, are all among the keys used since. */
  lemma FrontIsUsed(h: seq<Op>, ttl: int, capacity: nat, c: seq<Entry>, p: nat, q: int)
    requires Recent(c, h, ttl, capacity) && p < |c| && !Has(c, q)
    ensures |UsedSince(h, ttl, capacity, c[p].key) + {q}| >= p + 1
  {
    var u := UsedSince(h, ttl, capacity, c[p].key);
    forall i | 0 <= i < p ensures c[i].key in u - {q} {
      UsedIff(h, ttl, capacity, c[p].key, c[i].key);
      HasAt(c, i);
    }
    FrontSize(c, p, u - {q});
    assert u + {q} == (u - {q}) + {q};
  }

  lemma {:induction false} StillThere(h: seq<Op>, ttl: int, capacity: nat, k: int, now: int)
    requires capacity >= 1 && Fresh(h, ttl, k, now) && Timed(h)
    requires |UsedSince(h, ttl, capacity, k)| < capacity
    ensures Has(Clean(After(h, ttl, capacity), now), k)
  {
    var h', op := h[..|h| - 1], h[|h| - 1];
    AlwaysSound(h, ttl, capacity);
    if op.key == k && Uses(After(h', ttl, capacity), op) {
      KeptBySelf(h, ttl, capacity);
    } else {
      assert LastPut(h, k) == LastPut(h', k);
      assert Fresh(h', ttl, k, op.now);
      UsedGrows(h, ttl, capacity, k);
      StillThere(h', ttl, capacity, k, op.now);
      if op.key != k {
        KeptByOther(h, ttl, capacity, k);
      }
    }
    LiveStays(h, ttl, capacity, k, now);
  }

  lemma UsedGrows(h: seq<Op>, ttl: int, capacity: nat, k: int)
    requires h != [] && !(h[|h| - 1].key == k && Uses(After(h[..|h| - 1], ttl, capacity), h[|h| - 1]))
    ensures |UsedSince(h[..|h| - 1], ttl, capacity, k)| <= |UsedSince(h, ttl, capacity, k)|
  {
    var op, u := h[|h| - 1], UsedSince(h[..|h| - 1], ttl, capacity, k);
    if op.key in u {
      assert u + {op.key} == u;
    }
  }

  /** An entry that is there and fresh survives the cleaning. */
  lemma LiveStays(h: seq<Op>, ttl: int, capacity: nat, k: int, now: int)
    requires Sound(h, ttl, capacity) && Fresh(h, ttl, k, now) && Has(After(h, ttl, capacity), k)
    ensures Has(Clean(After(h, ttl, capacity), now), k)
  {
    var s := After(h, ttl, capacity);
    var i := CleanKeeps(s, now, Place(s, k));
    HasAt(Clean(s, now), i);
  }

  /**
   Retention: if fewer than `capacity` other keys were used since the last use of `k`, and
   its last put is younger than the time to live, a get returns the value of that put.
   */
  lemma Retention(h: seq<Op>, ttl: int, capacity: nat, k: int, now: int)
    requires capacity >= 1 && Timed(h) && (forall i :: 0 <= i < |h| ==> h[i].now <= now)
    requires LastPut(h, k).Some? && LastPut(h, k).value.Put? && now < LastPut(h, k).value.now + ttl
    requires |UsedSince(h, ttl, capacity, k)| < capacity
    ensures GetResult(After(h, ttl, capacity), k, now) == LastPut(h, k).value.value
  {
    StillThere(h, ttl, capacity, k, now);
    HitIsLastPut(h, ttl, capacity, k, now);
  }

  // ---------- The object ----------

  class CacheNode {
    const key: int
    var value: int
    var expire: int

    constructor (key: int, value: int, expire: int)
      ensures this.key == key && this.value == value && this.expire == expire
    {
      this.key, this.value, this.expire := key, value, expire;
    }
  }

  /** The nodes of a list hold these entries. */
  ghost predicate Shows(nodes: seq<CacheNode>, s: seq<Entry>)
    reads nodes
  {
    |nodes| == |s| && forall i :: 0 <= i < |s| ==> s[i] == Entry(nodes[i].key, nodes[i].value, nodes[i].expire)
  }

  /** The list without one of its nodes. */
  function Erase(nodes: seq<CacheNode>, p: nat): seq<CacheNode>
    requires p < |nodes|
  {
    nodes[..p] + nodes[p + 1..]
  }

  lemma EraseShows(nodes: seq<CacheNode>, s: seq<Entry>, p: nat)
    requires Shows(nodes, s) && p < |nodes|
    ensures Shows(Erase(nodes, p), Cut(s, p))
    ensures Shows([nodes[p]] + Erase(nodes, p), [s[p]] + Cut(s, p))
  {
    var r := Erase(nodes, p);
    forall i | 0 <= i < |r| ensures r[i] == nodes[if i < p then i else i + 1] {
    }
  }

  lemma {:induction false} CleanCut(s: seq<Entry>, now: int, p: nat)
    requires p < |s| && s[p].expire <= now
    ensures Clean(Cut(s, p), now) == Clean(s, now)
  {
    if p == 0 {
      assert Cut(s, 0) == s[1..];
    } else {
      CleanCut(s[1..], now, p - 1);
      assert Cut(s, p)[0] == s[0] && Cut(s, p)[1..] == Cut(s[1..], p - 1);
    }
  }

  lemma {:induction false} CleanAlready(s: seq<Entry>, now: int)
    requires forall i :: 0 <= i < |s| ==> s[i].expire > now
    ensures Clean(s, now) == s
  {
    if s != [] { CleanAlready(s[1..], now); }
  }

  /** The index holds exactly the nodes of the list, each under its own key. */
  ghost predicate Indexed(nodes: seq<CacheNode>, index: map<int, CacheNode>) {
    (forall i :: 0 <= i < |nodes| ==> nodes[i].key in index && index[nodes[i].key] == nodes[i]) &&
    (forall k :: k in index ==> index[k].key == k && index[k] in nodes) &&
    forall i, j :: 0 <= i < j < |nodes| ==> nodes[i].key != nodes[j].key
  }

  lemma EraseIndexed(nodes: seq<CacheNode>, index: map<int, CacheNode>, p: nat)
    requires Indexed(nodes, index) && p < |nodes|
    ensures Indexed(Erase(nodes, p), index - {nodes[p].key})
    ensures forall n :: n in nodes && n != nodes[p] ==> n in Erase(nodes, p)
    ensures nodes[p] !in Erase(nodes, p)
  {
    var r := Erase(nodes, p);
    forall n | n in nodes && n != nodes[p] ensures n in r {
      var i :| 0 <= i < |nodes| && nodes[i] == n;
      assert r[if i < p then i else i - 1] == n;
    }
  }

  lemma PushIndexed(nodes: seq<CacheNode>, index: map<int, CacheNode>, n: CacheNode)
    requires Indexed(nodes, index) && n.key !in index
    ensures Indexed([n] + nodes, index[n.key := n])
  {
    var r := [n] + nodes;
    forall i | 0 < i < |r| ensures r[i] == nodes[i - 1] && r[i].key in index {
    }
    forall k | k in index ensures index[k] in r {
      var i :| 0 <= i < |nodes| && nodes[i] == index[k];
      assert r[i + 1] == index[k];
    }
  }

  /** Moving a node to the front leaves the index alone. */
  lemma SpliceIndexed(nodes: seq<CacheNode>, index: map<int, CacheNode>, p: nat)
    requires Indexed(nodes, index) && p < |nodes|
    ensures Indexed([nodes[p]] + Erase(nodes, p), index)
  {
    var n := nodes[p];
    EraseIndexed(nodes, index, p);
    PushIndexed(Erase(nodes, p), index - {n.key}, n);
    assert (index - {n.key})[n.key := n] == index;
  }

  /** Looking a key up in the index finds the place the list has for it. */
  lemma IndexFinds(nodes: seq<CacheNode>, index: map<int, CacheNode>, s: seq<Entry>, k: int)
    requires Indexed(nodes, index) && Shows(nodes, s)
    ensures k in index <==> Has(s, k)
    ensures k in index ==> index[k] == nodes[Place(s, k)] && index[k].key == k
  {
    assert Has(s, k) ==> nodes[Place(s, k)].key == k;
    if k in index {
      var i :| 0 <= i < |nodes| && nodes[i] == index[k];
      assert s[i].key == k;
    }
  }

  /** The place a list iterator points to. */
  function Position(nodes: seq<CacheNode>, n: CacheNode): (p: nat)
    requires n in nodes
    ensures p < |nodes| && nodes[p] == n
  {
    if nodes[0] == n then 0 else 1 + Position(nodes[1..], n)
  }

  lemma PositionIsPlace(nodes: seq<CacheNode>, index: map<int, CacheNode>, s: seq<Entry>, n: CacheNode)
    requires Indexed(nodes, index) && Shows(nodes, s) && n in nodes
    ensures Position(nodes, n) == Place(s, n.key) && Has(s, n.key)
  {
    var p := Position(nodes, n);
    assert s[p].key == n.key;
    assert nodes[Place(s, n.key)].key == n.key;
  }

  class LRUCacheWithTTL {
    const ttl: int
    const capacity: nat
    var cache: seq<CacheNode>
    var keyMap: map<int, CacheNode>
    ghost var contents: seq<Entry>

    ghost predicate Valid()
      reads this, cache
    {
      |cache| == |contents| <= capacity && Indexed(cache, keyMap) && Shows(cache, contents)
    }

    constructor (capacity: nat, ttl: int)
      ensures Valid() && contents == [] && this.capacity == capacity && this.ttl == ttl && cache == []
    {
      this.capacity, this.ttl := capacity, ttl;
      cache, keyMap, contents := [], map[], [];
    }

    /** Drop the node at a place of the list, from the list and from the index. */
    method Drop(p: nat)
      requires Valid() && p < |cache|
      modifies this
      ensures Valid() && contents == Cut(old(contents), p) && cache == Erase(old(cache), p)
      ensures keyMap == old(keyMap) - {old(cache)[p].key}
    {
      EraseIndexed(cache, keyMap, p);
      EraseShows(cache, contents, p);
      keyMap := keyMap - {cache[p].key};
      cache := Erase(cache, p);
      contents := Cut(contents, p);
    }

    method CleanExpire(now: int)
      requires Valid()
      modifies this
      ensures Valid() && contents == Clean(old(contents), now)
      ensures forall i :: 0 <= i < |cache| ==> cache[i] in old(cache) && cache[i].expire > now
    {
      hide Indexed, Clean;
      var it := 0;
      while it < |cache|
        invariant Valid() && it <= |cache|
        invariant forall i :: 0 <= i < |cache| ==> cache[i] in old(cache)
        invariant forall i :: 0 <= i < it ==> contents[i].expire > now
        invariant Clean(contents, now) == Clean(old(contents), now)
        decreases |cache| - it
      {
        if cache[it].expire <= now {
          CleanCut(contents, now, it);
          Drop(it);
        } else {
          it := it + 1;
        }
      }
      CleanAlready(contents, now);
    }

    /** The second look at the expiry time never sees an expired node. */
    method Get(key: int, now: int) returns (value: int)
      requires Valid()
      modifies this
      ensures Valid() && contents == AfterGet(old(contents), key, now)
      ensures value == GetResult(old(contents), key, now)
      ensures Has(contents, key) ==> contents[0].key == key && contents[0].value == value
      ensures !Has(contents, key) ==> value == -1
      ensures forall i :: 0 <= i < |cache| ==> cache[i] in old(cache)
    {
      CleanExpire(now);
      IndexFinds(cache, keyMap, contents, key);
      if key !in keyMap {
        return MISS;
      }
      var node := keyMap[key];
      if node.expire <= now {
        assert false;
      }
      MoveToFront(node);
      return node.value;
    }

    method MoveToFront(node: CacheNode)
      requires Valid() && node in cache
      modifies this`cache, this`contents
      ensures Valid() && Has(old(contents), node.key)
      ensures var p := Place(old(contents), node.key);
              old(cache)[p] == node && cache == [node] + Erase(old(cache), p) &&
              contents == [old(contents)[p]] + Cut(old(contents), p)
    {
      var p := Position(cache, node);
      PositionIsPlace(cache, keyMap, contents, node);
      SpliceIndexed(cache, keyMap, p);
      EraseShows(cache, contents, p);
      cache := [node] + Erase(cache, p);
      contents := [contents[p]] + Cut(contents, p);
    }

    method Put(key: int, value: int, now: int)
      requires Valid() && capacity >= 1
      modifies this, cache
      ensures contents != [] && contents[0] == Entry(key, value, now + ttl)
      ensures Valid() && contents == AfterPut(old(contents), key, value, now, ttl, capacity)
      ensures forall i :: 0 <= i < |cache| ==> cache[i] in old(cache) || fresh(cache[i])
    {
      hide Indexed, Shows, Clean;
      CleanExpire(now);
      IndexFinds(cache, keyMap, contents, key);
      if key !in keyMap {
        PutNew(key, value, now + ttl);
      } else {
        Refresh(keyMap[key], value, now + ttl);
      }
    }

    /** A new key: the last entry of a full list makes room. */
    method PutNew(key: int, value: int, expire: int)
      requires Valid() && capacity >= 1 && key !in keyMap
      modifies this
      ensures Valid()
      ensures contents == [Entry(key, value, expire)] +
              if |old(contents)| == capacity then Cut(old(contents), |old(contents)| - 1) else old(contents)
      ensures forall i :: 0 <= i < |cache| ==> cache[i] in old(cache) || fresh(cache[i])
    {
      if |cache| == capacity {
        Drop(|cache| - 1);
      }
      Emplace(key, value, expire);
    }

    method Emplace(key: int, value: int, expire: int)
      requires Valid() && |cache| < capacity && key !in keyMap
      modifies this
      ensures Valid() && contents == [Entry(key, value, expire)] + old(contents)
      ensures |cache| > 0 && fresh(cache[0]) && cache == [cache[0]] + old(cache)
    {
      var node := new CacheNode(key, value, expire);
      PushIndexed(cache, keyMap, node);
      cache := [node] + cache;
      keyMap := keyMap[key := node];
      contents := [Entry(key, value, expire)] + contents;
    }

    method Refresh(node: CacheNode, value: int, expire: int)
      requires Valid() && node in cache
      modifies this, node
      ensures Valid() && Has(old(contents), node.key)
      ensures contents == [Entry(node.key, value, expire)] + Cut(old(contents), Place(old(contents), node.key))
      ensures forall i :: 0 <= i < |cache| ==> cache[i] in old(cache)
    {
      ghost var s, p := contents, Place(contents, node.key);
      IndexFinds(cache, keyMap, contents, node.key);
      Overwrite(node, value, expire, p);
      IndexFinds(cache, keyMap, contents, node.key);
      MoveToFront(node);
      assert Cut(s[p := Entry(node.key, value, expire)], p) == Cut(s, p);
    }

    method Overwrite(node: CacheNode, value: int, expire: int, ghost p: nat)
      requires Valid() && p < |cache| && node == cache[p]
      modifies this`contents, node
      ensures Valid() && contents == old(contents)[p := Entry(node.key, value, expire)]
    {
      node.value := value;
      node.expire := expire;
      contents := contents[p := Entry(node.key, value, expire)];
    }

    /** One call of a history. */
    method Do(op: Op) returns (reply: Option<int>)
      requires Valid() && (op.Put? ==> capacity >= 1)
      modifies this, cache
      ensures Valid() && contents == Apply(old(contents), op, ttl, capacity)
      ensures reply == Reply(old(contents), op)
      ensures forall i :: 0 <= i < |cache| ==> cache[i] in old(cache) || fresh(cache[i])
    {
      match op {
        case Get(k, now) =>
          var value := Get(k, now);
          reply := Some(value);
        case Put(k, v, now) =>
          Put(k, v, now);
          reply := None;
      }
    }
  }

  lemma {:induction false} ReplyAt(h: seq<Op>, ttl: int, capacity: nat, i: nat)
    requires i < |h|
    ensures |Replies(h, ttl, capacity)| == |h|
    ensures Replies(h, ttl, capacity)[i] == Reply(After(h[..i], ttl, capacity), h[i])
  {
    hide After, Reply;
    var n := |h| - 1;
    if i < n {
      ReplyAt(h[..n], ttl, capacity, i);
      assert h[..n][..i] == h[..i];
    } else if n > 0 {
      ReplyAt(h[..n], ttl, capacity, 0);
    }
  }

  /** Every get of a history answers -1 or the unexpired value last put before it. */
  ghost predicate Honest(h: seq<Op>, replies: seq<Option<int>>, ttl: int) {
    |replies| == |h| &&
    forall i :: 0 <= i < |h| ==>
      var p := LastPut(h[..i], h[i].key);
      if h[i].Put? then replies[i].None?
      else
        replies[i] == Some(-1) ||
        (p.Some? && p.value.Put? && h[i].now < p.value.now + ttl && replies[i] == Some(p.value.value))
  }

  lemma RepliesHonest(h: seq<Op>, ttl: int, capacity: nat)
    requires capacity >= 1
    ensures Honest(h, Replies(h, ttl, capacity), ttl)
  {
    if h == [] {
      assert Replies(h, ttl, capacity) == [];
    } else {
      ReplyAt(h, ttl, capacity, 0);
    }
    forall i | 0 <= i < |h| ensures Replies(h, ttl, capacity)[i] == Reply(After(h[..i], ttl, capacity), h[i]) {
      ReplyAt(h, ttl, capacity, i);
    }
    forall i | 0 <= i < |h| && h[i].Get?
      ensures var a, p := GetResult(After(h[..i], ttl, capacity), h[i].key, h[i].now), LastPut(h[..i], h[i].key);
              a == -1 || (p.Some? && p.value.Put? && h[i].now < p.value.now + ttl && a == p.value.value)
    {
      AnswerIs(h[..i], ttl, capacity, h[i].key, h[i].now);
    }
  }

  /** Any history of calls on a new cache. */
  method Replay(h: seq<Op>, ttl: int, capacity: nat) returns (replies: seq<Option<int>>)
    requires capacity >= 1 || forall i :: 0 <= i < |h| ==> h[i].Get?
    ensures replies == Replies(h, ttl, capacity) && (capacity >= 1 ==> Honest(h, replies, ttl))
  {
    var c := new LRUCacheWithTTL(capacity, ttl);
    replies := [];
    for i := 0 to |h|
      invariant fresh(c) && fresh(c.cache)
      invariant c.Valid() && c.ttl == ttl && c.capacity == capacity
      invariant c.contents == After(h[..i], ttl, capacity)
      invariant replies == Replies(h[..i], ttl, capacity)
    {
      AfterNext(h, i, ttl, capacity);
      var reply := c.Do(h[i]);
      replies := replies + [reply];
    }
    assert h[..|h|] == h;
    if capacity >= 1 {
      RepliesHonest(h, ttl, capacity);
    }
  }
}
