/**
 The slab allocator: one page cut into blocks, and a free list whose links are kept in the
 bytes of the free blocks themselves.

 The page is the start of a byte array, at the address `mem`; what follows it is the memory
 of others.  A link is an eight byte little endian address.  Whoever holds a block may overwrite any byte of it.
 */
module Slab {
  import opened Common

  const PAGE := 4096
  const WORD := 8
  const NULL := 0

  type Byte = b: int | 0 <= b < 256

  // ---------- Words in bytes ----------

  function Pow256(n: nat): (r: int)
    ensures r > 0
  {
    if n == 0 then 1 else 256 * Pow256(n - 1)
  }

  function Encode(v: nat, n: nat): (r: seq<Byte>)
    ensures |r| == n
  {
    if n == 0 then [] else [v % 256] + Encode(v / 256, n - 1)
  }

  function Decode(s: seq<Byte>): (r: nat)
  {
    if s == [] then 0 else s[0] + 256 * Decode(s[1..])
  }

  lemma {:induction false} DecodeEncode(v: nat, n: nat)
    requires v < Pow256(n)
    ensures Decode(Encode(v, n)) == v
  {
    if n > 0 {
      DecodeEncode(v / 256, n - 1);
      assert Encode(v, n)[1..] == Encode(v / 256, n - 1);
    }
  }

  /** Some word fits an address exactly when it is below 2^64. */
  ghost predicate IsAddress(a: int) {
    0 <= a < Pow256(WORD)
  }

  function WordAt(m: seq<Byte>, off: nat): nat
    requires off + WORD <= |m|
  {
    Decode(m[off..off + WORD])
  }

  /** The two memories agree on the word at `off`. */
  ghost predicate SameWord(m: seq<Byte>, m': seq<Byte>, off: nat) {
    |m| == |m'| && off + WORD <= |m| && m[off..off + WORD] == m'[off..off + WORD]
  }

  lemma SameBytes(m: seq<Byte>, m': seq<Byte>, off: nat)
    requires |m| == |m'| && off + WORD <= |m|
    requires forall i :: off <= i < off + WORD ==> m[i] == m'[i]
    ensures SameWord(m, m', off)
  {
  }

  lemma EncodeStep(v: nat, n: nat, s: seq<Byte>)
    requires n > 0
    ensures s + Encode(v, n) == s + [v % 256] + Encode(v / 256, n - 1)
  {
  }

  lemma {:induction false} EncodeNull(n: nat)
    ensures forall i :: 0 <= i < n ==> Encode(NULL, n)[i] == 0
  {
    if n > 0 { EncodeNull(n - 1); }
  }

  lemma NullBytes(m: seq<Byte>, off: nat)
    requires off + WORD <= |m| && m[off..off + WORD] == Encode(NULL, WORD)
    ensures forall i :: off <= i < off + WORD ==> m[i] == 0
  {
    EncodeNull(WORD);
    forall i | off <= i < off + WORD ensures m[i] == 0 {
      assert m[i] == m[off..off + WORD][i - off];
    }
  }

  lemma EncodeNone(v: nat)
    ensures Encode(v, 0) == []
  {
  }

  method StoreWord(memory: array<Byte>, off: nat, v: nat)
    requires off + WORD <= memory.Length && IsAddress(v)
    modifies memory
    ensures WordAt(memory[..], off) == v && memory[off..off + WORD] == Encode(v, WORD)
    ensures forall i :: 0 <= i < memory.Length && !(off <= i < off + WORD) ==> memory[i] == old(memory[i])
  {
    hide Decode, Encode, Pow256;
    var rest := v;
    assert memory[off..off + 0] == [];
    for i := 0 to WORD
      invariant rest >= 0 && memory[off..off + i] + Encode(rest, WORD - i) == Encode(v, WORD)
      invariant forall j :: 0 <= j < memory.Length && !(off <= j < off + WORD) ==> memory[j] == old(memory[j])
    {
      EncodeStep(rest, WORD - i, memory[off..off + i]);
      memory[off + i] := rest % 256;
      rest := rest / 256;
      assert memory[off..off + i + 1] == memory[off..off + i] + [memory[off + i]];
    }
    DecodeEncode(v, WORD);
    EncodeNone(rest);
    assert memory[..][off..off + WORD] == memory[off..off + WORD] == Encode(v, WORD);
  }

  method LoadWord(memory: array<Byte>, off: nat) returns (v: nat)
    requires off + WORD <= memory.Length
    ensures v == WordAt(memory[..], off)
  {
    v := 0;
    assert memory[..][off + WORD..off + WORD] == [];
    for i := WORD downto 0
      invariant v == Decode(memory[..][off + i..off + WORD])
    {
      v := memory[off + i] + 256 * v;
      assert memory[..][off + i..off + WORD][1..] == memory[..][off + i + 1..off + WORD];
    }
  }

  // ---------- Blocks ----------

  /** Where the `k`-th block starts in the page. */
  ghost function Off(k: nat, bs: nat): nat {
    if k == 0 then 0 else Off(k - 1, bs) + bs
  }

  /** Blocks do not overlap. */
  lemma {:induction false} OffApart(i: nat, j: nat, bs: nat)
    requires i < j
    ensures Off(i, bs) + bs <= Off(j, bs)
  {
    if i < j - 1 { OffApart(i, j - 1, bs); }
  }

  lemma {:induction false} OffIs(k: nat, bs: nat)
    ensures Off(k, bs) == k * bs
  {
    if k > 0 {
      OffIs(k - 1, bs);
      assert k * bs == (k - 1) * bs + bs;
    }
  }

  /** Where the word behind the last block starts. */
  lemma TerminatorAt(bs: nat)
    requires bs >= 1
    ensures Off(PAGE / bs, bs) == PAGE - PAGE % bs
  {
    OffIs(PAGE / bs, bs);
    assert PAGE == (PAGE / bs) * bs + PAGE % bs;
  }

  /** The blocks lie inside the page, and the terminator starts there. */
  lemma OffFits(k: nat, n: nat, bs: nat)
    requires k <= n && Off(n, bs) <= PAGE
    ensures Off(k, bs) <= PAGE && (k < n ==> Off(k, bs) + bs <= PAGE)
  {
    if k < n { OffApart(k, n, bs); }
  }

  // ---------- The free list ----------

  /** The block a list starts with; behind the last block stands the terminator, number `n`. */
  ghost function Head(chain: seq<nat>, n: nat): nat {
    if chain == [] then n else chain[0]
  }

  ghost predicate InRange(chain: seq<nat>, n: nat) {
    forall i :: 0 <= i < |chain| ==> chain[i] < n
  }

  /** Each block of the list holds the address of the next. */
  ghost predicate Linked(m: seq<Byte>, mem: nat, bs: nat, chain: seq<nat>, n: nat) {
    if chain == [] then true
    else
      Off(chain[0], bs) + WORD <= |m| &&
      WordAt(m, Off(chain[0], bs)) == mem + Off(Head(chain[1..], n), bs) &&
      Linked(m, mem, bs, chain[1..], n)
  }

  ghost predicate Distinct(chain: seq<nat>) {
    forall i, j :: 0 <= i < j < |chain| ==> chain[i] != chain[j]
  }

  lemma {:induction false} LinkedFrame(m: seq<Byte>, m': seq<Byte>, mem: nat, bs: nat, chain: seq<nat>, n: nat)
    requires Linked(m, mem, bs, chain, n)
    requires forall i :: 0 <= i < |chain| ==> SameWord(m, m', Off(chain[i], bs))
    ensures Linked(m', mem, bs, chain, n)
  {
    if chain != [] {
      assert forall i :: 0 <= i < |chain[1..]| ==> chain[1..][i] == chain[i + 1];
      LinkedFrame(m, m', mem, bs, chain[1..], n);
      assert SameWord(m, m', Off(chain[0], bs));
    }
  }

  /** A block whose word is the address of the head becomes the new head. */
  lemma PushLinked(m: seq<Byte>, mem: nat, bs: nat, chain: seq<nat>, n: nat, k: nat)
    requires Linked(m, mem, bs, chain, n) && Off(k, bs) + WORD <= |m|
    requires WordAt(m, Off(k, bs)) == mem + Off(Head(chain, n), bs)
    ensures Linked(m, mem, bs, [k] + chain, n)
  {
    assert ([k] + chain)[1..] == chain;
  }

  /** A change inside one block leaves the words of the others alone, and the terminator. */
  lemma OtherBlock(m: seq<Byte>, m': seq<Byte>, bs: nat, k: nat, j: nat, n: nat)
    requires |m| == |m'| >= PAGE + WORD && bs >= WORD && Off(n, bs) <= PAGE
    requires k < n && j <= n && j != k
    requires forall i :: 0 <= i < |m| && !(Off(k, bs) <= i < Off(k, bs) + bs) ==> m[i] == m'[i]
    ensures SameWord(m, m', Off(j, bs))
  {
    OffFits(j, n, bs);
    if j < k { OffApart(j, k, bs); } else { OffApart(k, j, bs); }
    var o := Off(j, bs);
    SameBytes(m, m', o);
  }

  /** The free blocks and the held ones are all the blocks, and none is both. */
  ghost predicate Partition(chain: seq<nat>, live: set<nat>, n: nat) {
    InRange(chain, n) && Distinct(chain) && (forall k :: k in live ==> k < n) &&
    forall k :: 0 <= k < n ==> (k in live) != (k in chain)
  }

  lemma {:induction false} PartitionSize(chain: seq<nat>, live: set<nat>, n: nat)
    requires Partition(chain, live, n)
    ensures |chain| + |live| == n
  {
    if chain != [] {
      var k, rest := chain[0], chain[1..];
      assert forall i :: 0 <= i < |rest| ==> rest[i] == chain[i + 1];
      forall j | 0 <= j < n ensures (j in live + {k}) != (j in rest) {
        if j in chain && j != k {
          var i :| 0 <= i < |chain| && chain[i] == j;
          assert rest[i - 1] == j;
        }
      }
      PartitionSize(rest, live + {k}, n);
    } else {
      AllLive(live, n);
    }
  }

  lemma {:induction false} AllLive(live: set<nat>, n: nat)
    requires (forall k :: k in live ==> k < n) && forall k :: 0 <= k < n ==> k in live
    ensures |live| == n
  {
    if n == 0 {
      assert live == {};
    } else {
      AllLive(live - {n - 1}, n - 1);
    }
  }

  lemma TakePartition(chain: seq<nat>, live: set<nat>, n: nat)
    requires Partition(chain, live, n) && chain != []
    ensures Partition(chain[1..], live + {chain[0]}, n)
  {
    var k, rest := chain[0], chain[1..];
    assert forall i :: 0 <= i < |rest| ==> rest[i] == chain[i + 1];
    forall j | 0 <= j < n ensures (j in live + {k}) != (j in rest) {
      if j in chain && j != k {
        var i :| 0 <= i < |chain| && chain[i] == j;
        assert rest[i - 1] == j;
      }
    }
  }

  lemma GivePartition(chain: seq<nat>, live: set<nat>, n: nat, k: nat)
    requires Partition(chain, live, n) && k in live
    ensures Partition([k] + chain, live - {k}, n)
  {
  }

  // ---------- The slab ----------

  class Slab {
    var blockSize: nat
    var freeCount: int
    var firstFree: nat
    var mem: nat
    var memory: array<Byte>
    ghost var chain: seq<nat>
    ghost var live: set<nat>

    constructor ()
      ensures fresh(memory)
    {
      blockSize, freeCount, firstFree, mem := 0, 0, 0, 0;
      memory := new Byte[0];
      chain, live := [], {};
    }

    /** How many blocks there are. */
    ghost function Blocks(): nat
      reads this
      requires blockSize > 0
    {
      PAGE / blockSize
    }

    ghost function Address(k: nat): nat
      reads this
    {
      mem + Off(k, blockSize)
    }

    ghost predicate Shaped()
      reads this
    {
      blockSize >= WORD && memory.Length >= PAGE + WORD && Off(Blocks(), blockSize) == PAGE - PAGE % blockSize &&
      mem > 0 && IsAddress(mem + PAGE)
    }

    ghost predicate Valid()
      reads this, memory
    {
      Shaped() && Partition(chain, live, Blocks()) && freeCount == |chain| &&
      firstFree == Address(Head(chain, Blocks())) &&
      Linked(memory[..], mem, blockSize, chain, Blocks()) &&
      (PAGE % blockSize >= WORD ==> Ended(memory[..]))
    }

    /** The list ends in a null word. */
    ghost predicate Ended(m: seq<Byte>)
      reads this
      requires blockSize > 0
    {
      Off(Blocks(), blockSize) + WORD <= |m| && WordAt(m, Off(Blocks(), blockSize)) == NULL
    }

    /** Free and held blocks together are the blocks of the page. */
    lemma Conserved()
      requires Valid()
      ensures freeCount + |live| == PAGE / blockSize
    {
      PartitionSize(chain, live, Blocks());
    }

    /** The bytes of a block lie inside the page and in no other block. */
    lemma Disjoint(k: nat, j: nat)
      requires Valid() && k < Blocks() && j < Blocks() && k != j
      ensures mem <= Address(k) && Address(k) + blockSize <= mem + PAGE
      ensures Address(k) + blockSize <= Address(j) || Address(j) + blockSize <= Address(k)
    {
      OffFits(k, Blocks(), blockSize);
      if k < j { OffApart(k, j, blockSize); } else { OffApart(j, k, blockSize); }
    }

    /** The holder of a block writes one of its bytes. */
    method Scribble(ptr: nat, i: nat, b: Byte, ghost k: nat)
      requires Valid() && k in live && ptr == Address(k) && i < blockSize
      modifies memory
      ensures Valid()
      ensures forall j :: 0 <= j < memory.Length ==> memory[j] == if mem + j == ptr + i then b else old(memory[j])
    {
      Disjointness(k);
      ghost var m := memory[..];
      memory[ptr - mem + i] := b;
      Untouched(m, k);
    }

    lemma Disjointness(k: nat)
      requires Shaped() && k < Blocks()
      ensures Off(k, blockSize) + blockSize <= PAGE
    {
      OffFits(k, Blocks(), blockSize);
    }

    /** Whoever owns the memory behind the page writes there. */
    method WriteOutside(i: nat, b: Byte)
      requires Valid() && PAGE <= i < memory.Length
      modifies memory
      ensures Valid() && memory[i] == b
      ensures forall j :: 0 <= j < memory.Length && j != i ==> memory[j] == old(memory[j])
    {
      ghost var m, n := memory[..], Blocks();
      memory[i] := b;
      forall x | 0 <= x < |chain| ensures SameWord(m, memory[..], Off(chain[x], blockSize)) {
        OffFits(chain[x], n, blockSize);
        SameBytes(m, memory[..], Off(chain[x], blockSize));
      }
      LinkedFrame(m, memory[..], mem, blockSize, chain, n);
      if PAGE % blockSize >= WORD {
        SameBytes(m, memory[..], Off(n, blockSize));
      }
    }

    /** Whatever happened inside a block that is not free, the free list is as it was. */
    lemma Untouched(m: seq<Byte>, k: nat)
      requires Shaped() && Partition(chain, live, Blocks()) && k in live
      requires |m| == memory.Length && Linked(m, mem, blockSize, chain, Blocks())
      requires forall i :: 0 <= i < |m| && !(Off(k, blockSize) <= i < Off(k, blockSize) + blockSize) ==>
        m[i] == memory[i]
      ensures Linked(memory[..], mem, blockSize, chain, Blocks())
      ensures Ended(m) ==> Ended(memory[..])
    {
      var n := Blocks();
      forall i | 0 <= i < |chain| ensures SameWord(m, memory[..], Off(chain[i], blockSize)) {
        assert chain[i] in chain;
        OtherBlock(m, memory[..], blockSize, k, chain[i], n);
      }
      LinkedFrame(m, memory[..], mem, blockSize, chain, n);
      OtherBlock(m, memory[..], blockSize, k, n, n);
    }
  }

  // ---------- Building the list ----------

  ghost function From(k: nat, n: nat): (r: seq<nat>)
    requires k <= n
    decreases n - k
    ensures |r| == n - k && forall i :: 0 <= i < |r| ==> r[i] == k + i
  {
    if k == n then [] else [k] + From(k + 1, n)
  }

  /** The word of block `k` is the address behind that block. */
  ghost predicate Onward(m: seq<Byte>, mem: nat, bs: nat, k: nat) {
    Off(k, bs) + WORD <= |m| && WordAt(m, Off(k, bs)) == mem + Off(k + 1, bs)
  }

  /** Links written one after the other make the list of all blocks. */
  lemma {:induction false} AllLinked(m: seq<Byte>, mem: nat, bs: nat, k: nat, n: nat)
    requires k <= n
    requires forall i :: k <= i < n ==> Onward(m, mem, bs, i)
    ensures Linked(m, mem, bs, From(k, n), n)
    decreases n - k
  {
    if k < n {
      AllLinked(m, mem, bs, k + 1, n);
      assert From(k, n)[1..] == From(k + 1, n);
      assert Head(From(k + 1, n), n) == k + 1;
      assert Onward(m, mem, bs, k);
    }
  }

  lemma FromPartition(n: nat)
    ensures Partition(From(0, n), {}, n) && Head(From(0, n), n) == 0
  {
    forall k | 0 <= k < n ensures k in From(0, n) {
      assert From(0, n)[k] == k;
    }
  }

  /** One more link does not disturb those before it. */
  lemma EarlierWords(m: seq<Byte>, m': seq<Byte>, mem: nat, bs: nat, i: nat, n: nat)
    requires |m| == |m'| >= PAGE + WORD && bs >= WORD && i <= n && Off(n, bs) <= PAGE
    requires forall j :: 0 <= j < |m| && !(Off(i, bs) <= j < Off(i, bs) + WORD) ==> m[j] == m'[j]
    ensures forall k :: 0 <= k < i && Onward(m, mem, bs, k) ==> Onward(m', mem, bs, k)
  {
    forall k | 0 <= k < i && Onward(m, mem, bs, k) ensures Onward(m', mem, bs, k) {
      OffFits(k, n, bs);
      OffApart(k, i, bs);
      SameBytes(m, m', Off(k, bs));
    }
  }

  method WriteLinks(memory: array<Byte>, mem: nat, bs: nat, count: nat)
    requires memory.Length >= PAGE + WORD && bs >= WORD && Off(count, bs) <= PAGE && IsAddress(mem + PAGE)
    modifies memory
    ensures Linked(memory[..], mem, bs, From(0, count), count) && WordAt(memory[..], Off(count, bs)) == NULL
    ensures forall i :: Off(count, bs) <= i < memory.Length ==>
      memory[i] == if i < Off(count, bs) + WORD then 0 else old(memory[i])
  {
    hide Linked, Encode, Decode, Pow256, From;
    var off := 0;
    for i := 0 to count
      invariant off == Off(i, bs)
      invariant forall k :: 0 <= k < i ==> Onward(memory[..], mem, bs, k)
      invariant forall j :: off <= j < memory.Length ==> memory[j] == old(memory[j])
    {
      ghost var m := memory[..];
      OffFits(i, count, bs);
      OffFits(i + 1, count, bs);
      StoreWord(memory, off, mem + off + bs);
      EarlierWords(m, memory[..], mem, bs, i, count);
      off := off + bs;
    }
    ghost var m := memory[..];
    StoreWord(memory, off, NULL);
    EarlierWords(m, memory[..], mem, bs, count, count);
    AllLinked(memory[..], mem, bs, 0, count);
    NullBytes(memory[..], off);
  }

  // ---------- The calls ----------

  /**
   The page is at the start of `memory`, and what lies behind it belongs to others.  `base`
   is its address, null when the page could not be had.  The word behind the last block
   reaches out of the page exactly when fewer than eight bytes are left over.
   */
  method InitSlab(s: Slab?, blockSize: nat, memory: array<Byte>, base: nat) returns (rc: int)
    requires blockSize >= WORD && memory.Length >= PAGE + WORD && IsAddress(base + PAGE)
    modifies s, memory
    ensures rc == if s == null || base == NULL then -1 else 0
    ensures rc == 0 ==>
      s.Valid() && s.live == {} && s.chain == From(0, PAGE / blockSize) &&
      s.memory == memory && s.blockSize == blockSize && s.mem == base
    ensures rc == 0 ==> forall i :: PAGE <= i < memory.Length ==>
      memory[i] == if i < PAGE + WORD - PAGE % blockSize then 0 else old(memory[i])
    ensures rc == 0 && old(memory[PAGE]) != 0 ==>
      (PAGE % blockSize < WORD <==> exists i :: PAGE <= i < memory.Length && memory[i] != old(memory[i]))
  {
    hide Linked, Pow256, Off, Partition, From, Decode, Encode;
    if s == null {
      return -1;
    }
    s.blockSize := blockSize;
    s.freeCount := PAGE / blockSize;
    s.firstFree := base;
    if s.firstFree == NULL {
      return -1;
    }
    s.mem := s.firstFree;
    s.memory := memory;
    Fill(s, memory);
    return 0;
  }

  /** The loop of the initialisation: links in all blocks and a null word behind them. */
  method Fill(s: Slab, memory: array<Byte>)
    requires s.blockSize >= WORD && s.freeCount == PAGE / s.blockSize && s.memory == memory
    requires memory.Length >= PAGE + WORD && s.mem == s.firstFree > 0 && IsAddress(s.mem + PAGE)
    modifies memory, s`chain, s`live
    ensures s.Valid() && s.live == {} && s.chain == From(0, PAGE / s.blockSize)
    ensures forall i :: PAGE <= i < memory.Length ==>
      memory[i] == if i < PAGE + WORD - PAGE % s.blockSize then 0 else old(memory[i])
  {
    ghost var n := PAGE / s.blockSize;
    TerminatorAt(s.blockSize);
    FromPartition(n);
    assert Off(0, s.blockSize) == 0;
    hide Linked, Pow256, Off, Partition, From, Decode, Encode;
    WriteLinks(memory, s.mem, s.blockSize, s.freeCount);
    s.chain, s.live := From(0, n), {};
  }

  /** A block that nobody holds, or null when every block is held. */
  method AllocSlab(s: Slab?) returns (ptr: nat)
    requires s != null ==> s.Valid()
    modifies s
    ensures s == null ==> ptr == NULL
    ensures s != null ==>
      s.Valid() && s.memory == old(s.memory) && s.blockSize == old(s.blockSize) && s.mem == old(s.mem)
    ensures s != null && old(s.chain) == [] ==>
      ptr == NULL && s.chain == old(s.chain) && s.live == old(s.live)
    ensures s != null && old(s.chain) != [] ==>
      ptr == s.Address(old(s.chain)[0]) && ptr != NULL && old(s.chain)[0] !in old(s.live) &&
      s.chain == old(s.chain)[1..] && s.live == old(s.live) + {old(s.chain)[0]}
  {
    if s == null || s.freeCount == 0 {
      return NULL;
    }
    TakePartition(s.chain, s.live, s.Blocks());
    OffFits(s.chain[0], s.Blocks(), s.blockSize);
    ptr := s.firstFree;
    s.firstFree := LoadWord(s.memory, ptr - s.mem);
    s.freeCount := s.freeCount - 1;
    s.live := s.live + {s.chain[0]};
    s.chain := s.chain[1..];
  }

  method FreeSlab(s: Slab, ptr: nat, ghost k: nat)
    requires s.Valid() && k in s.live && ptr == s.Address(k)
    modifies s, s.memory
    ensures s.Valid() && s.memory == old(s.memory) && s.blockSize == old(s.blockSize) && s.mem == old(s.mem)
    ensures s.chain == [k] + old(s.chain) && s.live == old(s.live) - {k}
    ensures forall x :: 0 <= x < s.memory.Length && !(ptr <= s.mem + x < ptr + WORD) ==>
      s.memory[x] == old(s.memory[x])
  {
    hide Linked, Partition, Off, Decode, Encode, Pow256;
    ghost var n := s.Blocks();
    LinkIn(s, ptr, k);
    s.firstFree := ptr;
    s.freeCount := s.freeCount + 1;
    GivePartition(s.chain, s.live, n, k);
    s.chain, s.live := [k] + s.chain, s.live - {k};
  }

  /** The old head is written into the block that comes back. */
  method LinkIn(s: Slab, ptr: nat, ghost k: nat)
    requires s.Valid() && k in s.live && ptr == s.Address(k)
    modifies s.memory
    ensures Linked(s.memory[..], s.mem, s.blockSize, [k] + s.chain, s.Blocks())
    ensures PAGE % s.blockSize >= WORD ==> s.Ended(s.memory[..])
    ensures forall x :: 0 <= x < s.memory.Length && !(ptr <= s.mem + x < ptr + WORD) ==>
      s.memory[x] == old(s.memory[x])
  {
    hide Decode, Encode, Pow256, Linked;
    ghost var m, n := s.memory[..], s.Blocks();
    s.Disjointness(k);
    OffFits(Head(s.chain, n), n, s.blockSize);
    StoreWord(s.memory, ptr - s.mem, s.firstFree);
    s.Untouched(m, k);
    PushLinked(s.memory[..], s.mem, s.blockSize, s.chain, n, k);
  }

  /** With blocks of sixteen bytes the page is used up, and the eight bytes behind it are cleared. */
  method SixteenOverruns(memory: array<Byte>, base: nat)
    requires memory.Length >= PAGE + WORD && base != NULL && IsAddress(base + PAGE)
    modifies memory
    ensures forall i :: PAGE <= i < PAGE + WORD ==> memory[i] == 0
  {
    var s := new Slab();
    var rc := InitSlab(s, 16, memory, base);
  }

  // ---------- Runs ----------

  /** Calls of clients that free, and write to, the `i`-th of the blocks they hold, and writes behind the page. */
  datatype Op = Alloc | Free(i: nat) | Write(i: nat, at: nat, b: Byte) | Outside(at: nat, b: Byte)

  /** A stack of free blocks and the list of the held ones. */
  datatype State = State(chain: seq<nat>, held: seq<nat>)

  function Step(s: State, op: Op): State {
    match op
    case Alloc => if s.chain == [] then s else State(s.chain[1..], s.held + [s.chain[0]])
    case Free(i) => if i < |s.held| then State([s.held[i]] + s.chain, s.held[..i] + s.held[i + 1..]) else s
    case Write(_, _, _) => s
    case Outside(_, _) => s
  }

  ghost function Run(ops: seq<Op>, n: nat): State {
    if ops == [] then State(From(0, n), []) else Step(Run(ops[..|ops| - 1], n), ops[|ops| - 1])
  }

  ghost function Members(held: seq<nat>): set<nat> {
    set k | k in held
  }

  ghost predicate Split(s: State, n: nat) {
    Distinct(s.held) && Partition(s.chain, Members(s.held), n)
  }

  lemma WithoutMember(held: seq<nat>, i: nat)
    requires i < |held| && Distinct(held)
    ensures Members(held[..i] + held[i + 1..]) == Members(held) - {held[i]}
    ensures Distinct(held[..i] + held[i + 1..])
  {
    var r := held[..i] + held[i + 1..];
    forall k | 0 <= k < |r| ensures r[k] == held[if k < i then k else k + 1] {
    }
    forall k | k in held && k != held[i] ensures k in r {
      var x :| 0 <= x < |held| && held[x] == k;
      assert r[if x < i then x else x - 1] == k;
    }
  }

  lemma StepSplit(s: State, op: Op, n: nat)
    requires Split(s, n)
    ensures Split(Step(s, op), n)
  {
    match op {
      case Alloc =>
        if s.chain != [] {
          assert s.chain[0] in s.chain;
          TakePartition(s.chain, Members(s.held), n);
          assert Members(s.held + [s.chain[0]]) == Members(s.held) + {s.chain[0]};
        }
      case Free(i) =>
        if i < |s.held| {
          WithoutMember(s.held, i);
          GivePartition(s.chain, Members(s.held), n, s.held[i]);
        }
      case Write(_, _, _) =>
      case Outside(_, _) =>
    }
  }

  /** After every run, each block is free once or held once, and none is lost. */
  lemma {:induction false} AlwaysSplit(ops: seq<Op>, n: nat)
    ensures Split(Run(ops, n), n) && |Run(ops, n).chain| + |Run(ops, n).held| == n
  {
    if ops == [] {
      FromPartition(n);
      assert Members([]) == {};
    } else {
      AlwaysSplit(ops[..|ops| - 1], n);
      StepSplit(Run(ops[..|ops| - 1], n), ops[|ops| - 1], n);
    }
    var s := Run(ops, n);
    PartitionSize(s.chain, Members(s.held), n);
    MembersSize(s.held);
  }

  lemma {:induction false} MembersSize(held: seq<nat>)
    requires Distinct(held)
    ensures |Members(held)| == |held|
  {
    if held == [] {
      assert Members(held) == {};
    } else {
      var rest := held[..|held| - 1];
      MembersSize(rest);
      assert Members(held) == Members(rest) + {held[|held| - 1]};
    }
  }

  lemma RunNext(ops: seq<Op>, i: nat, n: nat)
    requires i < |ops|
    ensures Run(ops[..i + 1], n) == Step(Run(ops[..i], n), ops[i])
  {
    assert ops[..i + 1][..i] == ops[..i];
  }

  /** The pointers are the addresses of these blocks. */
  ghost predicate At(held: seq<nat>, blocks: seq<nat>, mem: nat, bs: nat) {
    |held| == |blocks| && forall i :: 0 <= i < |held| ==> held[i] == mem + Off(blocks[i], bs)
  }

  /** The object is in this state. */
  ghost predicate Shows(s: Slab, held: seq<nat>, st: State)
    reads s, s.memory
  {
    s.Valid() && s.chain == st.chain && s.live == Members(st.held) && At(held, st.held, s.mem, s.blockSize)
  }

  /** The call may write the byte at `x`. */
  ghost predicate Reaches(op: Op, held: seq<nat>, mem: nat, bs: nat, x: nat) {
    match op
    case Alloc => false
    case Free(i) => i < |held| && held[i] <= mem + x < held[i] + WORD
    case Write(i, at, _) => i < |held| && at < bs && mem + x == held[i] + at
    case Outside(at, _) => at >= PAGE && x == at
  }

  method Do(s: Slab, held: seq<nat>, op: Op, ghost st: State) returns (held': seq<nat>)
    requires Shows(s, held, st) && Split(st, s.Blocks())
    modifies s, s.memory
    ensures Shows(s, held', Step(st, op))
    ensures s.memory == old(s.memory) && s.blockSize == old(s.blockSize) && s.mem == old(s.mem)
    ensures forall x :: 0 <= x < s.memory.Length && !Reaches(op, held, s.mem, s.blockSize, x) ==>
      s.memory[x] == old(s.memory[x])
    ensures op.Write? && op.i < |held| && op.at < s.blockSize ==>
      forall x :: 0 <= x < s.memory.Length && s.mem + x == held[op.i] + op.at ==> s.memory[x] == op.b
  {
    hide Linked, Off, Partition, Pow256;
    held' := held;
    match op {
      case Alloc =>
        var ptr := AllocSlab(s);
        if ptr != NULL {
          held' := held + [ptr];
          assert Members(st.held + [st.chain[0]]) == Members(st.held) + {st.chain[0]};
        }
      case Free(i) =>
        if i < |held| {
          WithoutMember(st.held, i);
          FreeSlab(s, held[i], st.held[i]);
          held' := held[..i] + held[i + 1..];
        }
      case Write(i, at, b) =>
        if i < |held| && at < s.blockSize {
          s.Scribble(held[i], at, b, st.held[i]);
        }
      case Outside(at, b) =>
        if PAGE <= at < s.memory.Length {
          s.WriteOutside(at, b);
        }
    }
  }

  // ---------- What a holder wrote ----------

  /** The last byte that was written at `o` of block `k` since it was handed out. */
  ghost function LastWrite(ops: seq<Op>, n: nat, k: nat, o: nat): Option<Byte> {
    if ops == [] then None
    else
      var before := ops[..|ops| - 1];
      var st := Run(before, n);
      match ops[|ops| - 1]
      case Alloc => if st.chain != [] && st.chain[0] == k then None else LastWrite(before, n, k, o)
      case Free(i) => if i < |st.held| && st.held[i] == k then None else LastWrite(before, n, k, o)
      case Write(i, at, b) =>
        if i < |st.held| && st.held[i] == k && at == o then Some(b) else LastWrite(before, n, k, o)
      case Outside(_, _) => LastWrite(before, n, k, o)
  }

  ghost predicate Remembers(m: seq<Byte>, ops: seq<Op>, n: nat, bs: nat, k: nat, o: nat) {
    Off(k, bs) + o < |m| && (LastWrite(ops, n, k, o).Some? ==> m[Off(k, bs) + o] == LastWrite(ops, n, k, o).value)
  }

  /** Each held block holds what its holder last wrote. */
  ghost predicate AllRemember(m: seq<Byte>, ops: seq<Op>, n: nat, bs: nat) {
    forall k, o | k in Run(ops, n).held && 0 <= o < bs :: Remembers(m, ops, n, bs, k, o)
  }

  lemma RemembersNext(m: seq<Byte>, m': seq<Byte>, ops: seq<Op>, op: Op, n: nat, bs: nat, k: nat, o: nat,
                      held: seq<nat>, mem: nat)
    requires bs >= WORD && Off(n, bs) <= PAGE <= |m| == |m'|
    requires Split(Run(ops, n), n) && AllRemember(m, ops, n, bs)
    requires At(held, Run(ops, n).held, mem, bs)
    requires forall x :: 0 <= x < |m| && !Reaches(op, held, mem, bs, x) ==> m'[x] == m[x]
    requires op.Write? && op.i < |held| && op.at < bs ==>
      forall x :: 0 <= x < |m| && mem + x == held[op.i] + op.at ==> m'[x] == op.b
    requires k in Step(Run(ops, n), op).held && o < bs
    ensures Remembers(m', ops + [op], n, bs, k, o)
  {
    var st, x := Run(ops, n), Off(k, bs) + o;
    assert (ops + [op])[..|ops|] == ops;
    StepSplit(st, op, n);
    assert k in Members(Step(st, op).held);
    OffFits(k, n, bs);
    if LastWrite(ops + [op], n, k, o).Some? {
      StillHeld(st, op, k, n);
      if !(op.Write? && op.i < |held| && st.held[op.i] == k && op.at == o) {
        assert Remembers(m, ops, n, bs, k, o);
        NotReached(held, st, op, mem, bs, k, o, n);
      }
    }
  }

  /** A held block that the call did not hand out was held before, and the call did not free it. */
  lemma StillHeld(st: State, op: Op, k: nat, n: nat)
    requires Split(st, n) && k in Step(st, op).held
    requires !(op.Alloc? && st.chain != [] && st.chain[0] == k)
    ensures k in st.held && !(op.Free? && op.i < |st.held| && st.held[op.i] == k)
  {
    if op.Free? && op.i < |st.held| {
      WithoutMember(st.held, op.i);
      assert k in Members(Step(st, op).held);
    }
  }

  /** A call on another block, or on another byte, does not reach this one. */
  lemma NotReached(held: seq<nat>, st: State, op: Op, mem: nat, bs: nat, k: nat, o: nat, n: nat)
    requires bs >= WORD && Off(n, bs) <= PAGE && k < n && o < bs && At(held, st.held, mem, bs)
    requires !(op.Free? && op.i < |held| && st.held[op.i] == k)
    requires !(op.Write? && op.i < |held| && st.held[op.i] == k && op.at == o)
    ensures !Reaches(op, held, mem, bs, Off(k, bs) + o)
  {
    OffFits(k, n, bs);
    if (op.Free? || op.Write?) && op.i < |held| && st.held[op.i] != k {
      var j := st.held[op.i];
      if j < k { OffApart(j, k, bs); } else { OffApart(k, j, bs); }
    }
  }

  lemma AllRememberNext(m: seq<Byte>, m': seq<Byte>, ops: seq<Op>, i: nat, n: nat, bs: nat, held: seq<nat>, mem: nat)
    requires i < |ops| && bs >= WORD && Off(n, bs) <= PAGE <= |m| == |m'|
    requires Split(Run(ops[..i], n), n) && AllRemember(m, ops[..i], n, bs) && At(held, Run(ops[..i], n).held, mem, bs)
    requires forall x :: 0 <= x < |m| && !Reaches(ops[i], held, mem, bs, x) ==> m'[x] == m[x]
    requires ops[i].Write? && ops[i].i < |held| && ops[i].at < bs ==>
      forall x :: 0 <= x < |m| && mem + x == held[ops[i].i] + ops[i].at ==> m'[x] == ops[i].b
    ensures AllRemember(m', ops[..i + 1], n, bs)
  {
    var next := ops[..i + 1];
    assert next == ops[..i] + [ops[i]];
    RunNext(ops, i, n);
    forall k, o | k in Run(next, n).held && 0 <= o < bs ensures Remembers(m', next, n, bs, k, o) {
      RemembersNext(m, m', ops[..i], ops[i], n, bs, k, o, held, mem);
    }
  }

  lemma NobodyRemembers(m: seq<Byte>, n: nat, bs: nat)
    ensures AllRemember(m, [], n, bs)
  {
  }

  lemma HeldRemember(m: seq<Byte>, ops: seq<Op>, n: nat, bs: nat, held: seq<nat>, mem: nat)
    requires AllRemember(m, ops, n, bs) && At(held, Run(ops, n).held, mem, bs)
    ensures forall i, o :: 0 <= i < |held| && 0 <= o < bs && LastWrite(ops, n, Run(ops, n).held[i], o).Some? ==>
      mem <= held[i] && held[i] - mem + o < |m| &&
      m[held[i] - mem + o] == LastWrite(ops, n, Run(ops, n).held[i], o).value
  {
    hide LastWrite, Run;
    forall i, o | 0 <= i < |held| && 0 <= o < bs && LastWrite(ops, n, Run(ops, n).held[i], o).Some?
      ensures mem <= held[i] && held[i] - mem + o < |m| &&
              m[held[i] - mem + o] == LastWrite(ops, n, Run(ops, n).held[i], o).value
    {
      assert Remembers(m, ops, n, bs, Run(ops, n).held[i], o);
    }
  }

  /** The next call of a run. */
  method DoNext(s: Slab, held: seq<nat>, ops: seq<Op>, i: nat) returns (held': seq<nat>)
    requires i < |ops| && s.blockSize > 0 && Shows(s, held, Run(ops[..i], s.Blocks()))
    requires AllRemember(s.memory[..], ops[..i], s.Blocks(), s.blockSize)
    modifies s, s.memory
    ensures s.memory == old(s.memory) && s.blockSize == old(s.blockSize) && s.mem == old(s.mem)
    ensures Shows(s, held', Run(ops[..i + 1], s.Blocks()))
    ensures AllRemember(s.memory[..], ops[..i + 1], s.Blocks(), s.blockSize)
  {
    hide Linked, Off, Partition, Pow256, Step, LastWrite, AllRemember, Reaches, Split;
    ghost var m, n := s.memory[..], s.Blocks();
    RunNext(ops, i, n);
    AlwaysSplit(ops[..i], n);
    held' := Do(s, held, ops[i], Run(ops[..i], n));
    AllRememberNext(m, s.memory[..], ops, i, n, s.blockSize, held, s.mem);
  }

  /**
   Any run on a new slab: the pointers held at its end are blocks of the page, pairwise
   disjoint, and each block holds what its holder last wrote.
   */
  method Replay(blockSize: nat, memory: array<Byte>, base: nat, ops: seq<Op>) returns (held: seq<nat>)
    requires blockSize >= WORD && memory.Length >= PAGE + WORD
    requires base != NULL && IsAddress(base + PAGE)
    modifies memory
    ensures var blocks := Run(ops, PAGE / blockSize).held;
            |held| == |blocks| && forall i :: 0 <= i < |held| ==> held[i] == base + Off(blocks[i], blockSize)
    ensures forall i :: 0 <= i < |held| ==> base <= held[i] && held[i] + blockSize <= base + PAGE
    ensures forall i, j :: 0 <= i < j < |held| ==> held[i] + blockSize <= held[j] || held[j] + blockSize <= held[i]
    ensures forall i, o ::
      0 <= i < |held| && 0 <= o < blockSize &&
      LastWrite(ops, PAGE / blockSize, Run(ops, PAGE / blockSize).held[i], o).Some? ==>
        memory[held[i] - base + o] == LastWrite(ops, PAGE / blockSize, Run(ops, PAGE / blockSize).held[i], o).value
  {
    hide Linked, Off, Partition, Pow256, LastWrite, AllRemember, Split, Run, Shows;
    var s := new Slab();
    var rc := InitSlab(s, blockSize, memory, base);
    held := PlayAll(s, ops);
    HeldApart(s, held, Run(ops, s.Blocks()));
    HeldRemember(memory[..], ops, s.Blocks(), blockSize, held, base);
  }

  /** All calls of a run, on a slab with nothing handed out. */
  method PlayAll(s: Slab, ops: seq<Op>) returns (held: seq<nat>)
    requires s.Valid() && s.live == {} && s.chain == From(0, s.Blocks())
    modifies s, s.memory
    ensures s.memory == old(s.memory) && s.blockSize == old(s.blockSize) && s.mem == old(s.mem)
    ensures Shows(s, held, Run(ops, s.Blocks())) && Split(Run(ops, s.Blocks()), s.Blocks())
    ensures AllRemember(s.memory[..], ops, s.Blocks(), s.blockSize)
  {
    ghost var n := s.Blocks();
    held := [];
    assert Members([]) == {} && Run([], n) == State(From(0, n), []);
    NobodyRemembers(s.memory[..], n, s.blockSize);
    hide Linked, Off, Partition, Pow256, LastWrite, AllRemember, Split, Run;
    for i := 0 to |ops|
      invariant s.memory == old(s.memory) && s.blockSize == old(s.blockSize) && s.mem == old(s.mem)
      invariant Shows(s, held, Run(ops[..i], n)) && AllRemember(s.memory[..], ops[..i], n, s.blockSize)
    {
      held := DoNext(s, held, ops, i);
    }
    assert ops[..|ops|] == ops;
    AlwaysSplit(ops, n);
  }

  lemma HeldApart(s: Slab, held: seq<nat>, st: State)
    requires Shows(s, held, st) && Split(st, s.Blocks())
    ensures At(held, st.held, s.mem, s.blockSize)
    ensures forall i :: 0 <= i < |held| ==> s.mem <= held[i] && held[i] + s.blockSize <= s.mem + PAGE
    ensures forall i, j :: 0 <= i < j < |held| ==>
      held[i] + s.blockSize <= held[j] || held[j] + s.blockSize <= held[i]
  {
    forall i | 0 <= i < |held| ensures s.mem <= held[i] && held[i] + s.blockSize <= s.mem + PAGE {
      assert st.held[i] in Members(st.held);
      s.Disjointness(st.held[i]);
    }
    forall i, j | 0 <= i < j < |held| ensures held[i] + s.blockSize <= held[j] || held[j] + s.blockSize <= held[i] {
      assert st.held[i] in Members(st.held) && st.held[j] in Members(st.held);
      s.Disjoint(st.held[i], st.held[j]);
    }
  }
}
