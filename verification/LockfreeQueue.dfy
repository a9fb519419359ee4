/**
 The lock-free queue as a step system.

 Any number of threads share a heap of nodes and the `head` and `tail` pointers.  Every
 atomic load, every compare-and-swap and the plain read of a value is one step, and a
 compare-and-swap may fail for no reason.  Nodes are never reused, which is what holding
 shared pointers to them gives the source.  Program points carry the local variables that
 are live there, and are named after the step that comes next.
 */
module LockfreeQueue {
  import opened Common

  datatype Ptr = Null | To(id: nat)

  datatype Node<T> = Node(data: T, next: Ptr)

  datatype Op<T> = Enqueue(v: T) | Dequeue | IsEmpty

  datatype Result<T> = Done | Value(v: T) | Nothing | Answer(empty: bool)

  datatype PC<T> =
    | Idle
    | EnqNew(v: T)
    | EnqLoadTail(v: T, node: nat)
    | EnqLoadNext(v: T, node: nat, tail: nat)
    | EnqCheck(v: T, node: nat, tail: nat, next: Ptr)
    | EnqLink(v: T, node: nat, tail: nat)
    | EnqSwing(v: T, node: nat, tail: nat)
    | EnqHelp(v: T, node: nat, tail: nat, succ: nat)
    | DeqLoadHead
    | DeqLoadTail(head: nat)
    | DeqLoadNext(head: nat, tail: nat)
    | DeqCheck(head: nat, tail: nat, next: Ptr)
    | DeqHelp(tail: nat, succ: nat)
    | DeqTake(head: nat, succ: nat)
    | DeqSwing(head: nat, succ: nat, value: T)
    | EmptyLoadHead
    | EmptyLoadTail(head: nat)
    | EmptyLoadNext(head: nat)
    | Returned(op: Op<T>, result: Result<T>)

  datatype Shared<T> = Shared(heap: seq<Node<T>>, head: nat, tail: nat)

  datatype State<T> = State(mem: Shared<T>, threads: seq<PC<T>>)

  /** `fails` is the spurious failure of a weak compare-and-swap; other steps ignore it. */
  datatype Action<T> = Invoke(tid: nat, op: Op<T>) | Step(tid: nat, fails: bool) | Return(tid: nat)

  /** The write of a step to the shared memory. */
  datatype Write<T> = Keep | Alloc(v: T) | Link(at: nat, node: nat) | SetTail(node: nat) | SetHead(node: nat)

  function Apply<T>(m: Shared<T>, w: Write<T>): Shared<T> {
    match w
    case Keep => m
    case Alloc(v) => m.(heap := m.heap + [Node(v, Null)])
    case Link(at, node) =>
      if at < |m.heap| then m.(heap := m.heap[at := m.heap[at].(next := To(node))]) else m
    case SetTail(node) => m.(tail := node)
    case SetHead(node) => m.(head := node)
  }

  /** The `next` field of a node, as an atomic load reads it. */
  function NextOf<T>(m: Shared<T>, id: nat): Ptr {
    if id < |m.heap| then m.heap[id].next else Null
  }

  function Start<T>(op: Op<T>): PC<T> {
    match op
    case Enqueue(v) => EnqNew(v)
    case Dequeue => DeqLoadHead
    case IsEmpty => EmptyLoadHead
  }

  /** Where a thread goes with one step, and what it writes. */
  function Move<T>(m: Shared<T>, pc: PC<T>, fails: bool): (PC<T>, Write<T>) {
    match pc
    case EnqNew(v) => (EnqLoadTail(v, |m.heap|), Alloc(v))
    case EnqLoadTail(v, node) => (EnqLoadNext(v, node, m.tail), Keep)
    case EnqLoadNext(v, node, tail) => (EnqCheck(v, node, tail, NextOf(m, tail)), Keep)
    case EnqCheck(v, node, tail, next) =>
      if tail != m.tail then (EnqLoadTail(v, node), Keep)
      else if next.Null? then (EnqLink(v, node, tail), Keep)
      else (EnqHelp(v, node, tail, next.id), Keep)
    case EnqLink(v, node, tail) =>
      if !fails && NextOf(m, tail).Null? then (EnqSwing(v, node, tail), Link(tail, node))
      else (EnqLoadTail(v, node), Keep)
    case EnqSwing(v, node, tail) =>
      (Returned(Enqueue(v), Done), if !fails && m.tail == tail then SetTail(node) else Keep)
    case EnqHelp(v, node, tail, succ) =>
      (EnqLoadTail(v, node), if !fails && m.tail == tail then SetTail(succ) else Keep)
    case DeqLoadHead => (DeqLoadTail(m.head), Keep)
    case DeqLoadTail(head) => (DeqLoadNext(head, m.tail), Keep)
    case DeqLoadNext(head, tail) => (DeqCheck(head, tail, NextOf(m, head)), Keep)
    case DeqCheck(head, tail, next) =>
      if head != m.head then (DeqLoadHead, Keep)
      else if head == tail then
        (if next.Null? then (Returned(Dequeue, Nothing), Keep) else (DeqHelp(tail, next.id), Keep))
      else if next.To? then (DeqTake(head, next.id), Keep)
      else (DeqLoadHead, Keep)
    case DeqHelp(tail, succ) =>
      (DeqLoadHead, if !fails && m.tail == tail then SetTail(succ) else Keep)
    case DeqTake(head, succ) =>
      if succ < |m.heap| then (DeqSwing(head, succ, m.heap[succ].data), Keep) else (DeqLoadHead, Keep)
    case DeqSwing(head, succ, value) =>
      if !fails && m.head == head then (Returned(Dequeue, Value(value)), SetHead(succ)) else (DeqLoadHead, Keep)
    case EmptyLoadHead => (EmptyLoadTail(m.head), Keep)
    case EmptyLoadTail(head) =>
      if head == m.tail then (EmptyLoadNext(head), Keep) else (Returned(IsEmpty, Answer(false)), Keep)
    case EmptyLoadNext(head) => (Returned(IsEmpty, Answer(NextOf(m, head).Null?)), Keep)
    case Idle => (Idle, Keep)
    case Returned(op, result) => (pc, Keep)
  }

  /** One action; one that is not enabled leaves the state alone. */
  function Next<T>(s: State<T>, a: Action<T>): State<T> {
    if a.tid >= |s.threads| then s
    else
      var pc := s.threads[a.tid];
      match a
      case Invoke(tid, op) => if pc.Idle? then s.(threads := s.threads[tid := Start(op)]) else s
      case Return(tid) => if pc.Returned? then s.(threads := s.threads[tid := Idle]) else s
      case Step(tid, fails) =>
        var (pc', w) := Move(s.mem, pc, fails);
        State(Apply(s.mem, w), s.threads[tid := pc'])
  }

  ghost predicate Init<T>(s: State<T>) {
    |s.mem.heap| == 1 && s.mem.heap[0].next.Null? && s.mem.head == 0 && s.mem.tail == 0 &&
    forall i :: 0 <= i < |s.threads| ==> s.threads[i].Idle?
  }

  // ---------- The shape of the queue ----------

  /**
   `ids` lists every node ever linked, oldest first; `h` and `k` are the places of `head`
   and `tail` in it.
   */
  datatype Chain = Chain(ids: seq<nat>, h: nat, k: nat)

  /** One acyclic chain ending in null; `head` not past `tail`; `tail` at the last or last but one node. */
  ghost predicate Chained<T>(m: Shared<T>, c: Chain) {
    c.h <= c.k < |c.ids| <= c.k + 2 &&
    (forall i :: 0 <= i < |c.ids| ==> c.ids[i] < |m.heap|) &&
    (forall i, j :: 0 <= i < j < |c.ids| ==> c.ids[i] != c.ids[j]) &&
    (forall i {:trigger m.heap[c.ids[i]]} :: 0 <= i < |c.ids| ==>
       m.heap[c.ids[i]].next == if i + 1 < |c.ids| then To(c.ids[i + 1]) else Null) &&
    m.head == c.ids[c.h] && m.tail == c.ids[c.k]
  }

  /** `x` stands in the chain at a place up to `b`. */
  ghost predicate UpTo(c: Chain, x: nat, b: nat) {
    exists i :: 0 <= i <= b && i < |c.ids| && c.ids[i] == x
  }

  /** `x` stands in the chain at a place up to `b`, followed by `y`. */
  ghost predicate Linked(c: Chain, x: nat, y: nat, b: nat) {
    exists i :: 0 <= i <= b && i + 1 < |c.ids| && c.ids[i] == x && c.ids[i + 1] == y
  }

  /** `x` stands in the chain not after `y`. */
  ghost predicate Ordered(c: Chain, x: nat, y: nat) {
    exists i, j :: 0 <= i <= j <= c.k && i <= c.h && j < |c.ids| && c.ids[i] == x && c.ids[j] == y
  }

  /** `node` holds `v` and is not yet linked. */
  ghost predicate Mine<T>(m: Shared<T>, c: Chain, v: T, node: nat) {
    node < |m.heap| && m.heap[node] == Node(v, Null) && node !in c.ids
  }

  /** What a thread knows at each program point. */
  ghost predicate Knows<T>(m: Shared<T>, c: Chain, pc: PC<T>) {
    match pc
    case EnqLoadTail(v, node) => Mine(m, c, v, node)
    case EnqLoadNext(v, node, tail) => Mine(m, c, v, node) && UpTo(c, tail, c.k)
    case EnqCheck(v, node, tail, next) =>
      Mine(m, c, v, node) && UpTo(c, tail, c.k) && (next.To? ==> Linked(c, tail, next.id, c.k))
    case EnqLink(v, node, tail) => Mine(m, c, v, node) && UpTo(c, tail, c.k)
    case EnqSwing(v, node, tail) => Linked(c, tail, node, c.k) && node < |m.heap| && m.heap[node].data == v
    case EnqHelp(v, node, tail, succ) => Mine(m, c, v, node) && Linked(c, tail, succ, c.k)
    case DeqLoadTail(head) => UpTo(c, head, c.h)
    case DeqLoadNext(head, tail) => Ordered(c, head, tail)
    case DeqCheck(head, tail, next) => Ordered(c, head, tail) && (next.To? ==> Linked(c, head, next.id, c.h))
    case DeqHelp(tail, succ) => Linked(c, tail, succ, c.k)
    case DeqTake(head, succ) => Linked(c, head, succ, c.h) && UpTo(c, succ, c.k)
    case DeqSwing(head, succ, value) =>
      Linked(c, head, succ, c.h) && UpTo(c, succ, c.k) && succ < |m.heap| && m.heap[succ].data == value
    case EmptyLoadTail(head) => UpTo(c, head, c.h)
    case EmptyLoadNext(head) => UpTo(c, head, c.h)
    case _ => true
  }

  predicate Owns<T>(pc: PC<T>) {
    pc.EnqLoadTail? || pc.EnqLoadNext? || pc.EnqCheck? || pc.EnqLink? || pc.EnqHelp?
  }

  ghost predicate Inv<T>(s: State<T>, c: Chain) {
    Chained(s.mem, c) &&
    (forall i :: 0 <= i < |s.threads| ==> Knows(s.mem, c, s.threads[i])) &&
    (forall i, j :: 0 <= i < j < |s.threads| && Owns(s.threads[i]) && Owns(s.threads[j]) ==>
       s.threads[i].node != s.threads[j].node)
  }

  lemma InitInv<T>(s: State<T>)
    requires Init(s)
    ensures Inv(s, Chain([0], 0, 0))
  {
  }

  // ---------- Every step keeps the shape ----------

  /** What a write must be for the chain to stay one. */
  ghost predicate Legal<T>(m: Shared<T>, c: Chain, w: Write<T>) {
    match w
    case Keep => true
    case Alloc(_) => true
    case Link(at, node) =>
      c.k + 1 == |c.ids| && at == c.ids[c.k] && node < |m.heap| && m.heap[node].next.Null? && node !in c.ids
    case SetTail(node) => c.k + 1 < |c.ids| && node == c.ids[c.k + 1]
    case SetHead(node) => c.h < c.k < |c.ids| && node == c.ids[c.h + 1]
  }

  ghost function Grow<T>(c: Chain, w: Write<T>): Chain {
    match w
    case Keep => c
    case Alloc(_) => c
    case Link(_, node) => c.(ids := c.ids + [node])
    case SetTail(_) => c.(k := c.k + 1)
    case SetHead(_) => c.(h := c.h + 1)
  }

  lemma ChainStep<T>(m: Shared<T>, c: Chain, w: Write<T>)
    requires Chained(m, c) && Legal(m, c, w)
    ensures Chained(Apply(m, w), Grow(c, w))
  {
    if w.Link? {
      var m', c' := Apply(m, w), Grow(c, w);
      var n := |c.ids|;
      assert c'.ids[n] == w.node && c'.ids[n - 1] == w.at;
      forall i | 0 <= i < |c'.ids|
        ensures m'.heap[c'.ids[i]].next == if i + 1 < |c'.ids| then To(c'.ids[i + 1]) else Null
      {
        assert i < n ==> c'.ids[i] == c.ids[i];
        assert i + 1 < n ==> c'.ids[i + 1] == c.ids[i + 1];
        assert i < n - 1 ==> c.ids[i] != c.ids[n - 1];
      }
    }
  }

  /** Chains only grow: at the end, and in the places of head and tail. */
  ghost predicate Grows(c: Chain, c': Chain) {
    c.ids <= c'.ids && c.h <= c'.h && c.k <= c'.k
  }

  lemma UpToGrows(c: Chain, c': Chain, x: nat, b: nat, b': nat)
    requires Grows(c, c') && b <= b' && UpTo(c, x, b)
    ensures UpTo(c', x, b')
  {
    var i :| 0 <= i <= b && i < |c.ids| && c.ids[i] == x;
    assert c'.ids[i] == x;
  }

  lemma LinkedGrows(c: Chain, c': Chain, x: nat, y: nat, b: nat, b': nat)
    requires Grows(c, c') && b <= b' && Linked(c, x, y, b)
    ensures Linked(c', x, y, b')
  {
    var i :| 0 <= i <= b && i + 1 < |c.ids| && c.ids[i] == x && c.ids[i + 1] == y;
    assert c'.ids[i] == x && c'.ids[i + 1] == y;
  }

  lemma OrderedGrows(c: Chain, c': Chain, x: nat, y: nat)
    requires Grows(c, c') && Ordered(c, x, y)
    ensures Ordered(c', x, y)
  {
    var i, j :| 0 <= i <= j <= c.k && i <= c.h && j < |c.ids| && c.ids[i] == x && c.ids[j] == y;
    assert c'.ids[i] == x && c'.ids[j] == y;
  }

  lemma MineStep<T>(m: Shared<T>, c: Chain, w: Write<T>, v: T, node: nat)
    requires Chained(m, c) && Legal(m, c, w) && Mine(m, c, v, node) && (w.Link? ==> node != w.node)
    ensures Mine(Apply(m, w), Grow(c, w), v, node)
  {
  }

  /** What one thread knows survives the writes of the others. */
  lemma KnowsStep<T>(m: Shared<T>, c: Chain, w: Write<T>, pc: PC<T>)
    requires Chained(m, c) && Legal(m, c, w) && Knows(m, c, pc)
    requires w.Link? && Owns(pc) ==> pc.node != w.node
    ensures Knows(Apply(m, w), Grow(c, w), pc)
  {
    assert Grows(c, Grow(c, w));
    if Owns(pc) {
      MineStep(m, c, w, pc.v, pc.node);
      KnowsStepEnq(m, c, w, pc);
    } else {
      KnowsStepDeq(m, c, w, pc);
    }
  }

  lemma KnowsStepEnq<T>(m: Shared<T>, c: Chain, w: Write<T>, pc: PC<T>)
    requires Grows(c, Grow(c, w)) && Knows(m, c, pc) && Owns(pc) && Mine(Apply(m, w), Grow(c, w), pc.v, pc.node)
    ensures Knows(Apply(m, w), Grow(c, w), pc)
  {
    var c' := Grow(c, w);
    match pc
    case EnqLoadNext(v, node, tail) => UpToGrows(c, c', tail, c.k, c'.k);
    case EnqCheck(v, node, tail, next) =>
      UpToGrows(c, c', tail, c.k, c'.k);
      if next.To? { LinkedGrows(c, c', tail, next.id, c.k, c'.k); }
    case EnqLink(v, node, tail) => UpToGrows(c, c', tail, c.k, c'.k);
    case EnqHelp(v, node, tail, succ) => LinkedGrows(c, c', tail, succ, c.k, c'.k);
    case _ =>
  }

  lemma KnowsStepDeq<T>(m: Shared<T>, c: Chain, w: Write<T>, pc: PC<T>)
    requires Grows(c, Grow(c, w)) && Knows(m, c, pc) && !Owns(pc)
    ensures Knows(Apply(m, w), Grow(c, w), pc)
  {
    var c' := Grow(c, w);
    match pc
    case EnqSwing(v, node, tail) => LinkedGrows(c, c', tail, node, c.k, c'.k);
    case DeqLoadTail(head) => UpToGrows(c, c', head, c.h, c'.h);
    case DeqLoadNext(head, tail) => OrderedGrows(c, c', head, tail);
    case DeqCheck(head, tail, next) =>
      OrderedGrows(c, c', head, tail);
      if next.To? { LinkedGrows(c, c', head, next.id, c.h, c'.h); }
    case DeqHelp(tail, succ) => LinkedGrows(c, c', tail, succ, c.k, c'.k);
    case DeqTake(head, succ) =>
      LinkedGrows(c, c', head, succ, c.h, c'.h);
      UpToGrows(c, c', succ, c.k, c'.k);
    case DeqSwing(head, succ, value) =>
      LinkedGrows(c, c', head, succ, c.h, c'.h);
      UpToGrows(c, c', succ, c.k, c'.k);
    case EmptyLoadTail(head) => UpToGrows(c, c', head, c.h, c'.h);
    case EmptyLoadNext(head) => UpToGrows(c, c', head, c.h, c'.h);
    case _ =>
  }

  /** A node of the chain with a null `next` is its last; with another `next`, that is its successor. */
  lemma NextInChain<T>(m: Shared<T>, c: Chain, x: nat, b: nat)
    requires Chained(m, c) && UpTo(c, x, b)
    ensures NextOf(m, x).Null? ==> x == c.ids[|c.ids| - 1] && b + 1 >= |c.ids|
    ensures NextOf(m, x).To? ==> Linked(c, x, NextOf(m, x).id, b)
  {
    var i :| 0 <= i <= b && i < |c.ids| && c.ids[i] == x;
  }

  /** The successor of the node at place `p` is the node at the next place. */
  lemma SuccAt<T>(m: Shared<T>, c: Chain, p: nat, y: nat, b: nat)
    requires Chained(m, c) && p < |c.ids| && Linked(c, c.ids[p], y, b)
    ensures p + 1 < |c.ids| && c.ids[p + 1] == y
  {
    var i :| 0 <= i <= b && i + 1 < |c.ids| && c.ids[i] == c.ids[p] && c.ids[i + 1] == y;
    assert i == p;
  }

  lemma PlaceOf<T>(m: Shared<T>, c: Chain, p: nat, b: nat)
    requires Chained(m, c) && p < |c.ids| && UpTo(c, c.ids[p], b)
    ensures p <= b
  {
    var i :| 0 <= i <= b && i < |c.ids| && c.ids[i] == c.ids[p];
    assert i == p;
  }

  /** A thread's own step writes what the chain allows. */
  lemma MoveLegal<T>(m: Shared<T>, c: Chain, pc: PC<T>, fails: bool)
    requires Chained(m, c) && Knows(m, c, pc)
    ensures Legal(m, c, Move(m, pc, fails).1)
  {
    match pc
    case EnqLink(v, node, tail) => NextInChain(m, c, tail, c.k);
    case EnqSwing(v, node, tail) => SwingLegal(m, c, tail, node);
    case EnqHelp(v, node, tail, succ) => SwingLegal(m, c, tail, succ);
    case DeqHelp(tail, succ) => SwingLegal(m, c, tail, succ);
    case DeqSwing(head, succ, value) => HeadLegal(m, c, head, succ);
    case _ =>
  }

  lemma SwingLegal<T>(m: Shared<T>, c: Chain, tail: nat, succ: nat)
    requires Chained(m, c) && Linked(c, tail, succ, c.k)
    ensures m.tail == tail ==> Legal(m, c, SetTail(succ))
  {
    if m.tail == tail { SuccAt(m, c, c.k, succ, c.k); }
  }

  lemma HeadLegal<T>(m: Shared<T>, c: Chain, head: nat, succ: nat)
    requires Chained(m, c) && Linked(c, head, succ, c.h) && UpTo(c, succ, c.k)
    ensures m.head == head ==> Legal(m, c, SetHead(succ))
  {
    if m.head == head {
      SuccAt(m, c, c.h, succ, c.h);
      PlaceOf(m, c, c.h + 1, c.k);
    }
  }

  /** A thread knows what it should after its own step. */
  lemma MoveKnows<T>(m: Shared<T>, c: Chain, pc: PC<T>, fails: bool)
    requires Chained(m, c) && Knows(m, c, pc)
    ensures var (pc', w) := Move(m, pc, fails); Knows(Apply(m, w), Grow(c, w), pc')
  {
    if Owns(pc) || pc.EnqNew? || pc.EnqSwing? || pc.Idle? || pc.Returned? {
      EnqueueKnows(m, c, pc, fails);
    } else {
      DequeueKnows(m, c, pc, fails);
    }
  }

  lemma DequeueKnows<T>(m: Shared<T>, c: Chain, pc: PC<T>, fails: bool)
    requires Chained(m, c) && Knows(m, c, pc)
    requires !(Owns(pc) || pc.EnqNew? || pc.EnqSwing? || pc.Idle? || pc.Returned?)
    ensures var (pc', w) := Move(m, pc, fails); Knows(Apply(m, w), Grow(c, w), pc')
  {
    EndsInChain(m, c);
    match pc
    case DeqLoadTail(head) => OrderedNow(m, c, head);
    case DeqLoadNext(head, tail) =>
      OrderedUpTo(c, head, tail);
      NextInChain(m, c, head, c.h);
    case DeqCheck(head, tail, next) =>
      if next.To? { AfterDeqCheck(m, c, head, tail, next); }
    case DeqTake(head, succ) => PlaceBound(m, c, succ, c.k);
    case _ =>
  }

  lemma EndsInChain<T>(m: Shared<T>, c: Chain)
    requires Chained(m, c)
    ensures UpTo(c, m.head, c.h) && UpTo(c, m.tail, c.k)
  {
    assert c.ids[c.h] == m.head && c.ids[c.k] == m.tail;
  }

  lemma OrderedNow<T>(m: Shared<T>, c: Chain, x: nat)
    requires Chained(m, c) && UpTo(c, x, c.h)
    ensures Ordered(c, x, m.tail)
  {
    var i :| 0 <= i <= c.h && i < |c.ids| && c.ids[i] == x;
    assert c.ids[c.k] == m.tail;
  }

  lemma PlaceBound<T>(m: Shared<T>, c: Chain, x: nat, b: nat)
    requires Chained(m, c) && UpTo(c, x, b)
    ensures x < |m.heap|
  {
  }

  lemma EnqueueKnows<T>(m: Shared<T>, c: Chain, pc: PC<T>, fails: bool)
    requires Chained(m, c) && Knows(m, c, pc) && (Owns(pc) || pc.EnqNew? || pc.EnqSwing? || pc.Idle? || pc.Returned?)
    ensures var (pc', w) := Move(m, pc, fails); Knows(Apply(m, w), Grow(c, w), pc')
  {
    var (pc', w) := Move(m, pc, fails);
    match pc
    case EnqLoadTail(v, node) => EndsInChain(m, c);
    case EnqLoadNext(v, node, tail) => NextInChain(m, c, tail, c.k);
    case EnqLink(v, node, tail) =>
      if w.Link? {
        NextInChain(m, c, tail, c.k);
        var c' := Grow(c, w);
        assert c'.ids[c.k] == tail && c'.ids[c.k + 1] == node;
      }
    case EnqHelp(v, node, tail, succ) =>
      MoveLegal(m, c, pc, fails);
      KnowsStep(m, c, w, pc');
    case _ =>
  }

  lemma OrderedUpTo(c: Chain, x: nat, y: nat)
    requires Ordered(c, x, y)
    ensures UpTo(c, x, c.h)
  {
    var i, j :| 0 <= i <= j <= c.k && i <= c.h && j < |c.ids| && c.ids[i] == x && c.ids[j] == y;
  }

  lemma AfterDeqCheck<T>(m: Shared<T>, c: Chain, head: nat, tail: nat, next: Ptr)
    requires Chained(m, c) && Ordered(c, head, tail) && next.To? && Linked(c, head, next.id, c.h)
    ensures head == tail ==> Linked(c, tail, next.id, c.k)
    ensures head != tail ==> UpTo(c, next.id, c.k)
  {
    var i, j :| 0 <= i <= j <= c.k && i <= c.h && j < |c.ids| && c.ids[i] == head && c.ids[j] == tail;
    SuccAt(m, c, i, next.id, c.h);
    if head != tail {
      assert i + 1 <= c.k && c.ids[i + 1] == next.id;
    }
  }

  // ---------- Runs ----------

  ghost function ChainAfter<T>(s: State<T>, a: Action<T>, c: Chain): Chain {
    if a.Step? && a.tid < |s.threads| then Grow(c, Move(s.mem, s.threads[a.tid], a.fails).1) else c
  }

  lemma StepInv<T>(s: State<T>, a: Action<T>, c: Chain)
    requires Inv(s, c)
    ensures Inv(Next(s, a), ChainAfter(s, a, c)) && |Next(s, a).threads| == |s.threads|
  {
    if a.Step? && a.tid < |s.threads| {
      var pc := s.threads[a.tid];
      var w := Move(s.mem, pc, a.fails).1;
      MoveLegal(s.mem, c, pc, a.fails);
      ChainStep(s.mem, c, w);
      forall i | 0 <= i < |s.threads| ensures Knows(Apply(s.mem, w), Grow(c, w), Next(s, a).threads[i]) {
        OneKnows(s, a, c, i);
      }
      OwnersDiffer(s, a, c);
    }
  }

  lemma OneKnows<T>(s: State<T>, a: Action<T>, c: Chain, i: nat)
    requires Inv(s, c) && a.Step? && a.tid < |s.threads| && i < |s.threads|
    ensures Knows(Next(s, a).mem, ChainAfter(s, a, c), Next(s, a).threads[i])
  {
    var pc := s.threads[a.tid];
    assert Knows(s.mem, c, pc) && Knows(s.mem, c, s.threads[i]);
    if i == a.tid {
      MoveKnows(s.mem, c, pc, a.fails);
    } else {
      MoveLegal(s.mem, c, pc, a.fails);
      LinksOwn(s.mem, pc, a.fails);
      KnowsStep(s.mem, c, Move(s.mem, pc, a.fails).1, s.threads[i]);
    }
  }

  lemma OwnersDiffer<T>(s: State<T>, a: Action<T>, c: Chain)
    requires Inv(s, c) && a.Step? && a.tid < |s.threads|
    ensures var ts := Next(s, a).threads;
            forall i, j :: 0 <= i < j < |ts| && Owns(ts[i]) && Owns(ts[j]) ==> ts[i].node != ts[j].node
  {
    var pc := s.threads[a.tid];
    OwnsAfter(s.mem, pc, a.fails);
    forall i | 0 <= i < |s.threads| && Owns(s.threads[i])
      ensures s.threads[i].node < |s.mem.heap|
    {
      assert Knows(s.mem, c, s.threads[i]);
    }
  }

  lemma LinksOwn<T>(m: Shared<T>, pc: PC<T>, fails: bool)
    ensures Move(m, pc, fails).1.Link? ==> Owns(pc) && Move(m, pc, fails).1.node == pc.node
  {
  }

  lemma OwnsAfter<T>(m: Shared<T>, pc: PC<T>, fails: bool)
    ensures var pc' := Move(m, pc, fails).0;
            Owns(pc') ==> if Owns(pc) then pc'.node == pc.node else pc'.node == |m.heap|
  {
  }

  function Run<T>(s: State<T>, acts: seq<Action<T>>): State<T>
    decreases |acts|
  {
    if acts == [] then s else Run(Next(s, acts[0]), acts[1..])
  }

  /** In every reachable state the nodes form one chain, for any number of threads and any schedule. */
  lemma AlwaysChained<T>(s: State<T>, acts: seq<Action<T>>)
    requires Init(s)
    ensures exists c :: Inv(Run(s, acts), c)
  {
    InitInv(s);
    var c := RunInv(s, acts, Chain([0], 0, 0));
  }

  lemma {:induction false} RunInv<T>(s: State<T>, acts: seq<Action<T>>, c: Chain) returns (c': Chain)
    requires Inv(s, c)
    ensures Inv(Run(s, acts), c')
    decreases |acts|
  {
    if acts == [] {
      c' := c;
    } else {
      StepInv(s, acts[0], c);
      c' := RunInv(Next(s, acts[0]), acts[1..], ChainAfter(s, acts[0], c));
    }
  }

  /** A link, once written, is never changed, and a node keeps its value. */
  lemma WriteOnce<T>(s: State<T>, a: Action<T>, c: Chain, id: nat)
    requires Inv(s, c) && id < |s.mem.heap|
    ensures id < |Next(s, a).mem.heap| && Next(s, a).mem.heap[id].data == s.mem.heap[id].data
    ensures s.mem.heap[id].next.To? ==> Next(s, a).mem.heap[id].next == s.mem.heap[id].next
  {
    if a.Step? && a.tid < |s.threads| {
      assert Knows(s.mem, c, s.threads[a.tid]);
      MoveLegal(s.mem, c, s.threads[a.tid], a.fails);
    }
  }

  // ---------- The abstract queue ----------

  /** The values found by following links, for at most `fuel` nodes. */
  ghost function Walk<T>(heap: seq<Node<T>>, p: Ptr, fuel: nat): seq<T>
    decreases fuel
  {
    if p.Null? || fuel == 0 || p.id >= |heap| then []
    else [heap[p.id].data] + Walk(heap, heap[p.id].next, fuel - 1)
  }

  /** What the queue holds: the values behind the node that `head` points to. */
  ghost function Contents<T>(m: Shared<T>): seq<T> {
    Walk(m.heap, NextOf(m, m.head), |m.heap|)
  }

  /** `ids` are consecutive nodes, the last of which has no successor. */
  ghost predicate IsPath<T>(heap: seq<Node<T>>, ids: seq<nat>) {
    ids == [] || (ids[0] < |heap| && heap[ids[0]].next == First(ids[1..]) && IsPath(heap, ids[1..]))
  }

  ghost function First(ids: seq<nat>): Ptr {
    if ids == [] then Null else To(ids[0])
  }

  ghost function Values<T>(heap: seq<Node<T>>, ids: seq<nat>): seq<T>
    requires IsPath(heap, ids)
  {
    if ids == [] then [] else [heap[ids[0]].data] + Values(heap, ids[1..])
  }

  lemma {:induction false} WalkPath<T>(heap: seq<Node<T>>, ids: seq<nat>, fuel: nat)
    requires IsPath(heap, ids) && fuel >= |ids|
    ensures Walk(heap, First(ids), fuel) == Values(heap, ids)
    decreases fuel
  {
    if ids != [] {
      WalkPath(heap, ids[1..], fuel - 1);
    }
  }

  lemma {:induction false} ChainPath<T>(m: Shared<T>, c: Chain, i: nat)
    requires Chained(m, c) && i <= |c.ids|
    ensures IsPath(m.heap, c.ids[i..])
    decreases |c.ids| - i
  {
    if i < |c.ids| {
      ChainPath(m, c, i + 1);
      assert c.ids[i..][1..] == c.ids[i + 1..];
      assert m.heap[c.ids[i]].next == First(c.ids[i + 1..]);
    }
  }

  /** Distinct numbers below `n` are at most `n` many. */
  lemma {:induction false} Bounded(ids: seq<nat>, n: nat)
    requires forall i :: 0 <= i < |ids| ==> ids[i] < n
    requires forall i, j :: 0 <= i < j < |ids| ==> ids[i] != ids[j]
    ensures |ids| <= n
    decreases n
  {
    if ids != [] {
      assert ids[0] < n;
      if i :| 0 <= i < |ids| && ids[i] == n - 1 {
        var rest := ids[..i] + ids[i + 1..];
        assert forall l :: 0 <= l < |rest| ==> rest[l] == ids[if l < i then l else l + 1];
        Bounded(rest, n - 1);
      } else {
        Bounded(ids, n - 1);
      }
    }
  }

  /** What a walk from the place `i` of the chain finds. */
  lemma WalkFrom<T>(m: Shared<T>, c: Chain, i: nat)
    requires Chained(m, c) && i < |c.ids|
    ensures IsPath(m.heap, c.ids[i + 1..])
    ensures Walk(m.heap, NextOf(m, c.ids[i]), |m.heap|) == Values(m.heap, c.ids[i + 1..])
  {
    Bounded(c.ids, |m.heap|);
    ChainPath(m, c, i + 1);
    assert m.heap[c.ids[i]].next == First(c.ids[i + 1..]);
    WalkPath(m.heap, c.ids[i + 1..], |m.heap|);
  }

  lemma ContentsOf<T>(m: Shared<T>, c: Chain)
    requires Chained(m, c)
    ensures IsPath(m.heap, c.ids[c.h + 1..]) && Contents(m) == Values(m.heap, c.ids[c.h + 1..])
  {
    WalkFrom(m, c, c.h);
  }

  lemma EmptyContents<T>(m: Shared<T>, c: Chain)
    requires Chained(m, c)
    ensures Contents(m) == [] <==> c.h + 1 == |c.ids|
  {
    ContentsOf(m, c);
  }

  /** Values along a path depend only on the nodes of the path. */
  lemma {:induction false} ValuesSame<T>(heap: seq<Node<T>>, heap': seq<Node<T>>, ids: seq<nat>)
    requires IsPath(heap, ids) && IsPath(heap', ids)
    requires forall i :: 0 <= i < |ids| ==>
      ids[i] < |heap| && ids[i] < |heap'| && heap'[ids[i]].data == heap[ids[i]].data
    ensures Values(heap', ids) == Values(heap, ids)
  {
    if ids != [] {
      ValuesSame(heap, heap', ids[1..]);
    }
  }

  lemma {:induction false} ValuesAppend<T>(heap: seq<Node<T>>, heap': seq<Node<T>>, ids: seq<nat>, x: nat)
    requires IsPath(heap, ids) && IsPath(heap', ids + [x])
    requires forall i :: 0 <= i < |ids| ==>
      ids[i] < |heap| && ids[i] < |heap'| && heap'[ids[i]].data == heap[ids[i]].data
    ensures x < |heap'| && Values(heap', ids + [x]) == Values(heap, ids) + [heap'[x].data]
  {
    if ids == [] {
      assert ids + [x] == [x];
    } else {
      assert (ids + [x])[1..] == ids[1..] + [x];
      ValuesAppend(heap, heap', ids[1..], x);
    }
  }

  // ---------- Refinement of an atomic queue ----------

  datatype Event<T> = Enq(tid: nat, v: T) | Deq(tid: nat, v: T)

  /** The atomic operation that a step performs, if any: the two deciding compare-and-swaps. */
  ghost function Effect<T>(s: State<T>, a: Action<T>): Option<Event<T>> {
    if !a.Step? || a.tid >= |s.threads| then None
    else
      var pc := s.threads[a.tid];
      match Move(s.mem, pc, a.fails).1
      case Link(_, _) => if pc.EnqLink? then Some(Enq(a.tid, pc.v)) else None
      case SetHead(_) => if pc.DeqSwing? then Some(Deq(a.tid, pc.value)) else None
      case _ => None
  }

  /** An atomic first-in first-out queue; `None` if a dequeue does not return the front. */
  ghost function Atomic<T>(q: seq<T>, e: Option<Event<T>>): Option<seq<T>> {
    match e
    case None => Some(q)
    case Some(Enq(_, v)) => Some(q + [v])
    case Some(Deq(_, v)) => if q != [] && q[0] == v then Some(q[1..]) else None
  }

  lemma StepRefines<T>(s: State<T>, a: Action<T>, c: Chain)
    requires Inv(s, c)
    ensures Atomic(Contents(s.mem), Effect(s, a)) == Some(Contents(Next(s, a).mem))
  {
    hide Contents, Chained, Knows, Legal;
    if a.Step? && a.tid < |s.threads| {
      var pc := s.threads[a.tid];
      var w := Move(s.mem, pc, a.fails).1;
      assert Knows(s.mem, c, pc);
      MoveLegal(s.mem, c, pc, a.fails);
      EffectIs(s.mem, c, pc, a.fails);
      match w
      case Link(_, node) => LinkRefines(s.mem, c, w);
      case SetHead(node) => HeadRefines(s.mem, c, w);
      case _ => OtherRefines(s.mem, c, w);
    }
  }

  lemma EffectIs<T>(m: Shared<T>, c: Chain, pc: PC<T>, fails: bool)
    requires Chained(m, c) && Knows(m, c, pc)
    ensures var w := Move(m, pc, fails).1;
            (w.Link? ==> pc.EnqLink? && w.node < |m.heap| && m.heap[w.node].data == pc.v) &&
            (w.SetHead? ==> pc.DeqSwing? && w.node < |m.heap| && m.heap[w.node].data == pc.value)
  {
  }

  lemma LinkRefines<T>(m: Shared<T>, c: Chain, w: Write<T>)
    requires Chained(m, c) && Legal(m, c, w) && w.Link?
    ensures Contents(Apply(m, w)) == Contents(m) + [m.heap[w.node].data]
  {
    var ids := BeforeLink(m, c);
    AfterLink(m, c, w, ids);
    SameData(m, w);
    ValuesAppend(m.heap, Apply(m, w).heap, ids, w.node);
  }

  lemma BeforeLink<T>(m: Shared<T>, c: Chain) returns (ids: seq<nat>)
    requires Chained(m, c)
    ensures ids == c.ids[c.h + 1..] && IsPath(m.heap, ids) && Contents(m) == Values(m.heap, ids)
    ensures forall i :: 0 <= i < |ids| ==> ids[i] < |m.heap|
  {
    ContentsOf(m, c);
    ids := c.ids[c.h + 1..];
  }

  lemma AfterLink<T>(m: Shared<T>, c: Chain, w: Write<T>, ids: seq<nat>)
    requires Chained(m, c) && Legal(m, c, w) && w.Link? && ids == c.ids[c.h + 1..]
    ensures IsPath(Apply(m, w).heap, ids + [w.node])
    ensures Contents(Apply(m, w)) == Values(Apply(m, w).heap, ids + [w.node])
  {
    hide Contents, Values;
    ChainStep(m, c, w);
    ContentsOf(Apply(m, w), Grow(c, w));
    assert (c.ids + [w.node])[c.h + 1..] == ids + [w.node];
  }

  lemma SameData<T>(m: Shared<T>, w: Write<T>)
    requires w.Link?
    ensures |Apply(m, w).heap| == |m.heap|
    ensures forall i :: 0 <= i < |m.heap| ==> Apply(m, w).heap[i].data == m.heap[i].data
  {
  }

  lemma HeadRefines<T>(m: Shared<T>, c: Chain, w: Write<T>)
    requires Chained(m, c) && Legal(m, c, w) && w.SetHead? && w.node < |m.heap|
    ensures Contents(m) == [m.heap[w.node].data] + Contents(Apply(m, w))
  {
    WalkFrom(m, c, c.h);
    WalkFrom(m, c, c.h + 1);
    TailDrop(c.ids, c.h + 1);
  }

  lemma TailDrop(ids: seq<nat>, i: nat)
    requires i < |ids|
    ensures ids[i..] != [] && ids[i..][0] == ids[i] && ids[i..][1..] == ids[i + 1..]
  {
  }

  lemma OtherRefines<T>(m: Shared<T>, c: Chain, w: Write<T>)
    requires Chained(m, c) && !w.SetHead? && !w.Link?
    ensures Contents(Apply(m, w)) == Contents(m)
  {
    if w.Alloc? {
      var m' := Apply(m, w);
      assert Chained(m', c);
      ContentsOf(m, c);
      ContentsOf(m', c);
      ValuesSame(m.heap, m'.heap, c.ids[c.h + 1..]);
    }
  }

  /** The atomic operations of a run, in the order in which they take effect. */
  ghost function Events<T>(s: State<T>, acts: seq<Action<T>>): seq<Event<T>>
    decreases |acts|
  {
    if acts == [] then []
    else Listed(Effect(s, acts[0])) + Events(Next(s, acts[0]), acts[1..])
  }

  ghost function Listed<T>(e: Option<Event<T>>): seq<Event<T>> {
    if e.None? then [] else [e.value]
  }

  ghost function Replay<T>(q: seq<T>, es: seq<Event<T>>): Option<seq<T>>
    decreases |es|
  {
    if es == [] then Some(q)
    else
      var r := Atomic(q, Some(es[0]));
      if r.None? then None else Replay(r.value, es[1..])
  }

  /** Every run of the lock-free queue is a run of an atomic first-in first-out queue. */
  lemma Linearizable<T>(s: State<T>, acts: seq<Action<T>>)
    requires Init(s)
    ensures Replay([], Events(s, acts)) == Some(Contents(Run(s, acts).mem))
    ensures EnqValues(Events(s, acts)) == DeqValues(Events(s, acts)) + Contents(Run(s, acts).mem)
  {
    InitInv(s);
    EmptyContents(s.mem, Chain([0], 0, 0));
    RunRefines(s, acts, Chain([0], 0, 0));
    Conserved([], Events(s, acts));
    assert [] + EnqValues(Events(s, acts)) == EnqValues(Events(s, acts));
  }

  lemma {:induction false} RunRefines<T>(s: State<T>, acts: seq<Action<T>>, c: Chain)
    requires Inv(s, c)
    ensures Replay(Contents(s.mem), Events(s, acts)) == Some(Contents(Run(s, acts).mem))
    decreases |acts|
  {
    if acts != [] {
      var s' := Next(s, acts[0]);
      StepInv(s, acts[0], c);
      StepRefines(s, acts[0], c);
      RunRefines(s', acts[1..], ChainAfter(s, acts[0], c));
      var e, rest := Effect(s, acts[0]), Events(s', acts[1..]);
      if e.Some? {
        assert ([e.value] + rest)[1..] == rest;
      } else {
        assert [] + rest == rest;
      }
    }
  }

  ghost function EnqValues<T>(es: seq<Event<T>>): seq<T> {
    if es == [] then []
    else if es[0].Enq? then [es[0].v] + EnqValues(es[1..])
    else EnqValues(es[1..])
  }

  ghost function DeqValues<T>(es: seq<Event<T>>): seq<T> {
    if es == [] then []
    else if es[0].Deq? then [es[0].v] + DeqValues(es[1..])
    else DeqValues(es[1..])
  }

  /** An atomic queue loses, duplicates and reorders nothing. */
  lemma {:induction false} Conserved<T>(q: seq<T>, es: seq<Event<T>>)
    requires Replay(q, es).Some?
    ensures q + EnqValues(es) == DeqValues(es) + Replay(q, es).value
    decreases |es|
  {
    if es != [] {
      var q' := Atomic(q, Some(es[0])).value;
      Conserved(q', es[1..]);
      if es[0].Enq? {
        Assoc(q, [es[0].v], EnqValues(es[1..]));
      } else {
        assert q == [es[0].v] + q';
        Assoc([es[0].v], q', EnqValues(es[1..]));
        Assoc([es[0].v], DeqValues(es[1..]), Replay(q, es).value);
      }
    }
  }

  // ---------- Each call takes effect once ----------

  /** The operation of a thread's current call. */
  ghost function CallOf<T>(pc: PC<T>): Option<Op<T>> {
    if pc.Idle? then None
    else if pc.Returned? then Some(pc.op)
    else if pc.EmptyLoadHead? || pc.EmptyLoadTail? || pc.EmptyLoadNext? then Some(IsEmpty)
    else if Owns(pc) || pc.EnqNew? || pc.EnqSwing? then Some(Enqueue(pc.v))
    else Some(Dequeue)
  }

  /** A call keeps its operation and argument until it returns. */
  lemma CallKept<T>(m: Shared<T>, pc: PC<T>, fails: bool)
    ensures CallOf(Move(m, pc, fails).0) == CallOf(pc)
  {
  }

  /** The atomic operation that a thread's current call has already performed. */
  ghost function Performed<T>(tid: nat, pc: PC<T>): seq<Event<T>> {
    match pc
    case EnqSwing(v, _, _) => [Enq(tid, v)]
    case Returned(Enqueue(v), Done) => [Enq(tid, v)]
    case Returned(Dequeue, Value(v)) => [Deq(tid, v)]
    case _ => []
  }

  /** What the calls of `tid` that returned during the run report to have done, in order. */
  ghost function Reports<T>(s: State<T>, acts: seq<Action<T>>, tid: nat): seq<Event<T>>
    decreases |acts|
  {
    if acts == [] then []
    else Report(s, acts[0], tid) + Reports(Next(s, acts[0]), acts[1..], tid)
  }

  ghost function OfThread<T>(es: seq<Event<T>>, tid: nat): seq<Event<T>> {
    if es == [] then []
    else (if es[0].tid == tid then [es[0]] else []) + OfThread(es[1..], tid)
  }

  /** What the step of `tid` that a call returns with reports. */
  ghost function Report<T>(s: State<T>, a: Action<T>, tid: nat): seq<Event<T>> {
    if a == Return(tid) && tid < |s.threads| && s.threads[tid].Returned? then Performed(tid, s.threads[tid]) else []
  }

  lemma {:induction false} StepPerforms<T>(s: State<T>, a: Action<T>, tid: nat)
    requires tid < |s.threads|
    ensures Performed(tid, s.threads[tid]) + OfThread(Listed(Effect(s, a)), tid)
         == Report(s, a, tid) + Performed(tid, Next(s, a).threads[tid])
  {
    var e := Effect(s, a);
    if e.Some? {
      OfOne(e.value, tid);
    }
    if a.Step? && a.tid == tid {
      MovePerforms(s.mem, s.threads[tid], a.fails, tid);
    }
  }

  lemma OfOne<T>(e: Event<T>, tid: nat)
    ensures OfThread([e], tid) == if e.tid == tid then [e] else []
  {
    assert [e][1..] == [];
  }

  lemma MovePerforms<T>(m: Shared<T>, pc: PC<T>, fails: bool, tid: nat)
    ensures var (pc', w) := Move(m, pc, fails);
            Performed(tid, pc') == Performed(tid, pc) +
              (if w.Link? && pc.EnqLink? then [Enq(tid, pc.v)]
               else if w.SetHead? && pc.DeqSwing? then [Deq(tid, pc.value)] else [])
  {
  }

  /**
   The operations that a thread's calls report when they return are exactly the atomic
   operations it performed, each once and in order, but for the one of a call still running.
   */
  lemma {:induction false} ExactlyOnce<T>(s: State<T>, acts: seq<Action<T>>, tid: nat)
    requires tid < |s.threads|
    ensures |Run(s, acts).threads| == |s.threads|
    ensures Performed(tid, s.threads[tid]) + OfThread(Events(s, acts), tid)
         == Reports(s, acts, tid) + Performed(tid, Run(s, acts).threads[tid])
    decreases |acts|
  {
    if acts == [] {
      assert Performed(tid, s.threads[tid]) + [] == [] + Performed(tid, s.threads[tid]);
    } else {
      var s' := Next(s, acts[0]);
      StepPerforms(s, acts[0], tid);
      ExactlyOnce(s', acts[1..], tid);
      var e, rest := Listed(Effect(s, acts[0])), Events(s', acts[1..]);
      OfThreadConcat(e, rest, tid);
      Reassoc(Performed(tid, s.threads[tid]), OfThread(e, tid), OfThread(rest, tid),
              Report(s, acts[0], tid), Performed(tid, s'.threads[tid]),
              Reports(s', acts[1..], tid), Performed(tid, Run(s, acts).threads[tid]));
    }
  }

  lemma Reassoc<E>(a: seq<E>, b: seq<E>, c: seq<E>, d: seq<E>, e: seq<E>, f: seq<E>, g: seq<E>)
    requires a + b == d + e && e + c == f + g
    ensures a + (b + c) == (d + f) + g
  {
    Assoc(a, b, c);
    Assoc(d, e, c);
    Assoc(d, f, g);
  }

  lemma OfThreadConcat<T>(a: seq<Event<T>>, b: seq<Event<T>>, tid: nat)
    requires |a| <= 1
    ensures OfThread(a + b, tid) == OfThread(a, tid) + OfThread(b, tid)
  {
    if a == [] {
      assert a + b == b && [] + OfThread(b, tid) == OfThread(b, tid);
    } else {
      assert (a + b)[0] == a[0] && (a + b)[1..] == b && a == [a[0]];
      OfOne(a[0], tid);
    }
  }

  // ---------- Answers that change nothing ----------

  /**
   What a running call has been able to see so far, for `sawEmpty` and `sawFull` telling
   whether the queue was empty, or not, at some instant since the call started.
   */
  ghost predicate Witnessed<T>(m: Shared<T>, pc: PC<T>, sawEmpty: bool, sawFull: bool) {
    match pc
    case DeqCheck(head, tail, next) => next.Null? ==> sawEmpty
    case EmptyLoadTail(head) => !sawFull ==> NextOf(m, head).Null? && m.tail == head
    case EmptyLoadNext(head) => !sawFull ==> NextOf(m, head).Null? && m.tail == head
    case Returned(_, Nothing) => sawEmpty
    case Returned(_, Answer(true)) => sawEmpty
    case Returned(_, Answer(false)) => sawFull
    case _ => true
  }

  lemma OwnWitness<T>(m: Shared<T>, c: Chain, pc: PC<T>, fails: bool, sawEmpty: bool, sawFull: bool)
    requires Chained(m, c) && Knows(m, c, pc) && Witnessed(m, pc, sawEmpty, sawFull)
    requires if Contents(m) == [] then sawEmpty else sawFull
    ensures var (pc', w) := Move(m, pc, fails); Witnessed(Apply(m, w), pc', sawEmpty, sawFull)
  {
    EmptyContents(m, c);
    EndsInChain(m, c);
    match pc
    case DeqLoadNext(head, tail) =>
      OrderedUpTo(c, head, tail);
      NextInChain(m, c, head, c.h);
    case EmptyLoadHead => NextInChain(m, c, m.head, c.h);
    case EmptyLoadNext(head) => NextInChain(m, c, head, c.h);
    case _ =>
  }

  lemma OtherWitness<T>(m: Shared<T>, c: Chain, w: Write<T>, pc: PC<T>, sawEmpty: bool, sawFull: bool)
    requires Chained(m, c) && Knows(m, c, pc) && Legal(m, c, w) && Witnessed(m, pc, sawEmpty, sawFull)
    requires if Contents(m) == [] then sawEmpty else sawFull
    requires if Contents(Apply(m, w)) == [] then sawEmpty else sawFull
    ensures Witnessed(Apply(m, w), pc, sawEmpty, sawFull)
  {
    if (pc.EmptyLoadTail? || pc.EmptyLoadNext?) && !sawFull {
      EmptyContents(m, c);
      NextInChain(m, c, pc.head, c.h);
      if w.Link? { LinkRefines(m, c, w); }
    }
  }

  /** The states that a schedule passes through. */
  ghost predicate IsTrace<T>(trace: seq<State<T>>, acts: seq<Action<T>>) {
    |trace| == |acts| + 1 && Init(trace[0]) &&
    forall n :: 0 <= n < |acts| ==> trace[n + 1] == Next(trace[n], acts[n])
  }

  lemma {:induction false} TraceInv<T>(trace: seq<State<T>>, acts: seq<Action<T>>, n: nat) returns (c: Chain)
    requires IsTrace(trace, acts) && n < |trace|
    ensures Inv(trace[n], c) && |trace[n].threads| == |trace[0].threads|
  {
    if n == 0 {
      InitInv(trace[0]);
      c := Chain([0], 0, 0);
    } else {
      var c0 := TraceInv(trace, acts, n - 1);
      StepInv(trace[n - 1], acts[n - 1], c0);
      c := ChainAfter(trace[n - 1], acts[n - 1], c0);
    }
  }

  /** The queue was empty (or not, for `empty` false) in some state from `lo` to `hi`. */
  ghost predicate Seen<T>(trace: seq<State<T>>, lo: nat, hi: nat, empty: bool) {
    exists k :: lo <= k <= hi && k < |trace| && (Contents(trace[k].mem) == []) == empty
  }

  lemma SeenNow<T>(trace: seq<State<T>>, lo: nat, n: nat)
    requires lo <= n < |trace|
    ensures Seen(trace, lo, n, Contents(trace[n].mem) == [])
  {
  }

  lemma SeenStill<T>(trace: seq<State<T>>, lo: nat, hi: nat, hi': nat, empty: bool)
    requires hi <= hi' && Seen(trace, lo, hi, empty)
    ensures Seen(trace, lo, hi', empty)
  {
    var k :| lo <= k <= hi && k < |trace| && (Contents(trace[k].mem) == []) == empty;
  }

  /** A call of `tid` is invoked by action `start - 1` and has not returned by state `n`. */
  ghost predicate Running<T>(trace: seq<State<T>>, acts: seq<Action<T>>, tid: nat, start: nat, n: nat) {
    IsTrace(trace, acts) && tid < |trace[0].threads| && 0 < start <= n < |trace| &&
    acts[start - 1].Invoke? && acts[start - 1].tid == tid &&
    tid < |trace[start - 1].threads| && trace[start - 1].threads[tid].Idle? &&
    forall k :: start <= k <= n ==> tid < |trace[k].threads| && !trace[k].threads[tid].Idle?
  }

  lemma WitnessStep<T>(s: State<T>, a: Action<T>, c: Chain, tid: nat, e: bool, f: bool, e': bool, f': bool)
    requires Inv(s, c) && tid < |s.threads| && tid < |Next(s, a).threads|
    requires !s.threads[tid].Idle? && !Next(s, a).threads[tid].Idle?
    requires Witnessed(s.mem, s.threads[tid], e, f) && (e ==> e') && (f ==> f')
    requires if Contents(s.mem) == [] then e else f
    requires if Contents(Next(s, a).mem) == [] then e' else f'
    ensures Witnessed(Next(s, a).mem, Next(s, a).threads[tid], e', f')
  {
    if a.Step? && a.tid < |s.threads| {
      var pc := s.threads[a.tid];
      assert Knows(s.mem, c, pc) && Knows(s.mem, c, s.threads[tid]);
      if a.tid == tid {
        OwnWitness(s.mem, c, pc, a.fails, e, f);
      } else {
        MoveLegal(s.mem, c, pc, a.fails);
        OtherWitness(s.mem, c, Move(s.mem, pc, a.fails).1, s.threads[tid], e', f');
      }
    }
  }

  lemma RunningStep<T>(trace: seq<State<T>>, acts: seq<Action<T>>, tid: nat, start: nat, n: nat)
    requires Running(trace, acts, tid, start, n) && start < n
    requires Witnessed(trace[n - 1].mem, trace[n - 1].threads[tid],
                       Seen(trace, start, n - 1, true), Seen(trace, start, n - 1, false))
    ensures Witnessed(trace[n].mem, trace[n].threads[tid], Seen(trace, start, n, true), Seen(trace, start, n, false))
  {
    var s, a := trace[n - 1], acts[n - 1];
    var c := TraceInv(trace, acts, n - 1);
    assert trace[n - 1 + 1] == Next(s, a);
    SeenNow(trace, start, n - 1);
    SeenNow(trace, start, n);
    var e, f := Seen(trace, start, n - 1, true), Seen(trace, start, n - 1, false);
    var e', f' := Seen(trace, start, n, true), Seen(trace, start, n, false);
    if e { SeenStill(trace, start, n - 1, n, true); }
    if f { SeenStill(trace, start, n - 1, n, false); }
    WitnessStep(s, a, c, tid, e, f, e', f');
  }

  lemma {:induction false} RunningWitness<T>(trace: seq<State<T>>, acts: seq<Action<T>>, tid: nat, start: nat, n: nat)
    requires Running(trace, acts, tid, start, n)
    ensures Witnessed(trace[n].mem, trace[n].threads[tid], Seen(trace, start, n, true), Seen(trace, start, n, false))
    decreases n
  {
    if n > start {
      RunningWitness(trace, acts, tid, start, n - 1);
      RunningStep(trace, acts, tid, start, n);
    } else {
      StartsFresh(trace, acts, tid, start);
    }
  }

  lemma StartsFresh<T>(trace: seq<State<T>>, acts: seq<Action<T>>, tid: nat, start: nat)
    requires Running(trace, acts, tid, start, start)
    ensures forall e: bool, f: bool :: Witnessed(trace[start].mem, trace[start].threads[tid], e, f)
  {
    assert trace[start - 1 + 1] == Next(trace[start - 1], acts[start - 1]);
  }

  /**
   A dequeue that finds nothing, and either answer of the emptiness test, was true of the
   queue at some instant between the start of the call and its return.
   */
  lemma AnswersWereTrue<T>(trace: seq<State<T>>, acts: seq<Action<T>>, tid: nat, start: nat, n: nat)
    requires Running(trace, acts, tid, start, n) && trace[n].threads[tid].Returned?
    ensures var r := trace[n].threads[tid].result;
            (r == Nothing || r == Answer(true) ==> Seen(trace, start, n, true)) &&
            (r == Answer(false) ==> Seen(trace, start, n, false))
  {
    RunningWitness(trace, acts, tid, start, n);
  }
}
