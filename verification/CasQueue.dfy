/**
 * A lock-free queue as a state machine: each step is one atomic access to
 * shared memory by one thread. Nodes are never reused.
 */
module CasQueue {
  type Elem = int
  type Tid = nat

  datatype Ptr = Null | To(node: nat)
  datatype QNode = QNode(elem: Elem, next: Ptr)

  datatype Request = Push(elem: Elem) | Pop

  /** Where a thread stands, with the local variables it still needs. */
  datatype Pc =
    | Idle
    | PushNew(elem: Elem)
    | PushReadTail(n: nat)
    | PushReadOld(n: nat, p: nat)
    | PushTest(n: nat, p: nat, oldp: nat)
    | PushWalk(n: nat, p: nat, oldp: nat)
    | PushLink(n: nat, p: nat, oldp: nat)
    | PushSwing(n: nat, oldp: nat)
    | PopReadHead
    | PopTest(p: nat)
    | PopNext(p: nat)
    | PopSwing(p: nat, next: nat)
    | Return(result: bool)

  datatype System = System(nodes: seq<QNode>, head: nat, tail: nat, pcs: map<Tid, Pc>)

  /** The scheduler lets tid take its next step; an idle thread calls request. */
  datatype Move = Move(tid: Tid, request: Request)

  function PcOf(s: System, t: Tid): Pc {
    if t in s.pcs then s.pcs[t] else Idle
  }

  // ---- The steps ----

  /** Every pointer that a thread is about to follow leads to a node. */
  predicate SafePc(nodes: seq<QNode>, pc: Pc) {
    match pc
    case Idle => true
    case PushNew(_) => true
    case PushReadTail(n) => n < |nodes|
    case PushReadOld(n, p) => n < |nodes| && p < |nodes|
    case PushTest(n, p, _) => n < |nodes| && p < |nodes|
    case PushWalk(n, p, _) => n < |nodes| && p < |nodes| && nodes[p].next != Null
    case PushLink(n, p, _) => n < |nodes| && p < |nodes|
    case PushSwing(n, _) => n < |nodes|
    case PopReadHead => true
    case PopTest(p) => p < |nodes|
    case PopNext(p) => p < |nodes| && nodes[p].next != Null
    case PopSwing(_, next) => next < |nodes|
    case Return(_) => true
  }

  predicate Safe(s: System) {
    && s.head < |s.nodes| && s.tail < |s.nodes|
    && (forall i :: 0 <= i < |s.nodes| && s.nodes[i].next != Null ==> s.nodes[i].next.node < |s.nodes|)
    && (forall t :: t in s.pcs ==> SafePc(s.nodes, s.pcs[t]))
  }

  function Goto(s: System, t: Tid, pc: Pc): System {
    s.(pcs := s.pcs[t := pc])
  }

  function Step(s: System, m: Move): (s': System)
    requires Safe(s)
  {
    var t := m.tid;
    match PcOf(s, t)
    case Idle => Goto(s, t, if m.request.Push? then PushNew(m.request.elem) else PopReadHead)
    case PushNew(e) => Goto(s.(nodes := s.nodes + [QNode(e, Null)]), t, PushReadTail(|s.nodes|))
    case PushReadTail(n) => Goto(s, t, PushReadOld(n, s.tail))
    case PushReadOld(n, p) => Goto(s, t, PushTest(n, p, s.tail))
    case PushTest(n, p, oldp) =>
      Goto(s, t, if s.nodes[p].next != Null then PushWalk(n, p, oldp) else PushLink(n, p, oldp))
    case PushWalk(n, p, oldp) => Goto(s, t, PushTest(n, s.nodes[p].next.node, oldp))
    case PushLink(n, p, oldp) =>
      if s.nodes[p].next == Null
      then Goto(s.(nodes := s.nodes[p := s.nodes[p].(next := To(n))]), t, PushSwing(n, oldp))
      else Goto(s, t, PushTest(n, p, oldp))
    case PushSwing(n, oldp) => Goto(if s.tail == oldp then s.(tail := n) else s, t, Return(true))
    case PopReadHead => Goto(s, t, PopTest(s.head))
    case PopTest(p) => Goto(s, t, if s.nodes[p].next == Null then Return(false) else PopNext(p))
    case PopNext(p) => Goto(s, t, PopSwing(p, s.nodes[p].next.node))
    case PopSwing(p, next) =>
      if s.head == p then Goto(s.(head := next), t, Return(true)) else Goto(s, t, PopReadHead)
    case Return(_) => Goto(s, t, Idle)
  }

  function Init(dummy: Elem): System {
    System([QNode(dummy, Null)], 0, 0, map[])
  }

  lemma {:induction false} StepIsSafe(s: System, m: Move)
    requires Safe(s)
    ensures Safe(Step(s, m))
  {
    var s' := Step(s, m);
    assert SafePc(s.nodes, PcOf(s, m.tid));
    assert SafePc(s'.nodes, s'.pcs[m.tid]);
    forall t | t in s'.pcs && t != m.tid ensures SafePc(s'.nodes, s'.pcs[t]) {
      assert t in s.pcs && SafePc(s.nodes, s.pcs[t]);
    }
  }

  // ---- What happened ----

  datatype Effect = Enqueued(elem: Elem) | Dequeued(elem: Elem) | FoundEmpty

  /** op names an operation by the index of its Call. */
  datatype Event =
    | Call(tid: Tid, request: Request)
    | Lin(op: nat, effect: Effect)
    | Ret(op: nat, result: bool)

  /** Bookkeeping beside the system: the nodes in the order they were linked, and the events. */
  datatype History = History(chain: seq<nat>, headAt: nat, tailAt: nat, trace: seq<Event>, pending: map<Tid, nat>)

  function Pending(h: History, t: Tid): nat {
    if t in h.pending then h.pending[t] else 0
  }

  function PositionOf(chain: seq<nat>, x: nat): nat {
    if chain == [] then 0
    else if chain[|chain| - 1] == x then |chain| - 1
    else PositionOf(chain[..|chain| - 1], x)
  }

  function Log(h: History, e: Event): History {
    h.(trace := h.trace + [e])
  }

  function Record(s: System, h: History, m: Move): History
    requires Safe(s)
  {
    var t := m.tid;
    var op := Pending(h, t);
    match PcOf(s, t)
    case Idle => Log(h, Call(t, m.request)).(pending := h.pending[t := |h.trace|])
    case PushLink(n, p, _) =>
      if s.nodes[p].next == Null
      then Log(h, Lin(op, Enqueued(s.nodes[n].elem))).(chain := h.chain + [n])
      else h
    case PushSwing(n, oldp) => if s.tail == oldp then h.(tailAt := PositionOf(h.chain, n)) else h
    case PopTest(p) => if s.nodes[p].next == Null then Log(h, Lin(op, FoundEmpty)) else h
    case PopSwing(p, next) =>
      if s.head == p then Log(h, Lin(op, Dequeued(s.nodes[next].elem))).(headAt := h.headAt + 1) else h
    case Return(r) => Log(h, Ret(op, r)).(pending := h.pending - {t})
    case _ => h
  }

  datatype World = World(s: System, h: History)

  /** The world after a run: any moves, by any threads, in any order. */
  function After(dummy: Elem, moves: seq<Move>): (w: World)
    ensures Safe(w.s)
  {
    if moves == [] then World(Init(dummy), History([0], 0, 0, [], map[]))
    else
      var w := After(dummy, moves[..|moves| - 1]);
      var m := moves[|moves| - 1];
      StepIsSafe(w.s, m);
      World(Step(w.s, m), Record(w.s, w.h, m))
  }

  // ---- The atomic queue ----

  datatype Outcome = Illegal | Contents(elems: seq<Elem>)

  /** An atomic FIFO queue that performs the events marked Lin, in order. */
  function Replay(trace: seq<Event>): Outcome {
    if trace == [] then Contents([])
    else
      var before := Replay(trace[..|trace| - 1]);
      var e := trace[|trace| - 1];
      if before.Illegal? || !e.Lin? then before
      else match e.effect
        case Enqueued(x) => Contents(before.elems + [x])
        case Dequeued(x) => if before.elems != [] && before.elems[0] == x then Contents(before.elems[1..]) else Illegal
        case FoundEmpty => if before.elems == [] then before else Illegal
  }

  /** The events of one operation after its call. */
  function OpEvents(trace: seq<Event>, op: nat): seq<Event> {
    if trace == [] then []
    else
      var e := trace[|trace| - 1];
      OpEvents(trace[..|trace| - 1], op) + (if !e.Call? && e.op == op then [e] else [])
  }

  predicate Fits(request: Request, effect: Effect) {
    match request
    case Push(x) => effect == Enqueued(x)
    case Pop => effect.Dequeued? || effect.FoundEmpty?
  }

  predicate ResultOf(effect: Effect) {
    effect != FoundEmpty
  }

  // ---- The invariant ----

  /** The elements in the queue: those of the nodes linked after the head. */
  ghost function Queued(w: World): seq<Elem>
    requires ChainOk(w.s, w.h)
  {
    seq(|w.h.chain| - w.h.headAt - 1, i requires 0 <= i < |w.h.chain| - w.h.headAt - 1 =>
      w.s.nodes[w.h.chain[w.h.headAt + 1 + i]].elem)
  }

  ghost predicate Distinct(chain: seq<nat>) {
    forall i, j :: 0 <= i < j < |chain| ==> chain[i] != chain[j]
  }

  /** The node at index i of the chain points to the one after it. */
  ghost predicate LinkOk(nodes: seq<QNode>, chain: seq<nat>, i: nat)
    requires i < |chain| && chain[i] < |nodes|
  {
    nodes[chain[i]].next == if i + 1 < |chain| then To(chain[i + 1]) else Null
  }

  ghost predicate ChainOk(s: System, h: History) {
    && h.headAt < |h.chain| && h.tailAt < |h.chain|
    && (forall i :: 0 <= i < |h.chain| ==> h.chain[i] < |s.nodes|)
    && Distinct(h.chain)
    && s.head == h.chain[h.headAt] && s.tail == h.chain[h.tailAt]
    && (forall i {:trigger LinkOk(s.nodes, h.chain, i)} :: 0 <= i < |h.chain| ==> LinkOk(s.nodes, h.chain, i))
  }

  ghost predicate Holds(pc: Pc, n: nat) {
    (pc.PushReadTail? || pc.PushReadOld? || pc.PushTest? || pc.PushWalk? || pc.PushLink?) && pc.n == n
  }

  /** A node that its thread has not linked yet. */
  ghost predicate Private(s: System, h: History, n: nat) {
    n < |s.nodes| && n !in h.chain && s.nodes[n].next == Null
  }

  ghost predicate Earlier(chain: seq<nat>, x: nat, y: nat) {
    exists i, j :: 0 <= i < j < |chain| && chain[i] == x && chain[j] == y
  }

  /** What a thread knows at each point. */
  ghost predicate Knows(s: System, h: History, pc: Pc)
    requires h.headAt < |h.chain|
  {
    match pc
    case Idle => true
    case PushNew(_) => true
    case PushReadTail(n) => Private(s, h, n)
    case PushReadOld(n, p) => Private(s, h, n) && p in h.chain
    case PushTest(n, p, oldp) => Private(s, h, n) && p in h.chain && oldp in h.chain
    case PushWalk(n, p, oldp) => Private(s, h, n) && p in h.chain && oldp in h.chain
    case PushLink(n, p, oldp) => Private(s, h, n) && p in h.chain && oldp in h.chain
    case PushSwing(n, oldp) => Earlier(h.chain, oldp, n)
    case PopReadHead => true
    case PopTest(p) => p in h.chain[..h.headAt + 1]
    case PopNext(p) => p in h.chain[..h.headAt + 1]
    case PopSwing(p, next) => p in h.chain[..h.headAt + 1] && p < |s.nodes| && s.nodes[p].next == To(next)
    case Return(_) => true
  }

  ghost predicate Apart(s: System, t: Tid, u: Tid) {
    t != u ==> forall n: nat :: Holds(PcOf(s, t), n) ==> !Holds(PcOf(s, u), n)
  }

  ghost predicate SharedOk(w: World) {
    && Safe(w.s) && ChainOk(w.s, w.h)
    && (forall t :: t in w.s.pcs ==> Knows(w.s, w.h, w.s.pcs[t]))
    && (forall t, u {:trigger Apart(w.s, t, u)} :: t in w.s.pcs && u in w.s.pcs ==> Apart(w.s, t, u))
  }

  /** How a step of thread t changes what the others rely on: things are added, and null links are set. */
  ghost predicate Evolves(w: World, w': World, t: Tid) {
    && w.h.chain <= w'.h.chain && w.h.headAt <= w'.h.headAt && w.h.tailAt <= w'.h.tailAt
    && |w.s.nodes| <= |w'.s.nodes|
    && (forall i :: 0 <= i < |w.s.nodes| ==>
          && w'.s.nodes[i].elem == w.s.nodes[i].elem
          && (w.s.nodes[i].next != Null || i !in w.h.chain ==> w'.s.nodes[i].next == w.s.nodes[i].next))
    && (forall x :: x in w'.h.chain ==> x in w.h.chain || Holds(PcOf(w.s, t), x))
    && w'.s.pcs == w.s.pcs[t := PcOf(w'.s, t)]
  }

  lemma {:induction false} KnowsKept(w: World, w': World, t: Tid, u: Tid)
    requires SharedOk(w) && Evolves(w, w', t) && u != t && u in w.s.pcs && w'.h.headAt < |w'.h.chain|
    ensures Knows(w'.s, w'.h, w.s.pcs[u])
  {
    var pc := w.s.pcs[u];
    assert Knows(w.s, w.h, pc);
    assert t in w.s.pcs ==> Apart(w.s, t, u);
    assert w'.h.chain[..|w.h.chain|] == w.h.chain;
    if pc.PushSwing? {
      var i, j :| 0 <= i < j < |w.h.chain| && w.h.chain[i] == pc.oldp && w.h.chain[j] == pc.n;
      assert w'.h.chain[i] == pc.oldp && w'.h.chain[j] == pc.n;
    } else if pc.PopTest? || pc.PopNext? || pc.PopSwing? {
      var i :| 0 <= i <= w.h.headAt && w.h.chain[i] == pc.p;
      assert w'.h.chain[..w'.h.headAt + 1][i] == pc.p;
    } else if exists n :: Holds(pc, n) {
      assert Private(w'.s, w'.h, pc.n);
    }
  }

  lemma {:induction false} SharedKept(w: World, w': World, t: Tid)
    requires SharedOk(w) && Evolves(w, w', t) && Safe(w'.s) && ChainOk(w'.s, w'.h)
    requires Knows(w'.s, w'.h, PcOf(w'.s, t))
    requires forall n: nat :: Holds(PcOf(w'.s, t), n) ==> Holds(PcOf(w.s, t), n) || n >= |w.s.nodes|
    ensures SharedOk(w')
  {
    forall u | u in w'.s.pcs ensures Knows(w'.s, w'.h, w'.s.pcs[u]) {
      if u != t {
        KnowsKept(w, w', t, u);
      }
    }
    forall u, v | u in w'.s.pcs && v in w'.s.pcs ensures Apart(w'.s, u, v) {
      assert u in w.s.pcs && v in w.s.pcs ==> Apart(w.s, u, v);
      forall n: nat | u != v && Holds(PcOf(w'.s, u), n) ensures !Holds(PcOf(w'.s, v), n) {
        assert u in w.s.pcs ==> SafePc(w.s.nodes, PcOf(w.s, u));
        assert v in w.s.pcs ==> SafePc(w.s.nodes, PcOf(w.s, v));
      }
    }
  }

  lemma {:induction false} PositionIs(chain: seq<nat>, j: nat)
    requires j < |chain| && Distinct(chain)
    ensures PositionOf(chain, chain[j]) == j
    decreases |chain|
  {
    if j + 1 < |chain| {
      PositionIs(chain[..|chain| - 1], j);
    }
  }

  ghost function Next(w: World, m: Move): World
    requires Safe(w.s)
  {
    World(Step(w.s, m), Record(w.s, w.h, m))
  }

  /** A push whose next step sets the null link of the node p. */
  ghost predicate Links(w: World, t: Tid) {
    SharedOk(w) && PcOf(w.s, t).PushLink? && w.s.nodes[PcOf(w.s, t).p].next == Null
  }

  lemma {:induction false} LinksLast(w: World, t: Tid)
    requires Links(w, t)
    ensures PcOf(w.s, t).p == w.h.chain[|w.h.chain| - 1]
    ensures Private(w.s, w.h, PcOf(w.s, t).n) && PcOf(w.s, t).oldp in w.h.chain
  {
    var pc := PcOf(w.s, t);
    assert Knows(w.s, w.h, pc);
    var i :| 0 <= i < |w.h.chain| && w.h.chain[i] == pc.p;
    assert LinkOk(w.s.nodes, w.h.chain, i);
  }

  lemma {:induction false} LinkEvolves(w: World, m: Move)
    requires Links(w, m.tid)
    ensures Evolves(w, Next(w, m), m.tid)
  {
    LinksLast(w, m.tid);
  }

  lemma {:induction false} LinkExtendsChain(w: World, m: Move)
    requires Links(w, m.tid)
    ensures ChainOk(Next(w, m).s, Next(w, m).h)
    ensures Queued(Next(w, m)) == Queued(w) + [w.s.nodes[PcOf(w.s, m.tid).n].elem]
  {
    LinksLast(w, m.tid);
    var w' := Next(w, m);
    forall i | 0 <= i < |w'.h.chain| ensures LinkOk(w'.s.nodes, w'.h.chain, i) {
      if i < |w.h.chain| {
        assert LinkOk(w.s.nodes, w.h.chain, i);
      }
    }
  }

  /** Linking a node after the last one extends the chain by it. */
  lemma {:induction false} LinkKeeps(w: World, m: Move)
    requires Links(w, m.tid)
    ensures SharedOk(Next(w, m))
  {
    LinksLast(w, m.tid);
    LinkEvolves(w, m);
    LinkExtendsChain(w, m);
    StepIsSafe(w.s, m);
    var pc, w' := PcOf(w.s, m.tid), Next(w, m);
    var k :| 0 <= k < |w.h.chain| && w.h.chain[k] == pc.oldp;
    assert w'.h.chain[k] == pc.oldp && w'.h.chain[|w.h.chain|] == pc.n;
    assert Earlier(w'.h.chain, pc.oldp, pc.n);
    SharedKept(w, w', m.tid);
  }

  /** A step of t that sets no link. */
  ghost predicate LinksSame(w: World, w': World, t: Tid) {
    w'.s.nodes == w.s.nodes && w'.h.chain == w.h.chain && w'.s.pcs == w.s.pcs[t := PcOf(w'.s, t)]
  }

  lemma {:induction false} EndsMove(w: World, w': World, t: Tid)
    requires ChainOk(w.s, w.h) && LinksSame(w, w', t)
    requires w.h.headAt <= w'.h.headAt < |w.h.chain| && w'.s.head == w.h.chain[w'.h.headAt]
    requires w.h.tailAt <= w'.h.tailAt < |w.h.chain| && w'.s.tail == w.h.chain[w'.h.tailAt]
    ensures ChainOk(w'.s, w'.h) && Evolves(w, w', t)
    ensures w'.h.headAt == w.h.headAt ==> Queued(w') == Queued(w)
    ensures w'.h.headAt == w.h.headAt + 1 ==> Queued(w) == [w.s.nodes[w'.s.head].elem] + Queued(w')
  {
    forall k | 0 <= k < |w.h.chain| ensures LinkOk(w'.s.nodes, w'.h.chain, k) {
      assert LinkOk(w.s.nodes, w.h.chain, k);
    }
  }

  lemma {:induction false} TailAdvances(w: World, m: Move)
    requires SharedOk(w) && PcOf(w.s, m.tid).PushSwing?
    ensures ChainOk(Next(w, m).s, Next(w, m).h) && Evolves(w, Next(w, m), m.tid)
    ensures Queued(Next(w, m)) == Queued(w)
  {
    var pc := PcOf(w.s, m.tid);
    assert Knows(w.s, w.h, pc);
    var i, j :| 0 <= i < j < |w.h.chain| && w.h.chain[i] == pc.oldp && w.h.chain[j] == pc.n;
    PositionIs(w.h.chain, j);
    if w.s.tail == pc.oldp {
      assert w.h.tailAt == i;
    }
    EndsMove(w, Next(w, m), m.tid);
  }

  lemma {:induction false} SwingTailKeeps(w: World, m: Move)
    requires SharedOk(w) && PcOf(w.s, m.tid).PushSwing?
    ensures SharedOk(Next(w, m))
  {
    TailAdvances(w, m);
    StepIsSafe(w.s, m);
    SharedKept(w, Next(w, m), m.tid);
  }

  lemma {:induction false} HeadAdvances(w: World, m: Move)
    requires SharedOk(w) && PcOf(w.s, m.tid).PopSwing? && w.s.head == PcOf(w.s, m.tid).p
    ensures ChainOk(Next(w, m).s, Next(w, m).h) && Evolves(w, Next(w, m), m.tid)
    ensures Queued(w) == [w.s.nodes[PcOf(w.s, m.tid).next].elem] + Queued(Next(w, m))
  {
    var pc := PcOf(w.s, m.tid);
    assert Knows(w.s, w.h, pc);
    var i :| 0 <= i <= w.h.headAt && w.h.chain[i] == pc.p;
    assert i == w.h.headAt && LinkOk(w.s.nodes, w.h.chain, i);
    EndsMove(w, Next(w, m), m.tid);
  }

  lemma {:induction false} SwingHeadKeeps(w: World, m: Move)
    requires SharedOk(w) && PcOf(w.s, m.tid).PopSwing? && w.s.head == PcOf(w.s, m.tid).p
    ensures SharedOk(Next(w, m))
  {
    HeadAdvances(w, m);
    StepIsSafe(w.s, m);
    SharedKept(w, Next(w, m), m.tid);
  }

  /** The steps that touch only local variables, and the allocation of a node. */
  ghost predicate Local(s: System, t: Tid) {
    var pc := PcOf(s, t);
    && !pc.PushSwing?
    && (pc.PushLink? && pc.p < |s.nodes| ==> s.nodes[pc.p].next != Null)
    && (pc.PopSwing? ==> s.head != pc.p)
  }

  lemma {:induction false} LocalEvolves(w: World, m: Move)
    requires SharedOk(w) && Local(w.s, m.tid)
    ensures Evolves(w, Next(w, m), m.tid)
    ensures Next(w, m).h.chain == w.h.chain && Next(w, m).h.headAt == w.h.headAt
    ensures Next(w, m).h.tailAt == w.h.tailAt && w.s.nodes <= Next(w, m).s.nodes
    ensures Next(w, m).s.head == w.s.head && Next(w, m).s.tail == w.s.tail
  {
  }

  lemma {:induction false} LocalKnows(w: World, m: Move)
    requires SharedOk(w) && Local(w.s, m.tid)
    ensures Next(w, m).h.chain == w.h.chain && Next(w, m).h.headAt == w.h.headAt
    ensures Knows(Next(w, m).s, Next(w, m).h, PcOf(Next(w, m).s, m.tid))
  {
    var pc, w' := PcOf(w.s, m.tid), Next(w, m);
    assert Knows(w.s, w.h, pc);
    match pc
    case PushWalk(n, p, oldp) =>
      var i :| 0 <= i < |w.h.chain| && w.h.chain[i] == p;
      assert LinkOk(w.s.nodes, w.h.chain, i);
    case PopReadHead =>
      assert w.h.chain[..w.h.headAt + 1][w.h.headAt] == w.s.head;
    case _ =>
  }

  lemma {:induction false} SameChain(w: World, w': World)
    requires ChainOk(w.s, w.h) && w.s.nodes <= w'.s.nodes && w'.s.head == w.s.head && w'.s.tail == w.s.tail
    requires w'.h.chain == w.h.chain && w'.h.headAt == w.h.headAt && w'.h.tailAt == w.h.tailAt
    ensures ChainOk(w'.s, w'.h) && Queued(w') == Queued(w)
  {
    forall i | 0 <= i < |w.h.chain| ensures LinkOk(w'.s.nodes, w'.h.chain, i) {
      assert LinkOk(w.s.nodes, w.h.chain, i);
    }
  }

  lemma {:induction false} LocalHolds(w: World, m: Move, n: nat)
    requires SharedOk(w) && Local(w.s, m.tid) && Holds(PcOf(Next(w, m).s, m.tid), n)
    ensures Holds(PcOf(w.s, m.tid), n) || n >= |w.s.nodes|
  {
  }

  lemma {:induction false} LocalKeeps(w: World, m: Move)
    requires SharedOk(w) && Local(w.s, m.tid)
    ensures SharedOk(Next(w, m))
    ensures Queued(Next(w, m)) == Queued(w)
  {
    LocalEvolves(w, m);
    LocalKnows(w, m);
    StepIsSafe(w.s, m);
    var w' := Next(w, m);
    SameChain(w, w');
    forall n: nat | Holds(PcOf(w'.s, m.tid), n) ensures Holds(PcOf(w.s, m.tid), n) || n >= |w.s.nodes| {
      LocalHolds(w, m, n);
    }
    assert PcOf(w'.s, m.tid) == w'.s.pcs[m.tid];
    SharedKept(w, w', m.tid);
  }

  /** A null link read at a node the head had reached means the queue is empty now. */
  lemma {:induction false} NullMeansEmpty(w: World, t: Tid)
    requires SharedOk(w) && PcOf(w.s, t).PopTest? && w.s.nodes[PcOf(w.s, t).p].next == Null
    ensures Queued(w) == []
  {
    var pc := PcOf(w.s, t);
    assert Knows(w.s, w.h, pc);
    var i :| 0 <= i <= w.h.headAt && w.h.chain[i] == pc.p;
    assert LinkOk(w.s.nodes, w.h.chain, i);
  }

  // ---- What the trace says of each operation ----

  /** The events of operation c so far, while its thread stands at pc. */
  ghost predicate Stage(s: System, request: Request, events: seq<Event>, c: nat, pc: Pc) {
    match pc
    case Idle => false
    case PushNew(x) => request == Push(x) && events == []
    case PushReadTail(n) => n < |s.nodes| && request == Push(s.nodes[n].elem) && events == []
    case PushReadOld(n, _) => n < |s.nodes| && request == Push(s.nodes[n].elem) && events == []
    case PushTest(n, _, _) => n < |s.nodes| && request == Push(s.nodes[n].elem) && events == []
    case PushWalk(n, _, _) => n < |s.nodes| && request == Push(s.nodes[n].elem) && events == []
    case PushLink(n, _, _) => n < |s.nodes| && request == Push(s.nodes[n].elem) && events == []
    case PushSwing(n, _) => n < |s.nodes| && request == Push(s.nodes[n].elem) && Linearized(request, events, c, true)
    case Return(r) => Linearized(request, events, c, r)
    case _ => request == Pop && events == []
  }

  /** The operation has had its one effect, which fits its request and its result. */
  ghost predicate Linearized(request: Request, events: seq<Event>, c: nat, result: bool) {
    && |events| == 1 && events[0].Lin? && events[0].op == c
    && Fits(request, events[0].effect) && ResultOf(events[0].effect) == result
  }

  ghost predicate Finished(request: Request, events: seq<Event>, c: nat) {
    |events| == 2 && events[1].Ret? && events[1].op == c && Linearized(request, events[..1], c, events[1].result)
  }

  ghost predicate OpOk(w: World, c: nat)
    requires c < |w.h.trace| && w.h.trace[c].Call?
  {
    var call, events := w.h.trace[c], OpEvents(w.h.trace, c);
    if call.tid in w.h.pending && w.h.pending[call.tid] == c
    then Stage(w.s, call.request, events, c, PcOf(w.s, call.tid))
    else Finished(call.request, events, c)
  }

  ghost predicate OwnCall(w: World, t: Tid) {
    if PcOf(w.s, t).Idle? then t !in w.h.pending
    else
      && t in w.h.pending && w.h.pending[t] < |w.h.trace|
      && w.h.trace[w.h.pending[t]].Call? && w.h.trace[w.h.pending[t]].tid == t
  }

  ghost predicate TraceOk(w: World) {
    && (forall t :: OwnCall(w, t))
    && (forall c {:trigger OpOk(w, c)} :: 0 <= c < |w.h.trace| && w.h.trace[c].Call? ==> OpOk(w, c))
    && (forall i :: 0 <= i < |w.h.trace| && !w.h.trace[i].Call? ==>
          w.h.trace[i].op < i && w.h.trace[w.h.trace[i].op].Call?)
  }

  /** What a step of t adds to the trace: nothing, its call, or an event of its operation. */
  ghost predicate Adds(w: World, w': World, t: Tid) {
    && (w'.h.trace == w.h.trace
        || (|w'.h.trace| == |w.h.trace| + 1 && w'.h.trace[..|w.h.trace|] == w.h.trace
            && var e := w'.h.trace[|w.h.trace|];
               e.Call? || (t in w.h.pending && e.op == w.h.pending[t])))
    && w'.h.pending - {t} == w.h.pending - {t}
    && (t in w'.h.pending && (t !in w.h.pending || w'.h.pending[t] != w.h.pending[t]) ==> w'.h.pending[t] == |w.h.trace|)
  }

  lemma {:induction false} OtherOpKept(w: World, w': World, t: Tid, c: nat)
    requires SharedOk(w) && TraceOk(w) && Evolves(w, w', t) && Adds(w, w', t)
    requires c < |w.h.trace| && w.h.trace[c].Call? && !(t in w.h.pending && w.h.pending[t] == c)
    ensures OpOk(w', c)
  {
    var u := w.h.trace[c].tid;
    assert OpOk(w, c) && OwnCall(w, u) && OwnCall(w, t);
    assert OpEvents(w'.h.trace, c) == OpEvents(w.h.trace, c);
    if u != t {
      assert u in w'.h.pending <==> u in w'.h.pending - {t};
      assert u in w.h.pending <==> u in w.h.pending - {t};
      assert u in w.h.pending ==> (w'.h.pending - {t})[u] == (w.h.pending - {t})[u];
      assert PcOf(w'.s, u) == PcOf(w.s, u);
    }
  }

  lemma {:induction false} TraceKept(w: World, w': World, t: Tid)
    requires SharedOk(w) && TraceOk(w) && Evolves(w, w', t) && Adds(w, w', t)
    requires OwnCall(w', t)
    requires t in w.h.pending ==>
        w.h.pending[t] < |w'.h.trace| && w'.h.trace[w.h.pending[t]].Call? && OpOk(w', w.h.pending[t])
    requires |w'.h.trace| > |w.h.trace| && w'.h.trace[|w.h.trace|].Call? ==> OpOk(w', |w.h.trace|)
    ensures TraceOk(w')
  {
    assert OwnCall(w, t);
    forall u ensures OwnCall(w', u) {
      assert OwnCall(w, u);
      if u != t {
        assert u in w'.h.pending <==> u in w'.h.pending - {t};
        assert u in w.h.pending <==> u in w.h.pending - {t};
        assert u in w.h.pending ==> (w'.h.pending - {t})[u] == (w.h.pending - {t})[u];
        assert PcOf(w'.s, u) == PcOf(w.s, u);
      }
    }
    forall c | 0 <= c < |w'.h.trace| && w'.h.trace[c].Call? ensures OpOk(w', c) {
      if c < |w.h.trace| && !(t in w.h.pending && w.h.pending[t] == c) {
        OtherOpKept(w, w', t, c);
      }
    }
  }

  lemma {:induction false} NoEventsYet(trace: seq<Event>, c: nat)
    requires |trace| <= c && forall i :: 0 <= i < |trace| && !trace[i].Call? ==> trace[i].op < i
    ensures OpEvents(trace, c) == []
    decreases |trace|
  {
    if trace != [] {
      NoEventsYet(trace[..|trace| - 1], c);
    }
  }

  lemma {:induction false} CallTraced(w: World, m: Move)
    requires SharedOk(w) && TraceOk(w) && PcOf(w.s, m.tid).Idle? && Evolves(w, Next(w, m), m.tid)
    ensures TraceOk(Next(w, m))
  {
    assert OwnCall(w, m.tid);
    NoEventsYet(w.h.trace, |w.h.trace|);
    assert OpEvents(Next(w, m).h.trace, |w.h.trace|) == [];
    TraceKept(w, Next(w, m), m.tid);
  }

  /** A step that adds an event of its operation. */
  lemma {:induction false} EventTraced(w: World, m: Move, e: Event)
    requires SharedOk(w) && TraceOk(w) && Evolves(w, Next(w, m), m.tid)
    requires !PcOf(w.s, m.tid).Idle? && Next(w, m).h.trace == w.h.trace + [e]
    requires !e.Call? && e.op == Pending(w.h, m.tid)
    ensures TraceOk(Next(w, m))
  {
    var t, w' := m.tid, Next(w, m);
    assert OwnCall(w, t);
    var c := w.h.pending[t];
    assert OpOk(w, c);
    assert OpEvents(w'.h.trace, c) == OpEvents(w.h.trace, c) + [e];
    if PcOf(w.s, t).Return? {
      assert OpEvents(w'.h.trace, c)[..1] == OpEvents(w.h.trace, c);
    }
    TraceKept(w, w', t);
  }

  lemma {:induction false} StageKept(w: World, m: Move, request: Request, events: seq<Event>, c: nat)
    requires Safe(w.s) && Stage(w.s, request, events, c, PcOf(w.s, m.tid)) && Next(w, m).h.trace == w.h.trace
    ensures Stage(Next(w, m).s, request, events, c, PcOf(Next(w, m).s, m.tid))
  {
  }

  lemma {:induction false} SilentTraced(w: World, m: Move)
    requires SharedOk(w) && TraceOk(w) && Evolves(w, Next(w, m), m.tid)
    requires !PcOf(w.s, m.tid).Idle? && Next(w, m).h.trace == w.h.trace
    ensures TraceOk(Next(w, m))
  {
    var t, w' := m.tid, Next(w, m);
    assert OwnCall(w, t);
    var c := w.h.pending[t];
    assert OpOk(w, c);
    StageKept(w, m, w.h.trace[c].request, OpEvents(w.h.trace, c), c);
    TraceKept(w, w', t);
  }

  // ---- Every run ----

  function Enqueues(trace: seq<Event>): seq<Elem> {
    if trace == [] then []
    else
      var e := trace[|trace| - 1];
      Enqueues(trace[..|trace| - 1]) + (if e.Lin? && e.effect.Enqueued? then [e.effect.elem] else [])
  }

  function Dequeues(trace: seq<Event>): seq<Elem> {
    if trace == [] then []
    else
      var e := trace[|trace| - 1];
      Dequeues(trace[..|trace| - 1]) + (if e.Lin? && e.effect.Dequeued? then [e.effect.elem] else [])
  }

  /** The atomic queue, replaying the trace, holds what the linked nodes hold. */
  ghost predicate ReplayOk(w: World)
    requires ChainOk(w.s, w.h)
  {
    Replay(w.h.trace) == Contents(Queued(w)) && |Dequeues(w.h.trace)| == w.h.headAt
  }

  ghost predicate WorldOk(w: World) {
    SharedOk(w) && TraceOk(w) && ReplayOk(w)
  }

  /** What a step adds to the trace. */
  ghost function NewEvents(w: World, m: Move): (es: seq<Event>)
    requires Safe(w.s)
    ensures |es| <= 1
  {
    var pc, op := PcOf(w.s, m.tid), Pending(w.h, m.tid);
    match pc
    case Idle => [Call(m.tid, m.request)]
    case PushLink(n, p, _) => if w.s.nodes[p].next == Null then [Lin(op, Enqueued(w.s.nodes[n].elem))] else []
    case PopTest(p) => if w.s.nodes[p].next == Null then [Lin(op, FoundEmpty)] else []
    case PopSwing(p, next) => if w.s.head == p then [Lin(op, Dequeued(w.s.nodes[next].elem))] else []
    case Return(r) => [Ret(op, r)]
    case _ => []
  }

  lemma {:induction false} TraceGrows(w: World, m: Move)
    requires Safe(w.s)
    ensures Next(w, m).h.trace == w.h.trace + NewEvents(w, m)
  {
  }

  lemma {:induction false} SharedStep(w: World, m: Move)
    requires SharedOk(w)
    ensures SharedOk(Next(w, m)) && Evolves(w, Next(w, m), m.tid)
  {
    var pc := PcOf(w.s, m.tid);
    if Local(w.s, m.tid) {
      LocalEvolves(w, m);
      LocalKeeps(w, m);
    } else if pc.PushLink? {
      LinkEvolves(w, m);
      LinkKeeps(w, m);
    } else if pc.PushSwing? {
      TailAdvances(w, m);
      SwingTailKeeps(w, m);
    } else {
      HeadAdvances(w, m);
      SwingHeadKeeps(w, m);
    }
  }

  lemma {:induction false} TraceStep(w: World, m: Move)
    requires SharedOk(w) && TraceOk(w)
    ensures TraceOk(Next(w, m))
  {
    SharedStep(w, m);
    TraceGrows(w, m);
    if PcOf(w.s, m.tid).Idle? {
      CallTraced(w, m);
    } else if NewEvents(w, m) == [] {
      SilentTraced(w, m);
    } else {
      EventTraced(w, m, NewEvents(w, m)[0]);
    }
  }

  /** The atomic queue makes the change that the new events say. */
  lemma {:induction false} ReplayNew(trace: seq<Event>, e: Event, before: seq<Elem>)
    requires Replay(trace) == Contents(before)
    ensures Dequeues(trace + [e]) == Dequeues(trace) + (if e.Lin? && e.effect.Dequeued? then [e.effect.elem] else [])
    ensures !e.Lin? ==> Replay(trace + [e]) == Contents(before)
    ensures e.Lin? && e.effect.Enqueued? ==> Replay(trace + [e]) == Contents(before + [e.effect.elem])
    ensures e.Lin? && e.effect.Dequeued? && before != [] && before[0] == e.effect.elem ==>
        Replay(trace + [e]) == Contents(before[1..])
    ensures e.Lin? && e.effect.FoundEmpty? && before == [] ==> Replay(trace + [e]) == Contents([])
  {
    assert (trace + [e])[..|trace|] == trace;
  }

  lemma {:induction false} LocalReplays(w: World, m: Move)
    requires WorldOk(w) && Local(w.s, m.tid) && SharedOk(Next(w, m))
    ensures ReplayOk(Next(w, m))
  {
    var pc := PcOf(w.s, m.tid);
    LocalEvolves(w, m);
    LocalKeeps(w, m);
    TraceGrows(w, m);
    if NewEvents(w, m) != [] {
      ReplayNew(w.h.trace, NewEvents(w, m)[0], Queued(w));
      if pc.PopTest? {
        NullMeansEmpty(w, m.tid);
      }
    }
  }

  lemma {:induction false} ReplayStep(w: World, m: Move)
    requires WorldOk(w) && SharedOk(Next(w, m))
    ensures ReplayOk(Next(w, m))
  {
    var pc := PcOf(w.s, m.tid);
    if Local(w.s, m.tid) {
      LocalReplays(w, m);
    } else if pc.PushSwing? {
      TailAdvances(w, m);
      SwingTailKeeps(w, m);
    } else {
      TraceGrows(w, m);
      ReplayNew(w.h.trace, NewEvents(w, m)[0], Queued(w));
      if pc.PushLink? {
        LinkExtendsChain(w, m);
      } else {
        HeadAdvances(w, m);
        assert Queued(w)[1..] == Queued(Next(w, m));
      }
    }
  }

  /** The step of any thread keeps the invariant. */
  lemma {:induction false} StepKeeps(w: World, m: Move)
    requires WorldOk(w)
    ensures WorldOk(Next(w, m)) && Evolves(w, Next(w, m), m.tid)
  {
    SharedStep(w, m);
    TraceStep(w, m);
    ReplayStep(w, m);
  }

  /** Whatever the interleaving, the trace replayed on an atomic queue is legal and gives the queue's contents. */
  lemma {:induction false} EveryRun(dummy: Elem, moves: seq<Move>)
    ensures WorldOk(After(dummy, moves))
    decreases |moves|
  {
    if moves != [] {
      EveryRun(dummy, moves[..|moves| - 1]);
      StepKeeps(After(dummy, moves[..|moves| - 1]), moves[|moves| - 1]);
    }
  }

  // ---- Consequences ----

  /** In a legal trace what was pushed is what was popped, in the same order, then what is left. */
  lemma {:induction false} LegalIsFifo(trace: seq<Event>)
    requires Replay(trace).Contents?
    ensures Enqueues(trace) == Dequeues(trace) + Replay(trace).elems
    decreases |trace|
  {
    if trace != [] {
      LegalIsFifo(trace[..|trace| - 1]);
    }
  }

  lemma {:induction false} LegalPrefix(trace: seq<Event>, i: nat)
    requires Replay(trace).Contents? && i <= |trace|
    ensures Replay(trace[..i]).Contents?
    decreases |trace|
  {
    if i == |trace| {
      assert trace[..i] == trace;
    } else {
      var front := trace[..|trace| - 1];
      LegalPrefix(front, i);
      assert front[..i] == trace[..i];
    }
  }

  /** Pops take elements in the order in which pushes linked them. */
  lemma {:induction false} PopsFollowPushes(dummy: Elem, moves: seq<Move>)
    ensures var w := After(dummy, moves);
        && ChainOk(w.s, w.h) && Dequeues(w.h.trace) <= Enqueues(w.h.trace)
        && Enqueues(w.h.trace) == Dequeues(w.h.trace) + Queued(w)
  {
    EveryRun(dummy, moves);
    LegalIsFifo(After(dummy, moves).h.trace);
  }

  /** When a pop finds the queue empty, every element pushed by then has been popped. */
  lemma {:induction false} EmptyMeansAllPopped(dummy: Elem, moves: seq<Move>, i: nat)
    requires var trace := After(dummy, moves).h.trace; i < |trace| && trace[i].Lin? && trace[i].effect == FoundEmpty
    ensures var trace := After(dummy, moves).h.trace; Enqueues(trace[..i]) == Dequeues(trace[..i])
  {
    EveryRun(dummy, moves);
    LegalEmpty(After(dummy, moves).h.trace, i);
  }

  lemma {:induction false} LegalEmpty(trace: seq<Event>, i: nat)
    requires Replay(trace).Contents? && i < |trace| && trace[i].Lin? && trace[i].effect == FoundEmpty
    ensures Enqueues(trace[..i]) == Dequeues(trace[..i])
  {
    LegalPrefix(trace, i + 1);
    assert trace[..i + 1][..i] == trace[..i];
    LegalIsFifo(trace[..i]);
  }

  /** An event of c is preceded, among the events of c, by just those before it in the trace. */
  lemma {:induction false} EventInOrder(trace: seq<Event>, c: nat, i: nat)
    requires i < |trace| && !trace[i].Call? && trace[i].op == c
    ensures OpEvents(trace[..i], c) + [trace[i]] <= OpEvents(trace, c)
    decreases |trace|
  {
    var front := trace[..|trace| - 1];
    if i < |front| {
      EventInOrder(front, c, i);
      assert front[..i] == trace[..i];
    }
  }

  lemma {:induction false} EventOccurs(trace: seq<Event>, c: nat, p: nat) returns (i: nat)
    requires p < |OpEvents(trace, c)|
    ensures i < |trace| && trace[i] == OpEvents(trace, c)[p] && !trace[i].Call? && trace[i].op == c
    decreases |trace|
  {
    var front := trace[..|trace| - 1];
    if p < |OpEvents(front, c)| {
      i := EventOccurs(front, c, p);
    } else {
      i := |front|;
    }
  }

  /** What a trace says of operation c, in any world of a run: at most its effect, then its return. */
  lemma {:induction false} OneEffect(w: World, c: nat, r: nat)
    requires WorldOk(w) && r < |w.h.trace| && w.h.trace[r].Ret? && w.h.trace[r].op == c
    ensures c < r && w.h.trace[c].Call?
    ensures |OpEvents(w.h.trace[..r], c)| == 1
    ensures Linearized(w.h.trace[c].request, OpEvents(w.h.trace[..r], c), c, w.h.trace[r].result)
    ensures |OpEvents(w.h.trace, c)| == 2
  {
    assert OpOk(w, c);
    EventInOrder(w.h.trace, c, r);
    var events := OpEvents(w.h.trace, c);
    assert OwnCall(w, w.h.trace[c].tid);
    assert |OpEvents(w.h.trace[..r], c)| < |events|;
    assert events[|OpEvents(w.h.trace[..r], c)|] == w.h.trace[r];
    assert OpEvents(w.h.trace[..r], c) == events[..1];
  }

  /**
   * Every completed operation takes effect at exactly one instant between its call and its
   * return, with an effect that fits its request and the result it returns.
   */
  lemma {:induction false} LinearizationPoint(dummy: Elem, moves: seq<Move>, r: nat) returns (l: nat)
    requires r < |After(dummy, moves).h.trace| && After(dummy, moves).h.trace[r].Ret?
    ensures var trace := After(dummy, moves).h.trace; var c := trace[r].op;
        && c < l < r && trace[c].Call? && trace[l].Lin? && trace[l].op == c
        && Fits(trace[c].request, trace[l].effect) && ResultOf(trace[l].effect) == trace[r].result
        && forall k :: 0 <= k < |trace| && trace[k].Lin? && trace[k].op == c ==> k == l
  {
    var w := After(dummy, moves);
    var trace := w.h.trace;
    var c := trace[r].op;
    EveryRun(dummy, moves);
    OneEffect(w, c, r);
    l := EventOccurs(trace[..r], c, 0);
    forall k | 0 <= k < |trace| && trace[k].Lin? && trace[k].op == c ensures k == l {
      OnlyOne(w, c, r, k, l);
    }
  }

  /** No operation has two effects. */
  lemma {:induction false} OnlyOne(w: World, c: nat, r: nat, k: nat, l: nat)
    requires WorldOk(w) && r < |w.h.trace| && w.h.trace[r].Ret? && w.h.trace[r].op == c
    requires k < |w.h.trace| && w.h.trace[k].Lin? && w.h.trace[k].op == c
    requires l < |w.h.trace| && w.h.trace[l].Lin? && w.h.trace[l].op == c
    ensures k == l && l < r
  {
    OneEffect(w, c, r);
    var trace, events := w.h.trace, OpEvents(w.h.trace, c);
    EventInOrder(trace, c, r);
    EventInOrder(trace, c, k);
    EventInOrder(trace, c, l);
    assert events[1] == trace[r];
    var a, b := if k < l then k else l, if k < l then l else k;
    if a < b {
      assert trace[..b][..a] == trace[..a];
      EventInOrder(trace[..b], c, a);
    }
    if r < l {
      assert trace[..l][..r] == trace[..r];
      EventInOrder(trace[..l], c, r);
    }
  }

  /** Effects keep the order of operations that do not overlap. */
  lemma {:induction false} RealTimeOrder(dummy: Elem, moves: seq<Move>, r: nat, b: nat, l1: nat, l2: nat)
    requires var trace := After(dummy, moves).h.trace;
        && r < b < |trace| && l1 < |trace| && l2 < |trace|
        && trace[r].Ret? && trace[b].Call?
        && trace[l1].Lin? && trace[l1].op == trace[r].op && trace[l2].Lin? && trace[l2].op == b
    ensures l1 < l2
  {
    var w := After(dummy, moves);
    EveryRun(dummy, moves);
    OnlyOne(w, w.h.trace[r].op, r, l1, l1);
  }

  /** Between two instants of a run links that were set stay, and head and tail do not move back. */
  ghost predicate Onward(w: World, w': World) {
    && w.h.chain <= w'.h.chain && w.h.headAt <= w'.h.headAt && w.h.tailAt <= w'.h.tailAt
    && |w.s.nodes| <= |w'.s.nodes|
    && forall i :: 0 <= i < |w.s.nodes| ==>
        && w'.s.nodes[i].elem == w.s.nodes[i].elem
        && (w.s.nodes[i].next != Null ==> w'.s.nodes[i].next == w.s.nodes[i].next)
  }

  lemma {:induction false} NothingMovesBack(dummy: Elem, moves: seq<Move>, i: nat)
    requires i <= |moves|
    ensures Onward(After(dummy, moves[..i]), After(dummy, moves))
    decreases |moves|
  {
    if i == |moves| {
      assert moves[..i] == moves;
    } else {
      var front := moves[..|moves| - 1];
      NothingMovesBack(dummy, front, i);
      assert front[..i] == moves[..i];
      EveryRun(dummy, front);
      StepKeeps(After(dummy, front), moves[|moves| - 1]);
    }
  }

  /** A push whose compare-and-swap fails has been overtaken by another push since it read the link. */
  lemma {:induction false} FailedPushMeansProgress(dummy: Elem, moves: seq<Move>, i: nat, t: Tid)
    requires i <= |moves|
    requires var w := After(dummy, moves[..i]); PcOf(w.s, t).PushTest? && w.s.nodes[PcOf(w.s, t).p].next == Null
    requires var w := After(dummy, moves); PcOf(w.s, t).PushLink? && w.s.nodes[PcOf(w.s, t).p].next != Null
    requires PcOf(After(dummy, moves[..i]).s, t).p == PcOf(After(dummy, moves).s, t).p
    ensures |Enqueues(After(dummy, moves[..i]).h.trace)| < |Enqueues(After(dummy, moves).h.trace)|
  {
    var w, w' := After(dummy, moves[..i]), After(dummy, moves);
    EveryRun(dummy, moves[..i]);
    EveryRun(dummy, moves);
    NothingMovesBack(dummy, moves, i);
    PopsFollowPushes(dummy, moves[..i]);
    PopsFollowPushes(dummy, moves);
    assert Knows(w.s, w.h, PcOf(w.s, t));
    var k :| 0 <= k < |w.h.chain| && w.h.chain[k] == PcOf(w.s, t).p;
    assert LinkOk(w.s.nodes, w.h.chain, k) && LinkOk(w'.s.nodes, w'.h.chain, k);
  }

  /** A pop whose compare-and-swap fails has been overtaken by another pop since it read the head. */
  lemma {:induction false} FailedPopMeansProgress(dummy: Elem, moves: seq<Move>, i: nat, t: Tid)
    requires i <= |moves|
    requires var w := After(dummy, moves); PcOf(w.s, t).PopSwing? && w.s.head != PcOf(w.s, t).p
    requires After(dummy, moves[..i]).s.head == PcOf(After(dummy, moves).s, t).p
    ensures |Dequeues(After(dummy, moves[..i]).h.trace)| < |Dequeues(After(dummy, moves).h.trace)|
  {
    EveryRun(dummy, moves[..i]);
    EveryRun(dummy, moves);
    NothingMovesBack(dummy, moves, i);
    HeadLeft(After(dummy, moves[..i]), After(dummy, moves));
  }

  lemma {:induction false} HeadLeft(w: World, w': World)
    requires ChainOk(w.s, w.h) && ChainOk(w'.s, w'.h) && Onward(w, w') && w.s.head != w'.s.head
    ensures w.h.headAt < w'.h.headAt
  {
  }
}
