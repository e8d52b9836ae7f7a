/**
 * The queue is lock-free: while no push and no pop takes effect, a thread
 * needs only so many steps to finish its operation.
 */
module CasProgress {
  import opened CasQueue

  function Steps(moves: seq<Move>, t: Tid): nat {
    if moves == [] then 0
    else Steps(moves[..|moves| - 1], t) + if moves[|moves| - 1].tid == t then 1 else 0
  }

  /** How far p is from the last node of the chain. */
  ghost function Distance(chain: seq<nat>, p: nat): nat {
    if PositionOf(chain, p) < |chain| then |chain| - 1 - PositionOf(chain, p) else 0
  }

  /** How many steps a thread at pc can still take before its operation ends or some operation takes effect. */
  ghost function Rank(w: World, pc: Pc): nat {
    var n, head := |w.h.chain|, w.s.head;
    match pc
    case Idle => 0
    case PushNew(_) => 2 * n + 3
    case PushReadTail(_) => 2 * n + 2
    case PushReadOld(_, _) => 2 * n + 1
    case PushTest(_, p, _) => 2 * Distance(w.h.chain, p) + 1
    case PushWalk(_, p, _) => 2 * Distance(w.h.chain, p)
    case PushLink(_, p, _) => if Distance(w.h.chain, p) == 0 then 0 else 2 * Distance(w.h.chain, p) + 2
    case PushSwing(_, _) => 2
    case PopReadHead => 3
    case PopTest(p) => if p == head then 2 else 6
    case PopNext(p) => if p == head then 1 else 5
    case PopSwing(p, _) => if p == head then 0 else 4
    case Return(_) => 1
  }

  /** Neither a push nor a pop has taken effect from w to w'. */
  ghost predicate Quiet(w: World, w': World) {
    w'.h.chain == w.h.chain && w'.h.headAt == w.h.headAt
  }

  /** A node of the chain: where it points, and that it is nearer to the end than what points to it. */
  lemma {:induction false} OnChain(w: World, p: nat)
    requires ChainOk(w.s, w.h) && p in w.h.chain
    ensures p < |w.s.nodes| && Distance(w.h.chain, p) < |w.h.chain|
    ensures w.s.nodes[p].next == Null <==> Distance(w.h.chain, p) == 0
    ensures w.s.nodes[p].next != Null ==>
        Distance(w.h.chain, w.s.nodes[p].next.node) + 1 == Distance(w.h.chain, p)
  {
    var i :| 0 <= i < |w.h.chain| && w.h.chain[i] == p;
    PositionIs(w.h.chain, i);
    assert LinkOk(w.s.nodes, w.h.chain, i);
    if i + 1 < |w.h.chain| {
      PositionIs(w.h.chain, i + 1);
    }
  }

  lemma {:induction false} PushGoesDown(w: World, m: Move)
    requires SharedOk(w) && Quiet(w, Next(w, m))
    requires var pc := PcOf(w.s, m.tid); pc.PushTest? || pc.PushWalk? || pc.PushLink?
    ensures Rank(Next(w, m), PcOf(Next(w, m).s, m.tid)) < Rank(w, PcOf(w.s, m.tid))
  {
    var pc := PcOf(w.s, m.tid);
    assert Knows(w.s, w.h, pc) && SafePc(w.s.nodes, pc);
    OnChain(w, pc.p);
  }

  /** A step inside an operation of the thread uses up one. */
  lemma {:induction false} OwnStep(w: World, m: Move)
    requires SharedOk(w) && Quiet(w, Next(w, m)) && PcOf(w.s, m.tid) != Idle
    ensures Rank(Next(w, m), PcOf(Next(w, m).s, m.tid)) < Rank(w, PcOf(w.s, m.tid))
  {
    var pc := PcOf(w.s, m.tid);
    assert Knows(w.s, w.h, pc) && SafePc(w.s.nodes, pc);
    if pc.PushTest? || pc.PushWalk? || pc.PushLink? {
      PushGoesDown(w, m);
    } else if pc.PushReadOld? {
      OnChain(w, pc.p);
    }
  }

  /** Steps of the others do not matter. */
  lemma {:induction false} OthersStep(w: World, w': World, u: Tid, t: Tid)
    requires ChainOk(w.s, w.h) && ChainOk(w'.s, w'.h) && Evolves(w, w', u) && Quiet(w, w') && t != u
    ensures Rank(w', PcOf(w'.s, t)) == Rank(w, PcOf(w.s, t))
  {
  }

  lemma {:induction false} AnyStep(w: World, w': World, m: Move, t: Tid)
    requires WorldOk(w) && w' == Next(w, m) && Quiet(w, w') && (m.tid == t ==> PcOf(w.s, t) != Idle)
    ensures Rank(w', PcOf(w'.s, t)) + (if m.tid == t then 1 else 0) <= Rank(w, PcOf(w.s, t))
  {
    StepKeeps(w, m);
    if m.tid == t {
      OwnStep(w, m);
    } else {
      OthersStep(w, w', m.tid, t);
    }
  }

  lemma {:induction false} Sandwiched(w: World, v: World, w': World)
    requires Onward(w, v) && Onward(v, w') && Quiet(w, w')
    ensures Quiet(w, v) && Quiet(v, w')
  {
  }

  lemma {:induction false} LastStep(dummy: Elem, moves: seq<Move>, v: World)
    requires moves != [] && v == After(dummy, moves[..|moves| - 1])
    ensures Safe(v.s) && After(dummy, moves) == Next(v, moves[|moves| - 1])
  {
  }

  /** Nothing takes effect from one instant to the next when nothing does over a longer time. */
  lemma {:induction false} QuietBetween(dummy: Elem, moves: seq<Move>, i: nat, front: seq<Move>, w: World, v: World, w': World)
    requires i < |moves| && front == moves[..|moves| - 1]
    requires w == After(dummy, moves[..i]) && v == After(dummy, front) && w' == After(dummy, moves) && Quiet(w, w')
    ensures Quiet(w, v) && Quiet(v, w')
  {
    assert front[..i] == moves[..i] && moves[..|front|] == front;
    NothingMovesBack(dummy, front, i);
    NothingMovesBack(dummy, moves, |front|);
    Sandwiched(w, v, w');
  }

  /** From move i on thread t takes no step that would call a new operation. */
  ghost predicate WithinOne(dummy: Elem, moves: seq<Move>, i: nat, t: Tid) {
    forall k :: i <= k < |moves| && moves[k].tid == t ==> PcOf(After(dummy, moves[..k]).s, t) != Idle
  }

  lemma {:induction false} WithinFront(dummy: Elem, moves: seq<Move>, i: nat, t: Tid)
    requires i < |moves| && WithinOne(dummy, moves, i, t)
    ensures WithinOne(dummy, moves[..|moves| - 1], i, t)
    ensures moves[|moves| - 1].tid == t ==> PcOf(After(dummy, moves[..|moves| - 1]).s, t) != Idle
  {
    var front := moves[..|moves| - 1];
    forall k | i <= k < |front| && front[k].tid == t ensures PcOf(After(dummy, front[..k]).s, t) != Idle {
      assert front[..k] == moves[..k] && moves[k].tid == t;
    }
    assert moves[..|front|] == front;
  }

  lemma {:induction false} StepsUseUp(dummy: Elem, moves: seq<Move>, i: nat, t: Tid, w: World, w': World)
    requires i <= |moves| && WithinOne(dummy, moves, i, t)
    requires w == After(dummy, moves[..i]) && w' == After(dummy, moves) && Quiet(w, w')
    ensures Steps(moves[i..], t) + Rank(w', PcOf(w'.s, t)) <= Rank(w, PcOf(w.s, t))
    decreases |moves|
  {
    if i == |moves| {
      assert moves[..i] == moves && moves[i..] == [];
    } else {
      var front, m := moves[..|moves| - 1], moves[|moves| - 1];
      assert front[..i] == moves[..i];
      var v := After(dummy, front);
      QuietBetween(dummy, moves, i, front, w, v, w');
      EveryRun(dummy, front);
      LastStep(dummy, moves, v);
      WithinFront(dummy, moves, i, t);
      StepsUseUp(dummy, front, i, t, w, v);
      AnyStep(v, w', m, t);
      OneMore(moves, i, t);
    }
  }

  lemma OneMore(moves: seq<Move>, i: nat, t: Tid)
    requires i < |moves|
    ensures Steps(moves[i..], t)
         == Steps(moves[..|moves| - 1][i..], t) + if moves[|moves| - 1].tid == t then 1 else 0
  {
    assert moves[i..][..|moves| - 1 - i] == moves[..|moves| - 1][i..];
  }

  lemma {:induction false} RankBound(w: World, t: Tid)
    requires SharedOk(w)
    ensures Rank(w, PcOf(w.s, t)) <= 2 * |w.h.chain| + 4
  {
  }

  /** The chain holds the dummy and one node for each push that took effect. */
  lemma {:induction false} EffectsCounted(dummy: Elem, moves: seq<Move>)
    ensures var w := After(dummy, moves);
        |Enqueues(w.h.trace)| + 1 == |w.h.chain| && |Dequeues(w.h.trace)| == w.h.headAt
  {
    EveryRun(dummy, moves);
    PopsFollowPushes(dummy, moves);
  }

  /**
   * Between two instants of a run without a push or a pop taking effect, a thread inside one
   * operation takes at most so many steps as are twice the pushes so far, and six.
   */
  lemma {:induction false} LockFree(dummy: Elem, moves: seq<Move>, i: nat, t: Tid)
    requires i <= |moves| && WithinOne(dummy, moves, i, t)
    requires var before, after := After(dummy, moves[..i]).h.trace, After(dummy, moves).h.trace;
        |Enqueues(before)| == |Enqueues(after)| && |Dequeues(before)| == |Dequeues(after)|
    ensures Steps(moves[i..], t) <= 2 * |Enqueues(After(dummy, moves[..i]).h.trace)| + 6
  {
    EffectsCounted(dummy, moves[..i]);
    EffectsCounted(dummy, moves);
    NothingMovesBack(dummy, moves, i);
    EveryRun(dummy, moves[..i]);
    StepsUseUp(dummy, moves, i, t, After(dummy, moves[..i]), After(dummy, moves));
    RankBound(After(dummy, moves[..i]), t);
  }
}
