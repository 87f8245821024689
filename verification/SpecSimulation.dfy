/**
 The message-passing cluster with both sides idempotent, and the independent transition function of
 impl/spec_model.py, simulate each other: each call stutters or takes one of the enumerated transitions,
 and each enumerated transition is taken by some call. So the states the exploration counts are exactly
 the states the cluster can be in, seen through the abstraction.
 */
module SpecSimulation {
  import opened Lists
  import opened Names
  import opened DistributedModel
  import opened DistributedSafety
  import opened DistributedConservation
  import opened OracleRefinement
  import S = SpecModel

  function MsgsOf(net: seq<Message>): set<S.Msg> {
    set m | m in net :: S.Msg(m.dst, m.tid)
  }

  function AmtOf(p: S.Params, tidAmount: map<Tid, int>): map<Tid, int> {
    map t | t in p.tids :: if t in tidAmount then tidAmount[t] else 0
  }

  /** What the transition function sees of a cluster: who applied or issued what is forgotten, and so are
      the order of the messages and where they came from. */
  function Abstract(p: S.Params, s: ClusterState): S.State {
    S.State(Escrows(s.reps), Spents(s.reps), MsgsOf(s.net), AppliedOpids(s.reps),
            s.tidAmount.Keys, s.received, AmtOf(p, s.tidAmount))
  }

  /** The cluster the parameters describe. */
  function SetupFor(p: S.Params): Setup {
    Setup(Idempotency(true, true), map r | r in p.replicas :: if r == p.genesis then p.cap else 0)
  }

  /** The call stays within the parameters. */
  predicate Within(p: S.Params, op: Op) {
    match op
    case Charge(name, amount, opid) => name in p.replicas && opid in p.cids && amount in p.amounts
    case Issue(src, dst, amount, tid) =>
      src in p.replicas && dst in p.replicas && tid in p.tids && amount in p.amounts
    case _ => true
  }

  predicate AllWithin(p: S.Params, tr: Trace) {
    tr.Then? ==> AllWithin(p, tr.prior) && Within(p, tr.op)
  }

  // Calls within the parameters, none of which parts the cluster from the reference service.
  ghost predicate Conforming(p: S.Params, tr: Trace) {
    AllWithin(p, tr) && NeverDiverges(SetupFor(p), tr)
  }

  ghost predicate InRoster(p: S.Params, s: ClusterState) {
    && s.reps.Keys == Elements(p.replicas)
    && s.tidAmount.Keys <= Elements(p.tids)
    && (forall m :: m in s.net ==> m.dst in p.replicas)
  }

  lemma {:induction false} RosterHolds(p: S.Params, tr: Trace)
    requires AllWithin(p, tr)
    ensures InRoster(p, Run(SetupFor(p), tr))
  {
    if tr.Then? {
      RosterHolds(p, tr.prior);
      var s := Run(SetupFor(p), tr.prior);
      if tr.op.Drop? && InRange(tr.op.idx, |s.net|) {
        assert forall m :: m in Without(s.net, Position(tr.op.idx, |s.net|)) ==> m in s.net;
      }
    }
  }

  // ---- what each accepted call does to the abstract state ----

  lemma ChargeAbstracts(p: S.Params, s: ClusterState, name: Name, amount: int, opid: Opid)
    requires name in s.reps
    ensures var q := s.reps[name].Charge(amount, opid);
            Abstract(p, s.(reps := s.reps[name := q])) == S.AfterCharge(Abstract(p, s), name, opid, amount)
  {
    var q := s.reps[name].Charge(amount, opid);
    BalancesAfterPut(s.reps, name, q);
    AppliedAfterPut(s.reps, name, q, {opid});
  }

  lemma SentAbstracts(p: S.Params, net: seq<Message>, tidAmount: map<Tid, int>, m: Message)
    requires m.tid in p.tids
    ensures MsgsOf(net + [m]) == MsgsOf(net) + {S.Msg(m.dst, m.tid)}
    ensures AmtOf(p, tidAmount[m.tid := m.amount]) == AmtOf(p, tidAmount)[m.tid := m.amount]
  {
  }

  lemma IssueAbstracts(p: S.Params, s: ClusterState, m: Message)
    requires m.src in s.reps && m.tid in p.tids
    ensures var q := s.reps[m.src].Issue(m.amount, m.tid);
            Abstract(p, ClusterState(s.reps[m.src := q], s.net + [m], s.tidAmount[m.tid := m.amount], s.received)) ==
            S.AfterSend(Abstract(p, s), m.src, m.dst, m.tid, m.amount)
  {
    var q := s.reps[m.src].Issue(m.amount, m.tid);
    BalancesAfterPut(s.reps, m.src, q);
    AppliedAfterPut(s.reps, m.src, q, {});
    SentAbstracts(p, s.net, s.tidAmount, m);
    assert s.tidAmount[m.tid := m.amount].Keys == s.tidAmount.Keys + {m.tid};
  }

  lemma DeliverAbstracts(p: S.Params, s: ClusterState, m: Message)
    requires m.dst in s.reps && m.tid in p.tids && m.tid in s.tidAmount && s.tidAmount[m.tid] == m.amount
    ensures var q := s.reps[m.dst].Receive(m);
            Abstract(p, s.(reps := s.reps[m.dst := q], received := s.received + {m.tid})) ==
            S.AfterRecv(Abstract(p, s), S.Msg(m.dst, m.tid))
  {
    var q := s.reps[m.dst].Receive(m);
    BalancesAfterPut(s.reps, m.dst, q);
    AppliedAfterPut(s.reps, m.dst, q, {});
  }

  lemma DropAbstracts(p: S.Params, s: ClusterState, i: nat, dst: map<Tid, Name>)
    requires DistinctTids(s.net) && i < |s.net|
    ensures S.Msg(s.net[i].dst, s.net[i].tid) in MsgsOf(s.net)
    ensures Abstract(p, s.(net := Without(s.net, i))) ==
            S.AfterDrop(Abstract(p, s), S.Msg(s.net[i].dst, s.net[i].tid))
  {
  }

  // ---- each call stutters or is a transition ----

  ghost predicate StuttersOrSteps(p: S.Params, s: ClusterState, s': ClusterState) {
    Abstract(p, s') == Abstract(p, s) || S.Next(p, Abstract(p, s), Abstract(p, s'))
  }

  lemma ChargeSimulated(p: S.Params, s: ClusterState, op: Op)
    requires op.Charge? && InRoster(p, s) && !ChargeDiverges(s, op) && Within(p, op)
    ensures StuttersOrSteps(p, s, Step(Idempotency(true, true), s, op).0)
  {
    var s', t := Step(Idempotency(true, true), s, op).0, Abstract(p, s);
    if s' != s {
      ChargeAbstracts(p, s, op.name, op.amount, op.opid);
      if op.opid in AppliedOpids(s.reps) {
        assert S.AfterCharge(t, op.name, op.opid, 0) == t;
      } else {
        assert S.CanCharge(p, t, op.name, op.opid, op.amount);
        assert S.Charged(p, t, Abstract(p, s'));
      }
    }
  }

  lemma IssueSimulated(p: S.Params, s: ClusterState, op: Op)
    requires op.Issue? && InRoster(p, s) && !Collides(s, op) && Within(p, op)
    ensures StuttersOrSteps(p, s, Step(Idempotency(true, true), s, op).0)
  {
    var (s', reply) := Step(Idempotency(true, true), s, op);
    if reply.Issued? {
      IssueAbstracts(p, s, reply.msg);
      assert S.CanSend(p, Abstract(p, s), op.src, op.dst, op.tid, op.amount);
      assert S.SentFirst(p, Abstract(p, s), Abstract(p, s'));
    }
  }

  lemma DeliverSimulated(p: S.Params, s: ClusterState, op: Op, dst: map<Tid, Name>)
    requires op.Deliver? && InRoster(p, s) && OneTransferPerId(s, dst)
    ensures StuttersOrSteps(p, s, Step(Idempotency(true, true), s, op).0)
  {
    var (s', reply) := Step(Idempotency(true, true), s, op);
    if reply == Returned(true) {
      var m := s.net[Position(op.idx, |s.net|)];
      FirstCredit(s, m, dst);
      DeliverAbstracts(p, s, m);
      assert S.CanRecv(Abstract(p, s), S.Msg(m.dst, m.tid)) by {
        assert m in s.net;
      }
      assert S.Received(Abstract(p, s), Abstract(p, s'));
    }
  }

  lemma DropSimulated(p: S.Params, s: ClusterState, op: Op, dst: map<Tid, Name>)
    requires op.Drop? && OneTransferPerId(s, dst)
    ensures StuttersOrSteps(p, s, Step(Idempotency(true, true), s, op).0)
  {
  }

  /** In every state a conforming run leads to, a conforming call stutters or takes a transition that the
      enumeration lists. */
  lemma CallIsTransition(p: S.Params, prior: Trace, op: Op)
    requires Conforming(p, Then(prior, op))
    ensures StuttersOrSteps(p, Run(SetupFor(p), prior), Run(SetupFor(p), Then(prior, op)))
  {
    var c := SetupFor(p);
    var s, dst := Run(c, prior), FirstDst(c, prior);
    RosterHolds(p, prior);
    UndivergedIsCollisionFree(c, prior);
    OneTransferHolds(c, prior);
    match op
    case Charge(_, _, _) => ChargeSimulated(p, s, op);
    case Issue(_, _, _, _) => IssueSimulated(p, s, op);
    case Deliver(_) => DeliverSimulated(p, s, op, dst);
    case Drop(_) => DropSimulated(p, s, op, dst);
  }

  // ---- each transition is some call ----

  ghost predicate Realises(p: S.Params, s: ClusterState, op: Op, x: S.State) {
    && Within(p, op) && !Diverges(s, op)
    && Abstract(p, Step(Idempotency(true, true), s, op).0) == x
  }

  lemma RealiseCharge(p: S.Params, s: ClusterState, r: Name, c: Opid, a: int)
    requires S.Assumptions(p) && InRoster(p, s) && S.CanCharge(p, Abstract(p, s), r, c, a)
    ensures Realises(p, s, Charge(r, a, c), S.AfterCharge(Abstract(p, s), r, c, a))
  {
    ChargeAbstracts(p, s, r, a, c);
  }

  lemma RealiseSend(p: S.Params, s: ClusterState, i: Name, j: Name, t: Tid, a: int)
    requires S.Assumptions(p) && InRoster(p, s) && s.tidAmount.Keys == IssuedTids(s.reps)
    requires S.CanSend(p, Abstract(p, s), i, j, t, a)
    ensures Realises(p, s, Issue(i, j, a, t), S.AfterSend(Abstract(p, s), i, j, t, a))
  {
    assert t !in IssuedTids(s.reps);
    assert t !in s.reps[i].issued.Keys;
    IssueAbstracts(p, s, Message(i, j, a, t));
  }

  lemma MessageAt(net: seq<Message>, x: S.Msg) returns (i: nat)
    requires x in MsgsOf(net)
    ensures i < |net| && x == S.Msg(net[i].dst, net[i].tid)
  {
    var m :| m in net && x == S.Msg(m.dst, m.tid);
    i :| 0 <= i < |net| && net[i] == m;
  }

  lemma RealiseRecv(p: S.Params, s: ClusterState, dst: map<Tid, Name>, m: S.Msg) returns (op: Op)
    requires InRoster(p, s) && OneTransferPerId(s, dst) && S.CanRecv(Abstract(p, s), m)
    ensures Realises(p, s, op, S.AfterRecv(Abstract(p, s), m))
  {
    var i := MessageAt(s.net, m);
    op := Deliver(i);
    var msg := s.net[i];
    assert msg in s.net;
    CreditKnown(s, msg, dst);
    DeliverAbstracts(p, s, msg);
  }

  lemma RealiseDrop(p: S.Params, s: ClusterState, dst: map<Tid, Name>, m: S.Msg) returns (op: Op)
    requires OneTransferPerId(s, dst) && m in Abstract(p, s).net
    ensures Realises(p, s, op, S.AfterDrop(Abstract(p, s), m))
  {
    var i := MessageAt(s.net, m);
    op := Drop(i);
    DropAbstracts(p, s, i, dst);
  }

  lemma RealiseNext(p: S.Params, s: ClusterState, dst: map<Tid, Name>, x: S.State) returns (op: Op)
    requires S.Assumptions(p) && InRoster(p, s) && OneTransferPerId(s, dst) && S.Next(p, Abstract(p, s), x)
    ensures Realises(p, s, op, x)
  {
    var t := Abstract(p, s);
    if r, cid, a :| S.CanCharge(p, t, r, cid, a) && x == S.AfterCharge(t, r, cid, a) {
      op := Charge(r, a, cid);
      RealiseCharge(p, s, r, cid, a);
    } else if i, j, tid, a :| S.CanSend(p, t, i, j, tid, a) && x == S.AfterSend(t, i, j, tid, a) {
      op := Issue(i, j, a, tid);
      RealiseSend(p, s, i, j, tid, a);
    } else if m :| S.CanRecv(t, m) && x == S.AfterRecv(t, m) {
      op := RealiseRecv(p, s, dst, m);
    } else {
      var m :| m in t.net && x == S.AfterDrop(t, m);
      op := RealiseDrop(p, s, dst, m);
    }
  }

  /** In every state a conforming run leads to, each transition the enumeration lists is taken by some
      conforming call. */
  lemma TransitionIsCall(p: S.Params, tr: Trace, x: S.State) returns (op: Op)
    requires S.Assumptions(p) && Conforming(p, tr)
    requires S.Next(p, Abstract(p, Run(SetupFor(p), tr)), x)
    ensures Conforming(p, Then(tr, op)) && Abstract(p, Run(SetupFor(p), Then(tr, op))) == x
  {
    RosterHolds(p, tr);
    UndivergedIsCollisionFree(SetupFor(p), tr);
    OneTransferHolds(SetupFor(p), tr);
    op := RealiseNext(p, Run(SetupFor(p), tr), FirstDst(SetupFor(p), tr), x);
  }

  // ---- the same reachable states ----

  lemma InitAbstract(p: S.Params)
    ensures Abstract(p, Run(SetupFor(p), Empty)) == S.InitState(p)
  {
    var s := Run(SetupFor(p), Empty);
    assert Escrows(s.reps) == S.InitState(p).escrow;
    assert Spents(s.reps) == S.InitState(p).spent;
    assert AppliedOpids(s.reps) == {};
    assert AmtOf(p, s.tidAmount) == S.InitState(p).amtOf;
  }

  lemma {:induction false} RunIsReachable(p: S.Params, tr: Trace)
    requires Conforming(p, tr)
    ensures S.Reachable(p, Abstract(p, Run(SetupFor(p), tr)))
  {
    InitAbstract(p);
    if tr.Empty? {
      assert S.ReachedIn(p, 0, S.InitState(p));
    } else {
      RunIsReachable(p, tr.prior);
      CallIsTransition(p, tr.prior, tr.op);
      var s, s' := Abstract(p, Run(SetupFor(p), tr.prior)), Abstract(p, Run(SetupFor(p), tr));
      if s' != s {
        S.ReachableNext(p, s, s');
      }
    }
  }

  lemma {:induction false} ReachedIsRun(p: S.Params, n: nat, x: S.State) returns (tr: Trace)
    requires S.Assumptions(p) && S.ReachedIn(p, n, x)
    ensures Conforming(p, tr) && Abstract(p, Run(SetupFor(p), tr)) == x
  {
    if n == 0 {
      tr := Empty;
      InitAbstract(p);
    } else {
      var x0 :| S.ReachedIn(p, n - 1, x0) && S.Next(p, x0, x);
      var prior := ReachedIsRun(p, n - 1, x0);
      var op := TransitionIsCall(p, prior, x);
      tr := Then(prior, op);
    }
  }

  /** The reachable states of the transition function are exactly the abstractions of the states that
      conforming runs of the cluster lead to. */
  lemma SameReachableStates(p: S.Params, x: S.State)
    requires S.Assumptions(p)
    ensures S.Reachable(p, x) <==> exists tr :: Conforming(p, tr) && Abstract(p, Run(SetupFor(p), tr)) == x
  {
    if S.Reachable(p, x) {
      var n: nat :| S.ReachedIn(p, n, x);
      var tr := ReachedIsRun(p, n, x);
    }
    forall tr | Conforming(p, tr) && Abstract(p, Run(SetupFor(p), tr)) == x
      ensures S.Reachable(p, x)
    {
      RunIsReachable(p, tr);
    }
  }
}
