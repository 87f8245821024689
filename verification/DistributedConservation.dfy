/**
 With both sides idempotent, and no transfer id issued by two replicas, no unit is ever lost: the quantity
 equals the cap on every run, through reordering, duplication, retries and drops. Turning either side off
 breaks the equality already on runs with unique ids.

 Any call moves the quantity by an amount that can be read off beforehand. It falls when an id is issued
 again, and it rises exactly when a delivery credits more than is in flight for its id.
 */
module DistributedConservation {
  import opened Lists
  import opened Names
  import opened Sums
  import opened DistributedModel
  import opened DistributedSafety

  // ---- what a call does to the quantity ----

  /** The in-flight amount that crediting this transfer takes away. */
  function OpenAmount(s: ClusterState, tid: Tid): int {
    if tid in s.tidAmount && tid !in s.received then s.tidAmount[tid] else 0
  }

  function Gain(f: Idempotency, s: ClusterState, op: Op): int {
    var reply := Step(f, s, op).1;
    if op.Issue? && reply.Issued? && (op.tid in s.tidAmount || op.tid in s.received) then -op.amount
    else if op.Deliver? && reply == Returned(true) then
      var m := s.net[Position(op.idx, |s.net|)];
      m.amount - OpenAmount(s, m.tid)
    else 0
  }

  lemma InFlightIssued(s: ClusterState, s': ClusterState, tid: Tid, amount: int)
    requires tid !in s.tidAmount && tid !in s.received
    requires s'.tidAmount == s.tidAmount[tid := amount] && s'.received == s.received
    ensures InFlight(s') == InFlight(s) + amount
  {
    var open := s.tidAmount.Keys - s.received;
    assert s'.tidAmount.Keys - s'.received == open + {tid};
    SumInsert(open, s'.tidAmount, tid);
    SumAgree(open, s.tidAmount, s'.tidAmount);
  }

  lemma InFlightSame(s: ClusterState, s': ClusterState)
    requires s'.tidAmount.Keys - s'.received == s.tidAmount.Keys - s.received
    requires forall t :: t in s.tidAmount && t !in s.received ==> At(s'.tidAmount, t) == At(s.tidAmount, t)
    ensures InFlight(s') == InFlight(s)
  {
    SumAgree(s.tidAmount.Keys - s.received, s.tidAmount, s'.tidAmount);
  }

  lemma InFlightCredited(s: ClusterState, s': ClusterState, tid: Tid)
    requires s'.tidAmount == s.tidAmount && s'.received == s.received + {tid}
    ensures InFlight(s') == InFlight(s) - OpenAmount(s, tid)
  {
    var open := s.tidAmount.Keys - s.received;
    assert s'.tidAmount.Keys - s'.received == open - {tid};
    if tid in open {
      SumPick(open, s.tidAmount, tid);
    } else {
      assert open - {tid} == open;
    }
  }

  /** Under any flags and in any state. */
  lemma QuantityMoves(f: Idempotency, s: ClusterState, op: Op)
    ensures Quantity(Step(f, s, op).0) == Quantity(s) + Gain(f, s, op)
  {
    var (s', reply) := Step(f, s, op);
    if op.Charge? && s' != s {
      TotalsAfterPut(s.reps, op.name, s'.reps[op.name]);
    } else if op.Issue? && reply.Issued? {
      TotalsAfterPut(s.reps, op.src, s'.reps[op.src]);
      if op.tid !in s.tidAmount && op.tid !in s.received {
        InFlightIssued(s, s', op.tid, op.amount);
      } else {
        InFlightSame(s, s');
      }
    } else if op.Deliver? && reply == Returned(true) {
      var m := s.net[Position(op.idx, |s.net|)];
      TotalsAfterPut(s.reps, m.dst, s'.reps[m.dst]);
      InFlightCredited(s, s', m.tid);
    }
  }

  /** A call creates budget if and only if it is a delivery that succeeds and credits more than is in
      flight for its id. */
  lemma CreatesIff(f: Idempotency, s: ClusterState, op: Op)
    ensures Quantity(Step(f, s, op).0) > Quantity(s) <==>
              && op.Deliver? && Step(f, s, op).1 == Returned(true)
              && var m := s.net[Position(op.idx, |s.net|)];
                 m.amount > OpenAmount(s, m.tid)
  {
    QuantityMoves(f, s, op);
  }

  // ---- which runs have unique ids ----

  /** No other replica has issued the transfer this call issues: what a caller can check beforehand. */
  predicate TidCoherent(s: ClusterState, op: Op) {
    op.Issue? ==> forall r :: r in s.reps && r != op.src ==> op.tid !in s.reps[r].issued
  }

  predicate TidsCoherent(c: Setup, tr: Trace) {
    tr.Then? ==> TidsCoherent(c, tr.prior) && TidCoherent(Run(c, tr.prior), tr.op)
  }

  /** The call issues an id that another replica has issued, and its own replica accepts it. */
  predicate Collides(s: ClusterState, op: Op) {
    && op.Issue? && op.tid in s.tidAmount
    && op.src in s.reps && op.tid !in s.reps[op.src].issued
    && 0 <= op.amount <= s.reps[op.src].escrow
  }

  predicate CollisionFree(c: Setup, tr: Trace) {
    tr.Then? ==> CollisionFree(c, tr.prior) && !Collides(Run(c, tr.prior), tr.op)
  }

  // ---- one transfer per id ----

  /** Every message carries its id's destination and amount. */
  ghost predicate NetAgrees(net: seq<Message>, dst: map<Tid, Name>, tidAmount: map<Tid, int>) {
    forall m :: m in net ==>
      && m.tid in dst && dst[m.tid] == m.dst
      && m.tid in tidAmount && tidAmount[m.tid] == m.amount
  }

  predicate DistinctTids(net: seq<Message>) {
    forall i, j :: 0 <= i < j < |net| ==> net[i].tid != net[j].tid
  }

  ghost predicate CreditedHome(reps: map<Name, ReplicaState>, dst: map<Tid, Name>) {
    forall r, t :: r in reps && t in reps[r].recvd ==> t in dst && dst[t] == r
  }

  /** A transfer id has one destination and one amount, and is credited at its destination only. */
  ghost predicate OneAddressPerId(s: ClusterState, dst: map<Tid, Name>) {
    && dst.Keys == s.tidAmount.Keys
    && s.received == RecvdTids(s.reps)
    && NetAgrees(s.net, dst, s.tidAmount)
    && CreditedHome(s.reps, dst)
  }

  /** Moreover it was issued once: it has one message at most. */
  ghost predicate OneTransferPerId(s: ClusterState, dst: map<Tid, Name>) {
    && OneAddressPerId(s, dst)
    && s.tidAmount.Keys == IssuedTids(s.reps)
    && DistinctTids(s.net)
  }

  /** The call does not issue a known id to another destination or in another amount. */
  predicate SameTransfer(s: ClusterState, dst: map<Tid, Name>, op: Op) {
    op.Issue? && op.tid in s.tidAmount && op.tid in dst ==> dst[op.tid] == op.dst && s.tidAmount[op.tid] == op.amount
  }

  lemma CreditedHomeAfterPut(
      reps: map<Name, ReplicaState>, r: Name, q: ReplicaState, new_: set<Tid>, dst: map<Tid, Name>)
    requires CreditedHome(reps, dst) && r in reps && q.recvd == reps[r].recvd + new_
    requires forall t :: t in new_ ==> t in dst && dst[t] == r
    ensures CreditedHome(reps[r := q], dst)
  {
  }

  /** A message its destination has not credited has been credited nowhere. */
  lemma FirstCredit(s: ClusterState, m: Message, dst: map<Tid, Name>)
    requires OneAddressPerId(s, dst) && m in s.net && m.dst in s.reps && m.tid !in s.reps[m.dst].recvd
    ensures m.tid !in s.received && dst[m.tid] == m.dst && s.tidAmount[m.tid] == m.amount
  {
  }

  lemma OneAddressIssue(f: Idempotency, s: ClusterState, op: Op, dst: map<Tid, Name>)
    requires OneAddressPerId(s, dst) && SameTransfer(s, dst, op)
    requires op.Issue? && Step(f, s, op).1.Issued?
    ensures OneAddressPerId(Step(f, s, op).0, FirstDstAfter(f, s, dst, op))
  {
    var q := s.reps[op.src].Issue(op.amount, op.tid);
    var dst' := FirstDstAfter(f, s, dst, op);
    RecvdAfterPut(s.reps, op.src, q, {});
    CreditedHomeAfterPut(s.reps, op.src, q, {}, dst);
    assert CreditedHome(s.reps[op.src := q], dst');
  }

  lemma OneAddressDeliver(f: Idempotency, s: ClusterState, op: Op, dst: map<Tid, Name>)
    requires f.receiver && OneAddressPerId(s, dst)
    requires op.Deliver? && Step(f, s, op).1 == Returned(true)
    ensures s.net[Position(op.idx, |s.net|)].tid !in s.received
    ensures OneAddressPerId(Step(f, s, op).0, dst)
  {
    var m := s.net[Position(op.idx, |s.net|)];
    FirstCredit(s, m, dst);
    var q := s.reps[m.dst].Receive(m);
    RecvdAfterPut(s.reps, m.dst, q, {m.tid});
    CreditedHomeAfterPut(s.reps, m.dst, q, {m.tid}, dst);
  }

  lemma OneAddressCharge(f: Idempotency, s: ClusterState, op: Op, dst: map<Tid, Name>)
    requires OneAddressPerId(s, dst) && op.Charge?
    ensures OneAddressPerId(Step(f, s, op).0, dst)
  {
    var s' := Step(f, s, op).0;
    if s' != s {
      RecvdAfterPut(s.reps, op.name, s'.reps[op.name], {});
      CreditedHomeAfterPut(s.reps, op.name, s'.reps[op.name], {}, dst);
    }
  }

  lemma OneAddressStep(f: Idempotency, s: ClusterState, op: Op, dst: map<Tid, Name>)
    requires f.receiver && OneAddressPerId(s, dst)
    requires op.Issue? && Step(f, s, op).1.Issued? ==> SameTransfer(s, dst, op)
    ensures OneAddressPerId(Step(f, s, op).0, FirstDstAfter(f, s, dst, op))
  {
    var reply := Step(f, s, op).1;
    if op.Issue? && reply.Issued? {
      OneAddressIssue(f, s, op, dst);
    } else if op.Deliver? && reply == Returned(true) {
      OneAddressDeliver(f, s, op, dst);
    } else if op.Charge? {
      OneAddressCharge(f, s, op, dst);
    }
  }

  lemma DropRemovesOne(s: ClusterState, i: nat)
    requires i < |s.net| && DistinctTids(s.net)
    ensures var rest := Without(s.net, i);
            && (forall m :: m in rest <==> m in s.net && m.tid != s.net[i].tid)
            && DistinctTids(rest)
  {
  }

  lemma IssuedByIssue(f: Idempotency, s: ClusterState, op: Op, dst: map<Tid, Name>)
    requires f.sender && OneTransferPerId(s, dst) && !Collides(s, op)
    requires op.Issue? && Step(f, s, op).1.Issued?
    ensures op.tid !in s.tidAmount
    ensures var s' := Step(f, s, op).0;
            s'.tidAmount.Keys == IssuedTids(s'.reps) && DistinctTids(s'.net)
  {
    IssuedAfterPut(s.reps, op.src, s.reps[op.src].Issue(op.amount, op.tid), {op.tid});
  }

  /** The parts about issued transfers and distinct messages. */
  lemma IssuedStep(f: Idempotency, s: ClusterState, op: Op, dst: map<Tid, Name>)
    requires f.sender && OneTransferPerId(s, dst) && !Collides(s, op)
    ensures op.Issue? && Step(f, s, op).1.Issued? ==> op.tid !in s.tidAmount
    ensures var s' := Step(f, s, op).0;
            s'.tidAmount.Keys == IssuedTids(s'.reps) && DistinctTids(s'.net)
  {
    var (s', reply) := Step(f, s, op);
    if op.Issue? && reply.Issued? {
      IssuedByIssue(f, s, op, dst);
    } else if op.Deliver? && reply == Returned(true) {
      var m := s.net[Position(op.idx, |s.net|)];
      IssuedAfterPut(s.reps, m.dst, s'.reps[m.dst], {});
    } else if op.Charge? && s' != s {
      IssuedAfterPut(s.reps, op.name, s'.reps[op.name], {});
    } else if op.Drop? && reply.Popped? {
      DropRemovesOne(s, Position(op.idx, |s.net|));
    }
  }

  lemma OneTransferStep(f: Idempotency, s: ClusterState, op: Op, dst: map<Tid, Name>)
    requires f.sender && f.receiver && OneTransferPerId(s, dst) && !Collides(s, op)
    ensures OneTransferPerId(Step(f, s, op).0, FirstDstAfter(f, s, dst, op))
  {
    IssuedStep(f, s, op, dst);
    OneAddressStep(f, s, op, dst);
  }

  lemma {:induction false} OneTransferHolds(c: Setup, tr: Trace)
    requires c.f.sender && c.f.receiver && CollisionFree(c, tr)
    ensures OneTransferPerId(Run(c, tr), FirstDst(c, tr))
  {
    if tr.Empty? {
      assert IssuedTids(Run(c, tr).reps) == RecvdTids(Run(c, tr).reps) == {};
    } else {
      OneTransferHolds(c, tr.prior);
      OneTransferStep(c.f, Run(c, tr.prior), tr.op, FirstDst(c, tr.prior));
    }
  }

  /** Ids issued by one replica each do not collide. */
  lemma {:induction false} CoherentIsCollisionFree(c: Setup, tr: Trace)
    requires c.f.sender && c.f.receiver && TidsCoherent(c, tr)
    ensures CollisionFree(c, tr)
  {
    if tr.Then? {
      CoherentIsCollisionFree(c, tr.prior);
      OneTransferHolds(c, tr.prior);
      var s := Run(c, tr.prior);
      assert forall t :: t in s.tidAmount ==> t in IssuedTids(s.reps);
    }
  }

  // ---- conservation ----

  /** With one transfer per id so far, a call keeps the quantity unless it collides. */
  lemma ConservedStepIff(f: Idempotency, s: ClusterState, op: Op, dst: map<Tid, Name>)
    requires f.sender && f.receiver && OneTransferPerId(s, dst)
    ensures Quantity(Step(f, s, op).0) == Quantity(s) <==> !(Collides(s, op) && op.amount > 0)
  {
    QuantityMoves(f, s, op);
    if op.Deliver? && Step(f, s, op).1 == Returned(true) {
      FirstCredit(s, s.net[Position(op.idx, |s.net|)], dst);
    }
  }

  /** Conservation: no sign condition on the shares, no bound on anything. */
  lemma {:induction false} Conserved(c: Setup, tr: Trace)
    requires c.f.sender && c.f.receiver && CollisionFree(c, tr)
    ensures Quantity(Run(c, tr)) == Total(c.shares)
  {
    if tr.Empty? {
      GenesisTotals(c.shares);
    } else {
      Conserved(c, tr.prior);
      OneTransferHolds(c, tr.prior);
      ConservedStepIff(c.f, Run(c, tr.prior), tr.op, FirstDst(c, tr.prior));
    }
  }

  /** check() never fails on an idempotent receiver's cluster; when senders are idempotent too, it also
      asserts conservation, and never fails on runs without a collision. */
  lemma CheckNeverFails(c: Setup, tr: Trace, cap: int)
    requires c.f.receiver && GoodGenesis(c, cap) && (c.f.sender ==> CollisionFree(c, tr))
    ensures CheckPasses(c.f, Run(c, tr), cap)
  {
    Safety(c, tr, cap);
    if c.f.sender {
      Conserved(c, tr);
    }
  }

  /** Under any flags, the quantity is the initial budget exactly when what is in flight is all that is
      owed; with both sides idempotent, check() passes exactly then. */
  lemma ConservedIff(c: Setup, tr: Trace, cap: int)
    requires GoodGenesis(c, cap)
    ensures Quantity(Run(c, tr)) == cap <==> Total(Owed(c, tr)) == InFlight(Run(c, tr))
    ensures c.f.sender && c.f.receiver ==>
              (CheckPasses(c.f, Run(c, tr), cap) <==> Total(Owed(c, tr)) == InFlight(Run(c, tr)))
  {
    HeldIsConstant(c, tr);
    if c.f.receiver {
      Safety(c, tr, cap);
    }
  }

  // ---- non-creation ----

  /** Every id that is issued again is issued again for the same transfer: a retry. */
  predicate RetriesOnly(c: Setup, tr: Trace) {
    tr.Then? ==> RetriesOnly(c, tr.prior) && SameTransfer(Run(c, tr.prior), FirstDst(c, tr.prior), tr.op)
  }

  lemma {:induction false} OneAddressHolds(c: Setup, tr: Trace)
    requires c.f.receiver && RetriesOnly(c, tr)
    ensures OneAddressPerId(Run(c, tr), FirstDst(c, tr))
  {
    if tr.Empty? {
      assert RecvdTids(Run(c, tr).reps) == {};
    } else {
      OneAddressHolds(c, tr.prior);
      OneAddressStep(c.f, Run(c, tr.prior), tr.op, FirstDst(c, tr.prior));
    }
  }

  /** With idempotent receivers, for either sender flag, no call ever creates budget on a run whose ids are
      reused for retries only. */
  lemma NeverCreates(c: Setup, prior: Trace, op: Op)
    requires c.f.receiver && RetriesOnly(c, Then(prior, op))
    ensures Quantity(Run(c, Then(prior, op))) <= Quantity(Run(c, prior))
  {
    var s, dst := Run(c, prior), FirstDst(c, prior);
    OneAddressHolds(c, prior);
    CreatesIff(c.f, s, op);
    if op.Deliver? && Step(c.f, s, op).1 == Returned(true) {
      FirstCredit(s, s.net[Position(op.idx, |s.net|)], dst);
    }
  }

  // ---- colliding ids ----

  /** One id, issued by a to itself and by b to itself. */
  function Collided(a: Name, b: Name): Trace {
    Then(Then(Empty, Issue(a, a, 1, "t")), Issue(b, b, 2, "t"))
  }

  lemma CollidedStates(c: Setup, a: Name, b: Name)
    requires a != b && a in c.shares && c.shares[a] >= 1 && b in c.shares && c.shares[b] >= 2
    ensures var s := Run(c, Then(Empty, Issue(a, a, 1, "t")));
            && s.tidAmount == map["t" := 1] && s.received == {}
            && Gain(c.f, Genesis(c.shares), Issue(a, a, 1, "t")) == 0
            && Gain(c.f, s, Issue(b, b, 2, "t")) == -2
    ensures var s := Run(c, Collided(a, b));
            s.tidAmount == map["t" := 1] && s.received == {} && Gain(c.f, s, Deliver(1)) == 1
  {
    assert Run(c, Empty) == Genesis(c.shares);
    var s, s' := Run(c, Then(Empty, Issue(a, a, 1, "t"))), Run(c, Collided(a, b));
    assert s.net == [Message(a, a, 1, "t")] && s.reps[b] == Genesis(c.shares).reps[b];
    assert s'.net == [Message(a, a, 1, "t"), Message(b, b, 2, "t")];
    assert s'.reps[b].recvd == {};
  }

  /** A collision destroys budget, and with both sides idempotent check() fails; the delivery of the second
      message then creates some. */
  lemma CollisionMovesQuantity(c: Setup, a: Name, b: Name, cap: int)
    requires a != b && a in c.shares && c.shares[a] >= 1 && b in c.shares && c.shares[b] >= 2
    requires Total(c.shares) == cap
    ensures Quantity(Run(c, Collided(a, b))) == cap - 2
    ensures Quantity(Run(c, Then(Collided(a, b), Deliver(1)))) == cap - 1
    ensures c.f.sender && c.f.receiver ==> !CheckPasses(c.f, Run(c, Collided(a, b)), cap)
  {
    GenesisTotals(c.shares);
    CollidedStates(c, a, b);
    var first := Then(Empty, Issue(a, a, 1, "t"));
    QuantityMoves(c.f, Genesis(c.shares), Issue(a, a, 1, "t"));
    QuantityMoves(c.f, Run(c, first), Issue(b, b, 2, "t"));
    QuantityMoves(c.f, Run(c, Collided(a, b)), Deliver(1));
  }

  // ---- both sides are needed ----

  /** A transfer issued, delivered, and issued again. */
  function Reissued(r: Name): Trace {
    Then(Redelivered(r, 0), Issue(r, r, 1, "t"))
  }

  lemma FirstDeliveryCoherent(c: Setup, r: Name)
    ensures TidsCoherent(c, Redelivered(r, 0))
  {
  }

  lemma ReissueDestroys(c: Setup, r: Name)
    requires !c.f.sender && r in c.shares && c.shares[r] >= 1
    ensures TidsCoherent(c, Reissued(r))
    ensures Quantity(Run(c, Reissued(r))) == Total(c.shares) - 1
  {
    FirstDelivery(c, r);
    FirstDeliveryCoherent(c, r);
    var s := Run(c, Redelivered(r, 0));
    SurplusQuantity(s, c.shares, r, 0);
    ReissueLosesOne(c.f, s, c.shares, r);
  }

  lemma ReissueLosesOne(f: Idempotency, s: ClusterState, shares: map<Name, int>, r: Name)
    requires !f.sender && Surplus(s, shares, r, 0) && shares[r] >= 1
    ensures Quantity(Step(f, s, Issue(r, r, 1, "t")).0) == Quantity(s) - 1
  {
    var s' := Step(f, s, Issue(r, r, 1, "t")).0;
    TotalsAfterPut(s.reps, r, s'.reps[r]);
  }

  /** Conservation holds on all runs with unique ids if and only if both sides are idempotent, or there is
      nothing to lose. */
  lemma BothSidesExactlyNeeded(c: Setup, cap: int)
    requires GoodGenesis(c, cap)
    ensures (forall tr :: TidsCoherent(c, tr) ==> Quantity(Run(c, tr)) == cap) <==>
              (c.f.sender && c.f.receiver) || cap == 0
  {
    SumNonNegative(c.shares.Keys, c.shares);
    if c.f.sender && c.f.receiver {
      forall tr | TidsCoherent(c, tr)
        ensures Quantity(Run(c, tr)) == cap
      {
        CoherentIsCollisionFree(c, tr);
        Conserved(c, tr);
      }
    } else if cap == 0 {
      forall tr
        ensures Quantity(Run(c, tr)) == cap
      {
        NothingToSpend(c, tr);
        PennilessQuantity(Run(c, tr));
      }
    } else {
      var r := PositiveEntry(c.shares.Keys, c.shares);
      if !c.f.sender {
        ReissueDestroys(c, r);
        assert !(Quantity(Run(c, Reissued(r))) == cap);
      } else {
        FirstDeliveryCoherent(c, r);
        RedeliveredQuantity(c, r, 1);
        assert !(Quantity(Run(c, Redelivered(r, 1))) == cap);
      }
    }
  }

  /** The usual reason a run has unique ids: every id has an owner, and only the owner issues it. */
  predicate OwnedTids(tr: Trace, owner: Tid -> Name) {
    tr.Then? ==> OwnedTids(tr.prior, owner) && (tr.op.Issue? ==> tr.op.src == owner(tr.op.tid))
  }

  lemma {:induction false} OwnedTidsAreCoherent(c: Setup, tr: Trace, owner: Tid -> Name)
    requires OwnedTids(tr, owner)
    ensures TidsCoherent(c, tr)
    ensures forall r, t :: r in Run(c, tr).reps && t in Run(c, tr).reps[r].issued ==> r == owner(t)
  {
    if tr.Then? {
      OwnedTidsAreCoherent(c, tr.prior, owner);
    }
  }
}
