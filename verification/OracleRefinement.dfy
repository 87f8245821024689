/**
 The message-passing cluster refines the centralised service, call by call and with the same answers, on
 every run in which each transfer id is issued by one replica and each charge id applied at one.

 The service remembers charges and transfers globally; each replica remembers only its own. The two part
 exactly at a call whose id another replica has handled and whose own replica, not having handled it, is
 unknown, charges or debits for it, or cannot (Diverges).
 */
module OracleRefinement {
  import opened Lists
  import opened Names
  import opened Sums
  import opened DistributedModel
  import opened DistributedSafety
  import opened DistributedConservation
  import O = EscrowOracle

  // ---- the relation ----

  function AppliedOpids(reps: map<Name, ReplicaState>): set<Opid> {
    set r, q | r in reps && q in reps[r].applied.Keys :: q
  }

  function Sent(dst: map<Tid, Name>, tidAmount: map<Tid, int>): map<Tid, O.Transfer> {
    map t | t in dst && t in tidAmount :: O.Transfer(dst[t], tidAmount[t])
  }

  function Net(net: seq<Message>): seq<O.Message> {
    seq(|net|, i requires 0 <= i < |net| => O.Message(net[i].dst, net[i].amount, net[i].tid))
  }

  /** Equal balances, transfers, credits and messages; the service has applied what any replica has. */
  ghost predicate Refines(s: ClusterState, dst: map<Tid, Name>, o: O.ServiceState) {
    && o.escrow == Escrows(s.reps) && o.spent == Spents(s.reps)
    && o.sent == Sent(dst, s.tidAmount) && o.recvd == s.received && o.net == Net(s.net)
    && o.applied.Keys == AppliedOpids(s.reps)
  }

  /** The service's answer to the same call. */
  function Answer(r: Reply): O.Reply {
    match r
    case Returned(ok) => O.Returned(ok)
    case Issued(_) => O.Returned(true)
    case NotIssued => O.Returned(false)
    case Popped(_) => O.Returned(true)
    case Raised => O.Raised
  }

  // ---- where the two part ----

  /** A charge under an id applied elsewhere and not here, that is not a charge of nothing; or any such
      charge at an unknown replica. The service answers True without charging. */
  predicate ChargeDiverges(s: ClusterState, op: Op) {
    && op.Charge? && op.amount >= 0 && op.opid in AppliedOpids(s.reps)
    && (op.name in s.reps ==> op.opid !in s.reps[op.name].applied && !(op.amount == 0 <= s.reps[op.name].escrow))
  }

  /** An issue of a known id that its own replica accepts, or at an unknown replica. The service refuses. */
  predicate IssueDiverges(s: ClusterState, op: Op) {
    Collides(s, op) || (op.Issue? && op.amount >= 0 && op.tid in s.tidAmount && op.src !in s.reps)
  }

  /** What a caller can check before the call. */
  predicate Diverges(s: ClusterState, op: Op) {
    ChargeDiverges(s, op) || IssueDiverges(s, op)
  }

  // ---- call by call ----

  lemma AppliedAfterPut(reps: map<Name, ReplicaState>, r: Name, q: ReplicaState, new_: set<Opid>)
    requires r in reps && q.applied.Keys == reps[r].applied.Keys + new_
    ensures AppliedOpids(reps[r := q]) == AppliedOpids(reps) + new_
  {
    var after := reps[r := q];
    forall x | x in AppliedOpids(reps) + new_
      ensures x in AppliedOpids(after)
    {
      if x in new_ {
        assert x in after[r].applied.Keys;
      } else {
        var y :| y in reps && x in reps[y].applied.Keys;
        assert x in after[y].applied.Keys;
      }
    }
  }

  lemma CreditKnown(s: ClusterState, m: Message, dst: map<Tid, Name>)
    requires OneAddressPerId(s, dst) && m in s.net
    ensures m.tid in s.received <==> m.dst in s.reps && m.tid in s.reps[m.dst].recvd
  {
  }

  lemma BalancesAfterPut(reps: map<Name, ReplicaState>, r: Name, q: ReplicaState)
    requires r in reps
    ensures Escrows(reps[r := q]) == Escrows(reps)[r := q.escrow]
    ensures Spents(reps[r := q]) == Spents(reps)[r := q.spent]
    ensures q.spent == reps[r].spent ==> Spents(reps[r := q]) == Spents(reps)
  {
  }

  lemma ChargeMatches(s: ClusterState, op: Op, dst: map<Tid, Name>, o: O.ServiceState)
    requires Refines(s, dst, o) && op.Charge? && op.name in s.reps
    ensures var q := s.reps[op.name].Charge(op.amount, op.opid);
            && o.escrow[op.name := q.escrow] == Escrows(s.reps[op.name := q])
            && o.spent[op.name := q.spent] == Spents(s.reps[op.name := q])
            && o.applied[op.opid := op.amount].Keys == AppliedOpids(s.reps[op.name := q])
  {
    var q := s.reps[op.name].Charge(op.amount, op.opid);
    BalancesAfterPut(s.reps, op.name, q);
    AppliedAfterPut(s.reps, op.name, q, {op.opid});
  }

  /** The call is answered alike, and leaves related states. */
  ghost predicate InStepAt(f: Idempotency, s: ClusterState, op: Op, dst: map<Tid, Name>, o: O.ServiceState) {
    && O.Step(o, op).1 == Answer(Step(f, s, op).1)
    && Refines(Step(f, s, op).0, FirstDstAfter(f, s, dst, op), O.Step(o, op).0)
  }

  lemma AppliedHere(s: ClusterState, name: Name, opid: Opid)
    requires name in s.reps && opid in s.reps[name].applied
    ensures opid in AppliedOpids(s.reps)
  {
    assert opid in s.reps[name].applied.Keys;
  }

  /** A charge both sides apply. */
  lemma ChargeApplied(f: Idempotency, s: ClusterState, op: Op, dst: map<Tid, Name>, o: O.ServiceState)
    requires Refines(s, dst, o) && op.Charge? && op.name in s.reps
    requires op.opid !in AppliedOpids(s.reps) && op.opid !in s.reps[op.name].applied
    requires 0 <= op.amount <= s.reps[op.name].escrow
    ensures InStepAt(f, s, op, dst, o)
  {
    ChargeMatches(s, op, dst, o);
  }

  /** A charge of nothing, under an id that only other replicas have applied. */
  lemma ChargeOfNothing(f: Idempotency, s: ClusterState, op: Op, dst: map<Tid, Name>, o: O.ServiceState)
    requires Refines(s, dst, o) && op.Charge? && op.name in s.reps
    requires op.opid in AppliedOpids(s.reps) && op.opid !in s.reps[op.name].applied
    requires op.amount == 0 <= s.reps[op.name].escrow
    ensures InStepAt(f, s, op, dst, o)
  {
    ChargeMatches(s, op, dst, o);
    assert o.escrow[op.name := s.reps[op.name].escrow] == o.escrow;
    assert o.spent[op.name := s.reps[op.name].spent] == o.spent;
    assert o.applied[op.opid := op.amount].Keys == o.applied.Keys;
  }

  lemma ChargeInStep(f: Idempotency, s: ClusterState, op: Op, dst: map<Tid, Name>, o: O.ServiceState)
    requires Refines(s, dst, o) && op.Charge? && op.name in s.reps && op.amount >= 0
    requires !ChargeDiverges(s, op)
    ensures InStepAt(f, s, op, dst, o)
  {
    var q := s.reps[op.name];
    if op.opid in q.applied {
      AppliedHere(s, op.name, op.opid);
    } else if op.opid in AppliedOpids(s.reps) {
      ChargeOfNothing(f, s, op, dst, o);
    } else if op.amount <= q.escrow {
      ChargeApplied(f, s, op, dst, o);
    }
  }

  lemma ChargeOutOfStep(f: Idempotency, s: ClusterState, op: Op, dst: map<Tid, Name>, o: O.ServiceState)
    requires Refines(s, dst, o) && ChargeDiverges(s, op)
    ensures !InStepAt(f, s, op, dst, o)
  {
    if op.name in s.reps && op.amount <= s.reps[op.name].escrow {
      assert Spents(Step(f, s, op).0.reps)[op.name] != o.spent[op.name];
    }
  }

  lemma RefineCharge(f: Idempotency, s: ClusterState, op: Op, dst: map<Tid, Name>, o: O.ServiceState)
    requires Refines(s, dst, o) && op.Charge?
    ensures InStepAt(f, s, op, dst, o) <==> !ChargeDiverges(s, op)
  {
    if ChargeDiverges(s, op) {
      ChargeOutOfStep(f, s, op, dst, o);
    } else if op.name in s.reps && op.amount >= 0 {
      ChargeInStep(f, s, op, dst, o);
    }
  }

  lemma IssueInStep(f: Idempotency, s: ClusterState, op: Op, dst: map<Tid, Name>, o: O.ServiceState)
    requires dst.Keys == s.tidAmount.Keys && Refines(s, dst, o)
    requires op.Issue? && op.tid !in s.tidAmount && Step(f, s, op).1.Issued?
    ensures InStepAt(f, s, op, dst, o)
  {
    IssueMatches(s, op, dst, o);
    assert FirstDstAfter(f, s, dst, op) == dst[op.tid := op.dst];
  }

  lemma RefineIssue(f: Idempotency, s: ClusterState, op: Op, dst: map<Tid, Name>, o: O.ServiceState)
    requires f.sender && OneTransferPerId(s, dst) && Refines(s, dst, o) && op.Issue?
    ensures InStepAt(f, s, op, dst, o) <==> !IssueDiverges(s, op)
  {
    if op.tid !in s.tidAmount {
      assert op.src in s.reps ==> op.tid !in s.reps[op.src].issued.Keys by {
        assert op.tid !in IssuedTids(s.reps);
      }
      if Step(f, s, op).1.Issued? {
        IssueInStep(f, s, op, dst, o);
      }
    }
  }

  /** What both sides send, after one more message. */
  lemma SentOneMore(s: ClusterState, dst: map<Tid, Name>, m: Message)
    requires m.tid !in s.tidAmount
    ensures Sent(dst[m.tid := m.dst], s.tidAmount[m.tid := m.amount]) ==
            Sent(dst, s.tidAmount)[m.tid := O.Transfer(m.dst, m.amount)]
    ensures Net(s.net + [m]) == Net(s.net) + [O.Message(m.dst, m.amount, m.tid)]
  {
  }

  /** The parts of the relation after an issue that both sides accept. */
  lemma IssueMatches(s: ClusterState, op: Op, dst: map<Tid, Name>, o: O.ServiceState)
    requires Refines(s, dst, o) && op.Issue? && op.src in s.reps && op.tid !in s.tidAmount
    ensures var q := s.reps[op.src].Issue(op.amount, op.tid);
            var m := Message(op.src, op.dst, op.amount, op.tid);
            && o.escrow[op.src := q.escrow] == Escrows(s.reps[op.src := q])
            && o.spent == Spents(s.reps[op.src := q])
            && o.sent[op.tid := O.Transfer(op.dst, op.amount)] ==
               Sent(dst[op.tid := op.dst], s.tidAmount[op.tid := op.amount])
            && o.net + [O.Message(op.dst, op.amount, op.tid)] == Net(s.net + [m])
            && o.applied.Keys == AppliedOpids(s.reps[op.src := q])
  {
    var q := s.reps[op.src].Issue(op.amount, op.tid);
    BalancesAfterPut(s.reps, op.src, q);
    AppliedAfterPut(s.reps, op.src, q, {});
    SentOneMore(s, dst, Message(op.src, op.dst, op.amount, op.tid));
  }

  lemma DeliverMatches(s: ClusterState, m: Message, dst: map<Tid, Name>, o: O.ServiceState)
    requires Refines(s, dst, o) && m.dst in s.reps
    ensures var q := s.reps[m.dst].Receive(m);
            && o.escrow[m.dst := q.escrow] == Escrows(s.reps[m.dst := q])
            && o.spent == Spents(s.reps[m.dst := q])
            && o.applied.Keys == AppliedOpids(s.reps[m.dst := q])
  {
    var q := s.reps[m.dst].Receive(m);
    BalancesAfterPut(s.reps, m.dst, q);
    AppliedAfterPut(s.reps, m.dst, q, {});
  }

  /** A delivery that both sides credit. */
  lemma DeliverInStep(f: Idempotency, s: ClusterState, op: Op, dst: map<Tid, Name>, o: O.ServiceState)
    requires Refines(s, dst, o) && op.Deliver? && InRange(op.idx, |s.net|)
    requires var m := s.net[Position(op.idx, |s.net|)];
             m.dst in s.reps && m.tid !in s.reps[m.dst].recvd && m.tid !in s.received
    ensures InStepAt(f, s, op, dst, o)
  {
    var m := s.net[Position(op.idx, |s.net|)];
    DeliverMatches(s, m, dst, o);
    assert o.net[Position(op.idx, |o.net|)] == O.Message(m.dst, m.amount, m.tid);
    var q := s.reps[m.dst].Receive(m);
    assert Step(f, s, op).0 == s.(reps := s.reps[m.dst := q], received := s.received + {m.tid});
    assert O.Step(o, op).0 == o.(escrow := o.escrow[m.dst := q.escrow], recvd := o.recvd + {m.tid});
  }

  lemma RefineDeliver(f: Idempotency, s: ClusterState, op: Op, dst: map<Tid, Name>, o: O.ServiceState)
    requires f.receiver && OneAddressPerId(s, dst) && Refines(s, dst, o) && op.Deliver?
    ensures InStepAt(f, s, op, dst, o)
  {
    if InRange(op.idx, |s.net|) {
      var m := s.net[Position(op.idx, |s.net|)];
      CreditKnown(s, m, dst);
      if m.dst in s.reps && m.tid !in s.received {
        DeliverInStep(f, s, op, dst, o);
      }
    }
  }

  lemma NetWithout(net: seq<Message>, i: nat)
    requires i < |net|
    ensures Net(Without(net, i)) == Without(Net(net), i)
  {
  }

  lemma RefineDrop(f: Idempotency, s: ClusterState, op: Op, dst: map<Tid, Name>, o: O.ServiceState)
    requires Refines(s, dst, o) && op.Drop?
    ensures InStepAt(f, s, op, dst, o)
  {
    if InRange(op.idx, |s.net|) {
      NetWithout(s.net, Position(op.idx, |s.net|));
    }
  }

  /** A call keeps the relation and gets the same answer from both if and only if it does not diverge. */
  lemma RefineStep(f: Idempotency, s: ClusterState, op: Op, dst: map<Tid, Name>, o: O.ServiceState)
    requires f.sender && f.receiver && OneTransferPerId(s, dst) && Refines(s, dst, o)
    ensures InStepAt(f, s, op, dst, o) <==> !Diverges(s, op)
  {
    match op
    case Charge(_, _, _) => RefineCharge(f, s, op, dst, o);
    case Issue(_, _, _, _) => RefineIssue(f, s, op, dst, o);
    case Deliver(_) => RefineDeliver(f, s, op, dst, o);
    case Drop(_) => RefineDrop(f, s, op, dst, o);
  }

  // ---- whole runs ----

  predicate NeverDiverges(c: Setup, tr: Trace) {
    tr.Then? ==> NeverDiverges(c, tr.prior) && !Diverges(Run(c, tr.prior), tr.op)
  }

  /** Cluster and service have answered every call of the run alike, and are in related states. */
  ghost predicate InStep(c: Setup, tr: Trace) {
    && Refines(Run(c, tr), FirstDst(c, tr), O.Run(c.shares, tr))
    && (tr.Then? ==>
          && InStep(c, tr.prior)
          && O.Step(O.Run(c.shares, tr.prior), tr.op).1 == Answer(ReplyOf(c, tr.prior, tr.op)))
  }

  lemma {:induction false} UndivergedIsCollisionFree(c: Setup, tr: Trace)
    requires NeverDiverges(c, tr)
    ensures CollisionFree(c, tr)
  {
    if tr.Then? {
      UndivergedIsCollisionFree(c, tr.prior);
    }
  }

  /** Both stay in step, answers and balances, throughout a run if and only if no call of it diverges. */
  lemma {:induction false} Refinement(c: Setup, tr: Trace)
    requires c.f.sender && c.f.receiver
    ensures InStep(c, tr) <==> NeverDiverges(c, tr)
  {
    if tr.Empty? {
      var s, o := Run(c, tr), O.Run(c.shares, tr);
      assert o.escrow == Escrows(s.reps) && o.spent == Spents(s.reps);
      assert AppliedOpids(s.reps) == {};
    } else {
      Refinement(c, tr.prior);
      if NeverDiverges(c, tr.prior) {
        UndivergedIsCollisionFree(c, tr.prior);
        OneTransferHolds(c, tr.prior);
        RefineStep(c.f, Run(c, tr.prior), tr.op, FirstDst(c, tr.prior), O.Run(c.shares, tr.prior));
      }
    }
  }

  /** While no call diverges, the cluster and the service give the same answers, hold the same balances and
      have the same in flight, and the service, in strict mode, never raises. */
  lemma SameAnswers(c: Setup, prior: Trace, op: Op, cap: int)
    requires c.f.sender && c.f.receiver && GoodGenesis(c, cap) && NeverDiverges(c, Then(prior, op))
    ensures O.Step(O.Run(c.shares, prior), op).1 == Answer(ReplyOf(c, prior, op))
    ensures var s, o := Run(c, Then(prior, op)), O.Run(c.shares, Then(prior, op));
            && o.escrow == Escrows(s.reps) && o.spent == Spents(s.reps)
            && O.InFlight(o) == InFlight(s)
            && O.StrictCheckPasses(o, cap)
  {
    var tr := Then(prior, op);
    Refinement(c, tr);
    UndivergedIsCollisionFree(c, tr);
    OneTransferHolds(c, tr);
    var s, o := Run(c, tr), O.Run(c.shares, tr);
    assert o.sent.Keys == s.tidAmount.Keys;
    SumAgree(o.sent.Keys - o.recvd, O.Amounts(o.sent), s.tidAmount);
    O.StrictNeverRaises(c.shares, tr);
  }

  /** One charge id, presented at two replicas. */
  function ChargedTwice(a: Name, b: Name): Trace {
    Then(Then(Empty, Charge(a, 0, "o")), Charge(b, 1, "o"))
  }

  /** A run that parts them: the service answers the second charge from its records, the cluster charges. */
  lemma {:induction false} ChargeIdReusedParts(c: Setup, a: Name, b: Name)
    requires c.f.sender && c.f.receiver && a != b
    requires a in c.shares && c.shares[a] >= 0 && b in c.shares
    ensures !InStep(c, ChargedTwice(a, b))
  {
    assert Run(c, Empty) == Genesis(c.shares);
    var s := Run(c, Then(Empty, Charge(a, 0, "o")));
    AppliedHere(s, a, "o");
    assert s.reps[b] == Genesis(c.shares).reps[b];
    assert ChargeDiverges(s, Charge(b, 1, "o"));
    Refinement(c, ChargedTwice(a, b));
  }

  // ---- coherent runs ----

  /** No other replica has handled this call's id: what a caller can check beforehand. */
  predicate Coherent(s: ClusterState, op: Op) {
    && TidCoherent(s, op)
    && (op.Charge? ==> forall r :: r in s.reps && r != op.name ==> op.opid !in s.reps[r].applied)
  }

  predicate IdsCoherent(c: Setup, tr: Trace) {
    tr.Then? ==> IdsCoherent(c, tr.prior) && Coherent(Run(c, tr.prior), tr.op)
  }

  /** Coherent calls do not diverge. */
  lemma {:induction false} CoherentNeverDiverges(c: Setup, tr: Trace)
    requires c.f.sender && c.f.receiver && IdsCoherent(c, tr)
    ensures NeverDiverges(c, tr)
  {
    if tr.Then? {
      CoherentNeverDiverges(c, tr.prior);
      UndivergedIsCollisionFree(c, tr.prior);
      OneTransferHolds(c, tr.prior);
      var s, op := Run(c, tr.prior), tr.op;
      assert forall t :: t in s.tidAmount ==> t in IssuedTids(s.reps);
    }
  }

  /** The usual reason a run is coherent: every id has an owner, and only the owner uses it. */
  predicate OwnedOpids(tr: Trace, owner: Opid -> Name) {
    tr.Then? ==> OwnedOpids(tr.prior, owner) && (tr.op.Charge? ==> tr.op.name == owner(tr.op.opid))
  }

  lemma {:induction false} OwnedIdsAreCoherent(c: Setup, tr: Trace, source: Tid -> Name, place: Opid -> Name)
    requires OwnedTids(tr, source) && OwnedOpids(tr, place)
    ensures IdsCoherent(c, tr)
    ensures forall r, q :: r in Run(c, tr).reps && q in Run(c, tr).reps[r].applied ==> r == place(q)
  {
    if tr.Then? {
      OwnedIdsAreCoherent(c, tr.prior, source, place);
      OwnedTidsAreCoherent(c, tr, source);
    }
  }
}
