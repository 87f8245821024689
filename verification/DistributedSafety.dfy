/**
 Receiver-side idempotency alone keeps the cap, whatever the senders do and however transfer ids are
 reused across sources, destinations and amounts; and without it there is no bound at all.

 The dedup set is per replica, while the in-flight total counts each id once, at the amount of its first
 issue. What connects them is a ledger kept per id and destination: the units debited for that pair and
 not yet credited there.
 */
module DistributedSafety {
  import opened Lists
  import opened Names
  import opened Sums
  import opened DistributedModel

  type Pair = (Tid, Name)

  /** The units debited for each id and destination and not credited there. */
  ghost function Owed(c: Setup, tr: Trace): map<Pair, int> {
    match tr
    case Empty => map[]
    case Then(prior, op) => OwedAfter(c.f, Run(c, prior), Owed(c, prior), op)
  }

  ghost function OwedAfter(f: Idempotency, s: ClusterState, owed: map<Pair, int>, op: Op): map<Pair, int> {
    var reply := Step(f, s, op).1;
    if op.Issue? && reply.Issued? then
      var p := (op.tid, op.dst);
      owed[p := At(owed, p) + op.amount]
    else if op.Deliver? && reply == Returned(true) then
      var m := s.net[Position(op.idx, |s.net|)];
      var p := (m.tid, m.dst);
      owed[p := At(owed, p) - m.amount]
    else owed
  }

  /** The destination each id was first issued to. */
  function FirstDst(c: Setup, tr: Trace): map<Tid, Name> {
    match tr
    case Empty => map[]
    case Then(prior, op) => FirstDstAfter(c.f, Run(c, prior), FirstDst(c, prior), op)
  }

  function FirstDstAfter(f: Idempotency, s: ClusterState, first: map<Tid, Name>, op: Op): map<Tid, Name> {
    if op.Issue? && Step(f, s, op).1.Issued? && op.tid !in first then first[op.tid := op.dst] else first
  }

  /** Nothing is owed negatively, every message that can still be credited is covered by what is owed to
      its destination, and so is every id that nobody has credited. */
  ghost predicate Covered(s: ClusterState, owed: map<Pair, int>, first: map<Tid, Name>) {
    && first.Keys == s.tidAmount.Keys
    && (forall p :: p in owed ==> owed[p] >= 0)
    && (forall m :: m in s.net ==>
          && m.amount >= 0
          && ((m.dst in s.reps && m.tid in s.reps[m.dst].recvd) || m.amount <= At(owed, (m.tid, m.dst))))
    && (forall t :: t in first && t !in s.received ==> s.tidAmount[t] <= At(owed, (t, first[t])))
    && (forall r, t :: r in s.reps && t in s.reps[r].recvd ==> t in s.received)
  }

  ghost predicate Solvent(s: ClusterState) {
    forall r :: r in s.reps ==> s.reps[r].escrow >= 0 && s.reps[r].spent >= 0
  }

  /** Replica balances and debts together are constant. */
  ghost function Held(s: ClusterState, owed: map<Pair, int>): int {
    TotalSpent(s) + TotalEscrow(s) + Total(owed)
  }

  lemma CoveredIssue(f: Idempotency, s: ClusterState, op: Op, owed: map<Pair, int>, first: map<Tid, Name>)
    requires Covered(s, owed, first) && op.Issue? && Step(f, s, op).1.Issued?
    ensures Covered(Step(f, s, op).0, OwedAfter(f, s, owed, op), FirstDstAfter(f, s, first, op))
  {
  }

  lemma CoveredDeliver(f: Idempotency, s: ClusterState, op: Op, owed: map<Pair, int>, first: map<Tid, Name>)
    requires f.receiver && Covered(s, owed, first) && op.Deliver? && Step(f, s, op).1 == Returned(true)
    ensures Covered(Step(f, s, op).0, OwedAfter(f, s, owed, op), first)
  {
  }

  lemma CoveredDrop(f: Idempotency, s: ClusterState, op: Op, owed: map<Pair, int>, first: map<Tid, Name>)
    requires Covered(s, owed, first) && op.Drop?
    ensures Covered(Step(f, s, op).0, owed, first)
  {
    assert forall m :: m in Step(f, s, op).0.net ==> m in s.net;
  }

  lemma CoveredStep(f: Idempotency, s: ClusterState, op: Op, owed: map<Pair, int>, first: map<Tid, Name>)
    requires f.receiver && Covered(s, owed, first)
    ensures Covered(Step(f, s, op).0, OwedAfter(f, s, owed, op), FirstDstAfter(f, s, first, op))
  {
    var reply := Step(f, s, op).1;
    if op.Issue? && reply.Issued? {
      CoveredIssue(f, s, op, owed, first);
    } else if op.Deliver? && reply == Returned(true) {
      CoveredDeliver(f, s, op, owed, first);
    } else if op.Drop? {
      CoveredDrop(f, s, op, owed, first);
    } else if op.Charge? && op.name in s.reps {
      assert forall r :: r in s.reps ==> Step(f, s, op).0.reps[r].recvd == s.reps[r].recvd;
    }
  }

  lemma SolventStep(f: Idempotency, s: ClusterState, op: Op)
    requires Solvent(s) && forall m :: m in s.net ==> m.amount >= 0
    ensures Solvent(Step(f, s, op).0)
  {
  }

  lemma HeldStep(f: Idempotency, s: ClusterState, op: Op, owed: map<Pair, int>)
    ensures Held(Step(f, s, op).0, OwedAfter(f, s, owed, op)) == Held(s, owed)
  {
    var (s', reply) := Step(f, s, op);
    var owed' := OwedAfter(f, s, owed, op);
    match op
    case Charge(name, _, _) =>
      if s' != s { TotalsAfterPut(s.reps, name, s'.reps[name]); }
    case Issue(src, dst, _, tid) =>
      if reply.Issued? {
        TotalsAfterPut(s.reps, src, s'.reps[src]);
        TotalUpdate(owed, (tid, dst), owed'[(tid, dst)]);
      }
    case Deliver(idx) =>
      if reply == Returned(true) {
        var m := s.net[Position(idx, |s.net|)];
        TotalsAfterPut(s.reps, m.dst, s'.reps[m.dst]);
        TotalUpdate(owed, (m.tid, m.dst), owed'[(m.tid, m.dst)]);
      }
    case Drop(_) =>
  }

  /** Whatever the flags, a unit is in some replica or owed. */
  lemma {:induction false} HeldIsConstant(c: Setup, tr: Trace)
    ensures Held(Run(c, tr), Owed(c, tr)) == Total(c.shares)
  {
    if tr.Empty? {
      GenesisTotals(c.shares);
    } else {
      HeldIsConstant(c, tr.prior);
      HeldStep(c.f, Run(c, tr.prior), tr.op, Owed(c, tr.prior));
    }
  }

  lemma {:induction false} CoveredHolds(c: Setup, tr: Trace, cap: int)
    requires c.f.receiver && GoodGenesis(c, cap)
    ensures Covered(Run(c, tr), Owed(c, tr), FirstDst(c, tr)) && Solvent(Run(c, tr))
  {
    if tr.Then? {
      CoveredHolds(c, tr.prior, cap);
      CoveredStep(c.f, Run(c, tr.prior), tr.op, Owed(c, tr.prior), FirstDst(c, tr.prior));
      SolventStep(c.f, Run(c, tr.prior), tr.op);
    }
  }

  /** Uncredited ids inject into the pairs they are owed to. */
  lemma InFlightIsOwed(s: ClusterState, owed: map<Pair, int>, first: map<Tid, Name>)
    requires Covered(s, owed, first)
    ensures InFlight(s) <= Total(owed)
  {
    var open := s.tidAmount.Keys - s.received;
    var pairs := map t | t in open :: (t, first[t]);
    var images := owed.Keys + pairs.Values;
    SumInjection(open, s.tidAmount, images, owed, pairs);
    SumDisjoint(owed.Keys, images - owed.Keys, owed);
    assert owed.Keys + (images - owed.Keys) == images;
    SumZero(images - owed.Keys, owed);
  }

  /** With idempotent receivers, every run keeps the bound, and hence the cap: for either sender flag and
      any reuse of transfer ids. */
  lemma Safety(c: Setup, tr: Trace, cap: int)
    requires c.f.receiver && GoodGenesis(c, cap)
    ensures var s := Run(c, tr);
            && (forall r :: r in s.reps ==> s.reps[r].escrow >= 0)
            && Quantity(s) <= cap && TotalSpent(s) <= cap
  {
    var s, owed, first := Run(c, tr), Owed(c, tr), FirstDst(c, tr);
    HeldIsConstant(c, tr);
    CoveredHolds(c, tr, cap);
    InFlightIsOwed(s, owed, first);
    SumNonNegative(Escrows(s.reps).Keys, Escrows(s.reps));
    SumNonNegative(owed.Keys, owed);
  }

  // ---- receiver idempotency is exactly what the cap needs ----

  /** One transfer from r to itself, delivered n + 1 times. */
  function Redelivered(r: Name, n: nat): Trace {
    if n == 0 then Then(Then(Empty, Issue(r, r, 1, "t")), Deliver(-1))
    else Then(Redelivered(r, n - 1), Deliver(-1))
  }

  /** Replica r has one transfer to itself out, credited, and n units too many. */
  ghost predicate Surplus(s: ClusterState, shares: map<Name, int>, r: Name, n: int) {
    && s.reps.Keys == shares.Keys && r in s.reps
    && s.net == [Message(r, r, 1, "t")] && s.tidAmount.Keys == s.received == {"t"}
    && (forall q :: q in s.reps ==>
          && s.reps[q].spent == 0 && s.reps[q].escrow == shares[q] + (if q == r then n else 0)
          && s.reps[q].applied == map[] && (q != r ==> s.reps[q].issued == map[]))
  }

  /** The first delivery, under any flags, puts everything back where it was. */
  lemma FirstDelivery(c: Setup, r: Name)
    requires r in c.shares && c.shares[r] >= 1
    ensures Surplus(Run(c, Redelivered(r, 0)), c.shares, r, 0)
    ensures Run(c, Then(Empty, Issue(r, r, 1, "t"))).net == [Message(r, r, 1, "t")]
  {
    assert Run(c, Empty) == Genesis(c.shares);
    var issued := Run(c, Then(Empty, Issue(r, r, 1, "t")));
    assert issued.net == [Message(r, r, 1, "t")];
    assert Run(c, Redelivered(r, 0)) == Step(c.f, issued, Deliver(-1)).0;
  }

  lemma SurplusGrows(f: Idempotency, s: ClusterState, shares: map<Name, int>, r: Name, n: int)
    requires !f.receiver && Surplus(s, shares, r, n)
    ensures Surplus(Step(f, s, Deliver(-1)).0, shares, r, n + 1)
  {
  }

  lemma {:induction false} RedeliveryCreates(c: Setup, r: Name, n: nat)
    requires !c.f.receiver && r in c.shares && c.shares[r] >= 1
    ensures Surplus(Run(c, Redelivered(r, n)), c.shares, r, n)
  {
    if n == 0 {
      FirstDelivery(c, r);
    } else {
      RedeliveryCreates(c, r, n - 1);
      SurplusGrows(c.f, Run(c, Redelivered(r, n - 1)), c.shares, r, n - 1);
    }
  }

  lemma SurplusQuantity(s: ClusterState, shares: map<Name, int>, r: Name, n: int)
    requires Surplus(s, shares, r, n)
    ensures Quantity(s) == Total(shares) + n
  {
    assert Escrows(s.reps) == shares[r := shares[r] + n];
    TotalUpdate(shares, r, shares[r] + n);
    SumZero(Spents(s.reps).Keys, Spents(s.reps));
    assert s.tidAmount.Keys - s.received == {};
  }

  lemma RedeliveredQuantity(c: Setup, r: Name, n: nat)
    requires !c.f.receiver && r in c.shares && c.shares[r] >= 1
    ensures Quantity(Run(c, Redelivered(r, n))) == Total(c.shares) + n
  {
    RedeliveryCreates(c, r, n);
    SurplusQuantity(Run(c, Redelivered(r, n)), c.shares, r, n);
  }

  lemma SurplusSpent(f: Idempotency, s: ClusterState, shares: map<Name, int>, r: Name, n: int)
    requires Surplus(s, shares, r, n) && shares[r] + n >= 0
    ensures TotalSpent(Step(f, s, Charge(r, shares[r] + n, "o")).0) >= shares[r] + n
  {
    var s' := Step(f, s, Charge(r, shares[r] + n, "o")).0;
    SumAtLeast(Spents(s'.reps).Keys, Spents(s'.reps), r);
  }

  ghost predicate SomeRunSpends(c: Setup, n: int) {
    exists tr :: TotalSpent(Run(c, tr)) >= n
  }

  lemma RedeliverySpends(c: Setup, r: Name, n: nat)
    requires !c.f.receiver && r in c.shares && c.shares[r] >= 1
    ensures SomeRunSpends(c, n)
  {
    RedeliveryCreates(c, r, n);
    SurplusSpent(c.f, Run(c, Redelivered(r, n)), c.shares, r, n);
    assert TotalSpent(Run(c, Then(Redelivered(r, n), Charge(r, c.shares[r] + n, "o")))) >= n;
  }

  // ---- nothing to spend ----

  ghost predicate Penniless(s: ClusterState) {
    && (forall r :: r in s.reps ==> s.reps[r].escrow == s.reps[r].spent == 0)
    && (forall m :: m in s.net ==> m.amount == 0)
    && (forall t :: t in s.tidAmount ==> s.tidAmount[t] == 0)
  }

  lemma PennilessStep(f: Idempotency, s: ClusterState, op: Op)
    requires Penniless(s)
    ensures Penniless(Step(f, s, op).0)
  {
  }

  lemma {:induction false} NothingToSpend(c: Setup, tr: Trace)
    requires GoodGenesis(c, 0)
    ensures Penniless(Run(c, tr))
  {
    if tr.Empty? {
      forall r | r in c.shares
        ensures c.shares[r] == 0
      {
        SumAtLeast(c.shares.Keys, c.shares, r);
      }
    } else {
      NothingToSpend(c, tr.prior);
      PennilessStep(c.f, Run(c, tr.prior), tr.op);
    }
  }

  lemma PennilessQuantity(s: ClusterState)
    requires Penniless(s)
    ensures Quantity(s) == TotalSpent(s) == 0
  {
    SumZero(Spents(s.reps).Keys, Spents(s.reps));
    SumZero(Escrows(s.reps).Keys, Escrows(s.reps));
    SumZero(s.tidAmount.Keys - s.received, s.tidAmount);
  }

  /** The cap holds on all runs if and only if receivers are idempotent, or there is nothing to spend, and
      otherwise no bound holds; likewise for the bound on the whole quantity. */
  lemma ReceiverIdempotencyIsExactlyNeeded(c: Setup, cap: int)
    requires GoodGenesis(c, cap)
    ensures (forall tr :: TotalSpent(Run(c, tr)) <= cap) <==> c.f.receiver || cap == 0
    ensures (forall tr :: Quantity(Run(c, tr)) <= cap) <==> c.f.receiver || cap == 0
    ensures c.f.receiver || cap == 0 || forall n: nat :: SomeRunSpends(c, n)
  {
    SumNonNegative(c.shares.Keys, c.shares);
    if c.f.receiver || cap == 0 {
      forall tr
        ensures TotalSpent(Run(c, tr)) <= cap && Quantity(Run(c, tr)) <= cap
      {
        if c.f.receiver {
          Safety(c, tr, cap);
        } else {
          NothingToSpend(c, tr);
          PennilessQuantity(Run(c, tr));
        }
      }
    } else {
      var r := PositiveEntry(c.shares.Keys, c.shares);
      forall n: nat
        ensures SomeRunSpends(c, n)
      {
        RedeliverySpends(c, r, n);
      }
      assert SomeRunSpends(c, cap + 1);
      var tr :| TotalSpent(Run(c, tr)) >= cap + 1;
      assert !(TotalSpent(Run(c, tr)) <= cap);
      RedeliveredQuantity(c, r, 1);
      assert !(Quantity(Run(c, Redelivered(r, 1))) <= cap);
    }
  }

  // ---- the records of charges ----

  /** Every charge id on record was debited once, and what was debited under them is what was spent. */
  ghost predicate Recorded(q: ReplicaState) {
    && q.chargeCount.Keys == q.applied.Keys
    && (forall o :: o in q.chargeCount ==> q.chargeCount[o] == 1)
    && q.spent == Total(q.applied)
  }

  lemma ChargeRecorded(q: ReplicaState, amount: int, opid: Opid)
    requires Recorded(q) && opid !in q.applied
    ensures Recorded(q.Charge(amount, opid))
  {
    TotalUpdate(q.applied, opid, amount);
  }

  /** On every run, under any flags: no replica debits a charge id twice, and it has spent exactly the
      amounts it has on record. */
  lemma {:induction false} ChargedOnce(c: Setup, tr: Trace)
    ensures forall r :: r in Run(c, tr).reps ==> Recorded(Run(c, tr).reps[r])
  {
    if tr.Then? {
      ChargedOnce(c, tr.prior);
      var s, op := Run(c, tr.prior), tr.op;
      if op.Charge? && Step(c.f, s, op).0 != s {
        ChargeRecorded(s.reps[op.name], op.amount, op.opid);
      }
    }
  }

  // ---- the order of the messages ----

  /** Dropping message i and then delivering by index is delivering the same message first, by its index
      before the drop, and then dropping message i. */
  lemma DropThenDeliver(f: Idempotency, s: ClusterState, i: nat, j: nat)
    requires i < |s.net| && j < |s.net| - 1
    ensures var before := if j < i then j else j + 1;
            && Step(f, Step(f, s, Drop(i)).0, Deliver(j)).1 == Step(f, s, Deliver(before)).1
            && Step(f, Step(f, s, Drop(i)).0, Deliver(j)).0 == Step(f, Step(f, s, Deliver(before)).0, Drop(i)).0
  {
    assert Without(s.net, i)[j] == s.net[if j < i then j else j + 1];
  }
}
