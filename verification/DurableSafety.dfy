/**
 Safety of the crash/recovery cluster over whole runs, for every finite replica set, every cap, every
 transfer id and amount, and every interleaving with per-replica crashes, partial persistence and drops.

 The argument separates the two disciplines. With a durable dedup set alone, every run obeys an exact
 ledger: what is left plus what crashes and drops destroyed is what there was at the start. The
 write-ahead debit is what makes each destroyed amount non-negative, so that nothing is ever created.
 */
module DurableSafety {
  import opened Lists
  import opened Names
  import opened Sums
  import opened DurableModel

  // ---- where transfers go: the ghost address book ----

  /** The destination of every transfer id issued during the run. Unlike the message list, it never
      shrinks: a dropped message keeps its entry, as it keeps its entry in amtOf. */
  function Destinations(c: Setup, tr: Trace): map<Tid, Name> {
    match tr
    case Empty => map[]
    case Then(prior, op) =>
      if op.Issue? && ReplyOf(c, prior, op) == Returned(true) then Destinations(c, prior)[op.tid := op.dst]
      else Destinations(c, prior)
  }

  /** The dedup half of the invariant: a transfer is credited only at its destination, the durable
      dedup sets equal the volatile ones, and no two messages share an id. */
  ghost predicate Shape(s: ClusterState, dst: map<Tid, Name>) {
    && dst.Keys == s.amtOf.Keys
    && (forall r, t :: r in s.reps && t in s.reps[r].recvd ==> t in dst && dst[t] == r)
    && (forall r :: r in s.reps ==> s.reps[r].dRecvd == s.reps[r].recvd)
    && (forall m :: m in s.sent ==> m.tid in dst && dst[m.tid] == m.dst)
    && (forall i, j :: 0 <= i < j < |s.sent| ==> s.sent[i].tid != s.sent[j].tid)
  }

  lemma ShapeStep(d: Discipline, s: ClusterState, op: Op, dst: map<Tid, Name>)
    requires d.recvdDurable && Shape(s, dst)
    ensures var (s', reply) := Step(d, s, op);
            Shape(s', if op.Issue? && reply == Returned(true) then dst[op.tid := op.dst] else dst)
  {
  }

  lemma {:induction false} ShapeHolds(c: Setup, tr: Trace)
    requires c.d.recvdDurable
    ensures Shape(Run(c, tr), Destinations(c, tr))
  {
    if tr.Then? {
      ShapeHolds(c, tr.prior);
      ShapeStep(c.d, Run(c, tr.prior), tr.op, Destinations(c, tr.prior));
    }
  }

  // ---- the exact ledger ----

  /** The units a call destroys: a crash loses what the durable state does not cover, a drop loses a
      transfer that nobody has credited. */
  ghost function Destroyed(s: ClusterState, op: Op): int {
    match op
    case Crash(name) =>
      if name !in s.reps then 0
      else
        var q := s.reps[name];
        (q.escrow + q.spent) - (q.dEscrow + q.dSpent)
    case Drop(idx) =>
      if !InRange(idx, |s.sent|) then 0
      else
        var t := s.sent[Position(idx, |s.sent|)].tid;
        if t in Credited(s.reps) then 0 else At(s.amtOf, t)
    case _ => 0
  }

  ghost function DestroyedOver(c: Setup, tr: Trace): int {
    match tr
    case Empty => 0
    case Then(prior, op) => DestroyedOver(c, prior) + Destroyed(Run(c, prior), op)
  }

  /** Replacing a replica without touching its dedup set moves the quantity by that replica's change. */
  lemma QuantityAfterPut(s: ClusterState, name: Name, q: ReplicaState)
    requires name in s.reps && q.recvd == s.reps[name].recvd
    ensures Quantity(s.Put(name, q)) ==
            Quantity(s) - (s.reps[name].escrow + s.reps[name].spent) + (q.escrow + q.spent)
  {
    TotalsAfterPut(s.reps, name, q);
    CreditedAfterPut(s.reps, name, q, {});
    assert Credited(s.reps) + {} == Credited(s.reps);
  }

  lemma IssueKeepsQuantity(d: Discipline, s: ClusterState, op: Op, dst: map<Tid, Name>)
    requires Shape(s, dst) && op.Issue? && Step(d, s, op).1 == Returned(true)
    ensures Quantity(Step(d, s, op).0) == Quantity(s)
  {
    var s' := Step(d, s, op).0;
    TotalsAfterPut(s.reps, op.src, s'.reps[op.src]);
    CreditedAfterPut(s.reps, op.src, s'.reps[op.src], {});
    var open := SentTids(s.sent) - Credited(s.reps);
    assert SentTids(s'.sent) == SentTids(s.sent) + {op.tid} by {
      assert Message(op.dst, op.tid) in s'.sent;
    }
    assert SentTids(s'.sent) - Credited(s'.reps) == open + {op.tid};
    SumInsert(open, s'.amtOf, op.tid);
    SumAgree(open, s.amtOf, s'.amtOf);
  }

  lemma DeliverKeepsQuantity(d: Discipline, s: ClusterState, op: Op, dst: map<Tid, Name>)
    requires Shape(s, dst) && op.Deliver? && Step(d, s, op).1 == Returned(true)
    ensures Quantity(Step(d, s, op).0) == Quantity(s)
  {
    var s' := Step(d, s, op).0;
    var m := s.sent[Position(op.idx, |s.sent|)];
    TotalsAfterPut(s.reps, m.dst, s'.reps[m.dst]);
    CreditedAfterPut(s.reps, m.dst, s'.reps[m.dst], {m.tid});
    var open := SentTids(s.sent) - Credited(s.reps);
    assert m.tid in open;
    assert SentTids(s'.sent) - Credited(s'.reps) == open - {m.tid};
    SumPick(open, s.amtOf, m.tid);
  }

  /** Ids are unique in the network, so a drop removes the one message with its id and no other. */
  lemma DropRemovesOne(d: Discipline, s: ClusterState, op: Op, dst: map<Tid, Name>)
    requires Shape(s, dst) && op.Drop? && InRange(op.idx, |s.sent|)
    ensures var gone := s.sent[Position(op.idx, |s.sent|)];
            forall m :: m in Step(d, s, op).0.sent <==> m in s.sent && m.tid != gone.tid
  {
  }

  lemma DropLosesQuantity(d: Discipline, s: ClusterState, op: Op, dst: map<Tid, Name>)
    requires Shape(s, dst) && op.Drop?
    ensures Quantity(Step(d, s, op).0) + Destroyed(s, op) == Quantity(s)
  {
    if InRange(op.idx, |s.sent|) {
      var s' := Step(d, s, op).0;
      var t := s.sent[Position(op.idx, |s.sent|)].tid;
      DropRemovesOne(d, s, op, dst);
      assert SentTids(s'.sent) == SentTids(s.sent) - {t};
      var open := SentTids(s.sent) - Credited(s.reps);
      assert SentTids(s'.sent) - Credited(s'.reps) == open - {t};
      if t in open {
        SumPick(open, s.amtOf, t);
      } else {
        assert open - {t} == open;
      }
    }
  }

  lemma LedgerStep(d: Discipline, s: ClusterState, op: Op, dst: map<Tid, Name>)
    requires d.recvdDurable && Shape(s, dst)
    ensures Quantity(Step(d, s, op).0) + Destroyed(s, op) == Quantity(s)
  {
    var (s', reply) := Step(d, s, op);
    match op
    case Charge(name, amount) =>
      if reply == Returned(true) { QuantityAfterPut(s, name, s'.reps[name]); }
    case Issue(_, _, _, _) =>
      if reply == Returned(true) { IssueKeepsQuantity(d, s, op, dst); }
    case Deliver(_) =>
      if reply == Returned(true) { DeliverKeepsQuantity(d, s, op, dst); }
    case Drop(_) => DropLosesQuantity(d, s, op, dst);
    case Persist(name) =>
      if name in s.reps { QuantityAfterPut(s, name, s'.reps[name]); }
    case Crash(name) =>
      if name in s.reps { QuantityAfterPut(s, name, s'.reps[name]); }
  }

  /** The exact destruction ledger. It needs the durable dedup set only: no sign condition on amounts
      or shares, and no write-ahead debit. */
  lemma {:induction false} Ledger(c: Setup, tr: Trace)
    requires c.d.recvdDurable
    ensures Quantity(Run(c, tr)) + DestroyedOver(c, tr) == Total(c.shares)
  {
    if tr.Empty? {
      GenesisTotals(c.shares);
    } else {
      Ledger(c, tr.prior);
      ShapeHolds(c, tr.prior);
      LedgerStep(c.d, Run(c, tr.prior), tr.op, Destinations(c, tr.prior));
    }
  }

  /** A drop leaves the quantity alone exactly when the transfer is credited already, or empty. */
  lemma DropDestroysUnless(c: Setup, tr: Trace, idx: int)
    requires c.d.recvdDurable && InRange(idx, |Run(c, tr).sent|)
    ensures var s := Run(c, tr);
            var t := s.sent[Position(idx, |s.sent|)].tid;
            Quantity(Run(c, Then(tr, Drop(idx)))) == Quantity(s) <==> t in Credited(s.reps) || At(s.amtOf, t) == 0
  {
    ShapeHolds(c, tr);
    LedgerStep(c.d, Run(c, tr), Drop(idx), Destinations(c, tr));
  }

  /** A drop that destroys: one unit issued, and its message dropped. */
  lemma DropDestroys(c: Setup, r: Name)
    requires c.d.recvdDurable && r in c.shares && c.shares[r] >= 1
    ensures Quantity(Run(c, Then(Then(Empty, Issue(r, r, 1, "t")), Drop(-1)))) == Total(c.shares) - 1
  {
    assert Run(c, Empty) == Genesis(c.shares);
    var issued := Then(Empty, Issue(r, r, 1, "t"));
    var s := Run(c, issued);
    assert s.sent == [Message(r, "t")] && At(s.amtOf, "t") == 1 && Credited(s.reps) == {};
    Ledger(c, issued);
    assert DestroyedOver(c, issued) == 0;
    ShapeHolds(c, issued);
    LedgerStep(c.d, s, Drop(-1), Destinations(c, issued));
  }

  // ---- nothing is created ----

  /** The budget half of the invariant, one replica at a time: the durable escrow is never below the
      volatile one, and the durable pair never holds more than the volatile pair. */
  ghost predicate Solvent(q: ReplicaState) {
    && 0 <= q.escrow <= q.dEscrow
    && 0 <= q.dSpent
    && q.dEscrow + q.dSpent <= q.escrow + q.spent
  }

  ghost predicate AllSolvent(s: ClusterState) {
    && (forall r :: r in s.reps ==> Solvent(s.reps[r]))
    && (forall t :: t in s.amtOf ==> s.amtOf[t] >= 0)
  }

  lemma {:induction false} SolventHolds(c: Setup, tr: Trace, cap: int)
    requires c.d.Full() && GoodGenesis(c, cap) && NonNegative(tr)
    ensures AllSolvent(Run(c, tr))
  {
    if tr.Then? {
      SolventHolds(c, tr.prior, cap);
    }
  }

  /** Every term of the ledger is non-negative, and a crash loses at most the un-persisted charges. */
  lemma DestroyedBounds(c: Setup, tr: Trace, op: Op, cap: int)
    requires c.d.Full() && GoodGenesis(c, cap) && NonNegative(tr)
    ensures var s := Run(c, tr);
            && 0 <= Destroyed(s, op)
            && (op.Crash? && op.name in s.reps ==>
                  Destroyed(s, op) <= s.reps[op.name].spent - s.reps[op.name].dSpent)
  {
    SolventHolds(c, tr, cap);
  }

  lemma {:induction false} DestroyedNonNegative(c: Setup, tr: Trace, cap: int)
    requires c.d.Full() && GoodGenesis(c, cap) && NonNegative(tr)
    ensures DestroyedOver(c, tr) >= 0
  {
    if tr.Then? {
      DestroyedNonNegative(c, tr.prior, cap);
      DestroyedBounds(c, tr.prior, tr.op, cap);
    }
  }

  lemma PartsNonNegative(s: ClusterState)
    requires AllSolvent(s)
    ensures TotalEscrow(s) >= 0 && TotalSpent(s) >= 0 && InFlight(s) >= 0
  {
    SumNonNegative(Escrows(s.reps).Keys, Escrows(s.reps));
    SumNonNegative(Spents(s.reps).Keys, Spents(s.reps));
    SumNonNegative(SentTids(s.sent) - Credited(s.reps), s.amtOf);
  }

  /** The cap theorem: on every disciplined run no escrow is negative, the whole quantity and the
      total spent stay within the cap, and so check() never fails. */
  lemma Safety(c: Setup, tr: Trace, cap: int)
    requires c.d.Full() && GoodGenesis(c, cap) && NonNegative(tr)
    ensures var s := Run(c, tr);
            && (forall r :: r in s.reps ==> s.reps[r].escrow >= 0)
            && Quantity(s) <= cap
            && TotalSpent(s) <= cap
            && CheckPasses(c.d, s, cap)
  {
    Ledger(c, tr);
    DestroyedNonNegative(c, tr, cap);
    SolventHolds(c, tr, cap);
    PartsNonNegative(Run(c, tr));
  }
}
