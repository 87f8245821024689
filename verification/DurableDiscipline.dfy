/**
 Both disciplines are exactly what the cap needs. With both, every run is safe (DurableSafety); with
 either one missing, and any budget at all, some run spends as much as one likes. So the statement that
 check() makes of every configuration, that the total spent is within the cap, holds of the disciplined
 configuration alone, or when there is nothing to spend. What check() says of the quantity it says of the
 disciplined configuration only, and creation elsewhere passes unseen. And even under both disciplines the
 cap bounds the spending that is remembered, not the charges that were accepted.
 */
module DurableDiscipline {
  import opened Lists
  import opened Names
  import opened Sums
  import opened DurableModel
  import opened DurableSafety
  import opened DurableHistory

  /** Replica r stands ready: nothing un-persisted, nothing spent anywhere, and this much escrow. */
  ghost predicate Ready(s: ClusterState, r: Name, escrow: int) {
    && r in s.reps
    && s.reps[r].escrow == s.reps[r].dEscrow == escrow
    && (forall q :: q in s.reps ==> s.reps[q].spent == s.reps[q].dSpent == 0)
  }

  /** The n-th transfer id of the runs below. */
  function FreshTid(n: nat): Tid {
    seq(n, _ => 't')
  }

  // ---- lazy debit: a sender's crash takes back a debit whose message is already out ----

  /** Issue one unit from r to itself, crash before the debit is durable, and deliver. */
  function LazyRounds(r: Name, n: nat): Trace {
    if n == 0 then Empty
    else Then(Then(Then(LazyRounds(r, n - 1), Issue(r, r, 1, FreshTid(n - 1))), Crash(r)), Deliver(-1))
  }

  lemma LazyRound(c: Setup, tr: Trace, r: Name, n: nat, escrow: int)
    requires !c.d.debitDurableBeforeSend && escrow >= 1
    requires var s := Run(c, tr);
             Ready(s, r, escrow) && s.reps[r].recvd + s.reps[r].dRecvd <= s.amtOf.Keys
    requires forall t :: t in Run(c, tr).amtOf ==> |t| < n
    ensures var s := Run(c, Then(Then(Then(tr, Issue(r, r, 1, FreshTid(n))), Crash(r)), Deliver(-1)));
            && Ready(s, r, escrow + 1) && s.reps[r].recvd + s.reps[r].dRecvd <= s.amtOf.Keys
            && (forall t :: t in s.amtOf ==> |t| < n + 1)
  {
    var tid := FreshTid(n);
    assert |tid| == n;
    var issued := Run(c, Then(tr, Issue(r, r, 1, tid)));
    assert issued.reps[r].escrow == escrow - 1 && issued.reps[r].dEscrow == escrow;
    var crashed := Run(c, Then(Then(tr, Issue(r, r, 1, tid)), Crash(r)));
    assert crashed.sent[|crashed.sent| - 1] == Message(r, tid) && tid !in crashed.reps[r].recvd;
  }

  lemma {:induction false} LazyRoundsCreate(c: Setup, r: Name, n: nat)
    requires !c.d.debitDurableBeforeSend && r in c.shares && c.shares[r] >= 1
    ensures NonNegative(LazyRounds(r, n))
    ensures var s := Run(c, LazyRounds(r, n));
            && Ready(s, r, c.shares[r] + n) && s.reps[r].recvd + s.reps[r].dRecvd <= s.amtOf.Keys
            && (forall t :: t in s.amtOf ==> |t| < n)
  {
    if n > 0 {
      LazyRoundsCreate(c, r, n - 1);
      LazyRound(c, LazyRounds(r, n - 1), r, n - 1, c.shares[r] + n - 1);
    }
  }

  // ---- volatile dedup: a receiver's crash forgets the credit it made durable ----

  /** Send one unit from r to itself, then deliver it again after each of n crashes. */
  function ForgetfulRounds(r: Name, n: nat): Trace {
    if n == 0 then Then(Then(Empty, Issue(r, r, 1, "t")), Deliver(-1))
    else Then(Then(ForgetfulRounds(r, n - 1), Crash(r)), Deliver(-1))
  }

  lemma {:induction false} ForgetfulRoundsCreate(c: Setup, r: Name, n: nat)
    requires !c.d.recvdDurable && r in c.shares && c.shares[r] >= 1
    ensures NonNegative(ForgetfulRounds(r, n))
    ensures var s := Run(c, ForgetfulRounds(r, n));
            Ready(s, r, c.shares[r] + n) && s.sent == [Message(r, "t")] && s.amtOf == map["t" := 1]
  {
    if n == 0 {
      assert Run(c, Empty) == Genesis(c.shares);
      var issued := Run(c, Then(Empty, Issue(r, r, 1, "t")));
      assert Run(c, ForgetfulRounds(r, 0)) == Step(c.d, issued, Deliver(-1)).0;
      assert issued.sent == [Message(r, "t")] && issued.amtOf == map["t" := 1];
    } else {
      ForgetfulRoundsCreate(c, r, n - 1);
      var crashed := Run(c, Then(ForgetfulRounds(r, n - 1), Crash(r)));
      assert crashed.reps[r].recvd == {};
    }
  }

  // ---- the characterisation ----

  lemma SpendAll(c: Setup, tr: Trace, r: Name, escrow: nat)
    requires Ready(Run(c, tr), r, escrow)
    ensures TotalSpent(Run(c, Then(tr, Charge(r, escrow)))) >= escrow
  {
    var s := Run(c, Then(tr, Charge(r, escrow)));
    SumAtLeast(Spents(s.reps).Keys, Spents(s.reps), r);
  }

  /** Without one of the disciplines, the spending has no bound at all. */
  lemma UndisciplinedSpending(c: Setup, cap: int, n: nat) returns (tr: Trace)
    requires !c.d.Full() && GoodGenesis(c, cap) && cap >= 1
    ensures NonNegative(tr) && TotalSpent(Run(c, tr)) >= n
  {
    var r := PositiveEntry(c.shares.Keys, c.shares);
    if !c.d.debitDurableBeforeSend {
      LazyRoundsCreate(c, r, n);
      tr := LazyRounds(r, n);
    } else {
      ForgetfulRoundsCreate(c, r, n);
      tr := ForgetfulRounds(r, n);
    }
    SpendAll(c, tr, r, c.shares[r] + n);
    tr := Then(tr, Charge(r, c.shares[r] + n));
  }

  ghost predicate SomeRunSpends(c: Setup, n: nat) {
    exists tr :: NonNegative(tr) && TotalSpent(Run(c, tr)) >= n
  }

  /** No balance and no transfer holds anything. */
  ghost predicate Penniless(s: ClusterState) {
    && (forall r :: r in s.reps ==>
          s.reps[r].escrow == s.reps[r].spent == s.reps[r].dEscrow == s.reps[r].dSpent == 0)
    && (forall t :: t in s.amtOf ==> s.amtOf[t] == 0)
  }

  lemma PennilessStep(d: Discipline, s: ClusterState, op: Op)
    requires Penniless(s) && NonNegativeOp(op)
    ensures Penniless(Step(d, s, op).0)
  {
  }

  lemma {:induction false} NothingToSpend(c: Setup, tr: Trace)
    requires GoodGenesis(c, 0) && NonNegative(tr)
    ensures Penniless(Run(c, tr))
  {
    if tr.Empty? {
      forall r | r in c.shares
        ensures c.shares[r] == 0
      {
        SumAtLeast(c.shares.Keys, c.shares, r);
      }
    } else {
      NothingToSpend(c, tr.prior);
      PennilessStep(c.d, Run(c, tr.prior), tr.op);
    }
  }

  /** The cap holds on all runs if and only if both disciplines are on, or there is nothing to spend; and
      otherwise no bound holds at all. */
  lemma DisciplineIsExactlyNeeded(c: Setup, cap: int)
    requires GoodGenesis(c, cap)
    ensures (forall tr :: NonNegative(tr) ==> TotalSpent(Run(c, tr)) <= cap) <==> c.d.Full() || cap == 0
    ensures c.d.Full() || cap == 0 || forall n: nat :: SomeRunSpends(c, n)
  {
    SumNonNegative(c.shares.Keys, c.shares);
    if c.d.Full() || cap == 0 {
      forall tr | NonNegative(tr)
        ensures TotalSpent(Run(c, tr)) <= cap
      {
        if c.d.Full() {
          Safety(c, tr, cap);
        } else {
          NothingToSpend(c, tr);
          SumZero(Spents(Run(c, tr).reps).Keys, Spents(Run(c, tr).reps));
        }
      }
    } else {
      forall n: nat
        ensures SomeRunSpends(c, n)
      {
        var tr := UndisciplinedSpending(c, cap, n);
      }
      var tr := UndisciplinedSpending(c, cap, cap + 1);
    }
  }

  // ---- what each discipline buys, call by call ----

  /** In every state: after an accepted issue and a crash of its source, the message is out, and the debit
      has survived if and only if it was written ahead. */
  lemma IssueThenCrash(d: Discipline, s: ClusterState, src: Name, dst: Name, amount: int, tid: Tid)
    requires Step(d, s, Issue(src, dst, amount, tid)).1 == Returned(true)
    ensures var crashed := Step(d, Step(d, s, Issue(src, dst, amount, tid)).0, Crash(src)).0;
            && crashed.sent == s.sent + [Message(dst, tid)]
            && src in s.reps && src in crashed.reps
            && crashed.reps[src].escrow ==
               if d.debitDurableBeforeSend then s.reps[src].escrow - amount else s.reps[src].dEscrow
  {
  }

  /** In every state: after a message is credited and its destination crashes, the credit has survived, and
      the same message is credited again if and only if the dedup set was not durable. */
  lemma CreditThenCrash(d: Discipline, s: ClusterState, idx: int, i: int)
    requires Indexes(idx, i, |s.sent|) && Step(d, s, Deliver(idx)).1 == Returned(true)
    ensures var m := s.sent[i];
            var crashed := Step(d, Step(d, s, Deliver(idx)).0, Crash(m.dst)).0;
            && m.dst in s.reps && m.dst in crashed.reps && m.tid in s.amtOf
            && crashed.reps[m.dst].escrow == s.reps[m.dst].escrow + s.amtOf[m.tid]
            && Step(d, crashed, Deliver(idx)).1 == Returned(!d.recvdDurable)
  {
    PositionIndexes(idx, |s.sent|);
  }

  // ---- check() sees no creation on an undisciplined cluster ----

  ghost predicate NothingNegative(s: ClusterState) {
    && (forall r :: r in s.reps ==> s.reps[r].escrow >= 0 && s.reps[r].dEscrow >= 0)
    && (forall t :: t in s.amtOf ==> s.amtOf[t] >= 0)
  }

  /** No charges, so nothing spent. */
  predicate Unspent(s: ClusterState) {
    forall r :: r in s.reps ==> s.reps[r].spent == s.reps[r].dSpent == 0
  }

  predicate ChargeFree(tr: Trace) {
    tr.Then? ==> ChargeFree(tr.prior) && !tr.op.Charge?
  }

  lemma ChargeFreeStep(d: Discipline, s: ClusterState, op: Op)
    requires NothingNegative(s) && Unspent(s) && NonNegativeOp(op) && !op.Charge?
    ensures NothingNegative(Step(d, s, op).0) && Unspent(Step(d, s, op).0)
  {
  }

  /** Whatever such a run creates, check() passes after every call of it. */
  lemma {:induction false} ChargeFreePasses(c: Setup, tr: Trace, cap: int)
    requires !c.d.Full() && GoodGenesis(c, cap) && NonNegative(tr) && ChargeFree(tr)
    ensures NothingNegative(Run(c, tr)) && Unspent(Run(c, tr))
    ensures PassesThroughout(c, tr, cap)
  {
    if tr.Then? {
      ChargeFreePasses(c, tr.prior, cap);
      ChargeFreeStep(c.d, Run(c, tr.prior), tr.op);
    }
    SumZero(Spents(Run(c, tr).reps).Keys, Spents(Run(c, tr).reps));
    SumNonNegative(c.shares.Keys, c.shares);
  }

  lemma {:induction false} RoundsChargeFree(r: Name, n: nat)
    ensures ChargeFree(LazyRounds(r, n)) && ChargeFree(ForgetfulRounds(r, n))
  {
    if n > 0 {
      RoundsChargeFree(r, n - 1);
    }
  }

  /** The quantity is at least what one replica holds. */
  lemma QuantityAtLeast(s: ClusterState, r: Name)
    requires NothingNegative(s) && Unspent(s) && r in s.reps
    ensures Quantity(s) >= s.reps[r].escrow
  {
    SumZero(Spents(s.reps).Keys, Spents(s.reps));
    SumAtLeast(Escrows(s.reps).Keys, Escrows(s.reps), r);
    SumNonNegative(SentTids(s.sent) - Credited(s.reps), s.amtOf);
  }

  ghost predicate CreatesUnseen(c: Setup, cap: int, n: int) {
    exists tr :: NonNegative(tr) && Quantity(Run(c, tr)) > n && PassesThroughout(c, tr, cap)
  }

  /** With a discipline missing and any budget at all, a run can create any amount while check() passes
      after every call: it makes no claim on the quantity there. Otherwise none creates anything. */
  lemma CreationUnseenIff(c: Setup, cap: int)
    requires GoodGenesis(c, cap)
    ensures CreatesUnseen(c, cap, cap) <==> !c.d.Full() && cap >= 1
    ensures !c.d.Full() && cap >= 1 ==> forall n: nat :: CreatesUnseen(c, cap, n)
  {
    SumNonNegative(c.shares.Keys, c.shares);
    if !c.d.Full() && cap >= 1 {
      forall n: nat
        ensures CreatesUnseen(c, cap, n)
      {
        CreatesAny(c, cap, n);
      }
    } else {
      forall tr | NonNegative(tr)
        ensures !(Quantity(Run(c, tr)) > cap && PassesThroughout(c, tr, cap))
      {
        if !c.d.Full() {
          PennilessQuantity(c, tr);
        }
      }
    }
  }

  lemma CreatesAny(c: Setup, cap: int, n: nat)
    requires !c.d.Full() && GoodGenesis(c, cap) && cap >= 1
    ensures CreatesUnseen(c, cap, n)
  {
    var r := PositiveEntry(c.shares.Keys, c.shares);
    RoundsChargeFree(r, n);
    var tr;
    if !c.d.debitDurableBeforeSend {
      LazyRoundsCreate(c, r, n);
      tr := LazyRounds(r, n);
    } else {
      ForgetfulRoundsCreate(c, r, n);
      tr := ForgetfulRounds(r, n);
    }
    ChargeFreePasses(c, tr, cap);
    QuantityAtLeast(Run(c, tr), r);
  }

  lemma PennilessQuantity(c: Setup, tr: Trace)
    requires GoodGenesis(c, 0) && NonNegative(tr)
    ensures Quantity(Run(c, tr)) == 0
  {
    var s := Run(c, tr);
    NothingToSpend(c, tr);
    SumZero(Spents(s.reps).Keys, Spents(s.reps));
    SumZero(Escrows(s.reps).Keys, Escrows(s.reps));
    SumZero(SentTids(s.sent) - Credited(s.reps), s.amtOf);
  }

  // ---- the cap does not bound the charges accepted ----

  function ForgottenCharges(r: Name, n: nat): Trace {
    if n == 0 then Empty else Then(Then(ForgottenCharges(r, n - 1), Charge(r, 1)), Crash(r))
  }

  /** check() passes after every call of the run. */
  ghost predicate PassesThroughout(c: Setup, tr: Trace, cap: int) {
    CheckPasses(c.d, Run(c, tr), cap) && (tr.Then? ==> PassesThroughout(c, tr.prior, cap))
  }

  lemma {:induction false} SafeThroughout(c: Setup, tr: Trace, cap: int)
    requires c.d.Full() && GoodGenesis(c, cap) && NonNegative(tr)
    ensures PassesThroughout(c, tr, cap)
  {
    Safety(c, tr, cap);
    if tr.Then? {
      SafeThroughout(c, tr.prior, cap);
    }
  }

  lemma {:induction false} ForgottenChargesAccepted(c: Setup, r: Name, n: nat)
    requires r in c.shares && c.shares[r] >= 1
    ensures NonNegative(ForgottenCharges(r, n))
    ensures Ready(Run(c, ForgottenCharges(r, n)), r, c.shares[r])
    ensures AcceptedCharges(c, ForgottenCharges(r, n)) == n
  {
    if n > 0 {
      ForgottenChargesAccepted(c, r, n - 1);
    }
  }

  /** Under full discipline, and with check() passing after every call, the charges accepted over a run
      can still exceed any number: a crash may forget a charge after its caller was told yes. */
  lemma AcceptedChargesUnbounded(c: Setup, cap: int, n: nat)
    requires c.d.Full() && GoodGenesis(c, cap) && cap >= 1
    ensures exists tr :: NonNegative(tr) && AcceptedCharges(c, tr) >= n && PassesThroughout(c, tr, cap)
  {
    var r := PositiveEntry(c.shares.Keys, c.shares);
    ForgottenChargesAccepted(c, r, n);
    SafeThroughout(c, ForgottenCharges(r, n), cap);
  }
}
