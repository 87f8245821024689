/**
 What a whole run of the crash/recovery cluster remembers: each transfer is credited at most once and
 never forgotten, each replica's books balance across its crashes, accepted charges are either spent
 or lost to a crash, and a crash of a replica with nothing un-persisted cannot be told from no crash.
 */
module DurableHistory {
  import opened Lists
  import opened Names
  import opened Sums
  import opened DurableModel
  import opened DurableSafety

  // ---- at-most-once credit ----

  /** This call credits transfer t. */
  predicate Credits(d: Discipline, s: ClusterState, op: Op, t: Tid) {
    && op.Deliver?
    && InRange(op.idx, |s.sent|)
    && s.sent[Position(op.idx, |s.sent|)].tid == t
    && Step(d, s, op).1 == Returned(true)
  }

  function CreditCount(c: Setup, tr: Trace, t: Tid): nat {
    match tr
    case Empty => 0
    case Then(prior, op) =>
      CreditCount(c, prior, t) + if Credits(c.d, Run(c, prior), op, t) then 1 else 0
  }

  lemma CreditedGrows(d: Discipline, s: ClusterState, op: Op, dst: map<Tid, Name>, t: Tid)
    requires d.recvdDurable && Shape(s, dst)
    ensures t in Credited(Step(d, s, op).0.reps) <==> t in Credited(s.reps) || Credits(d, s, op, t)
    ensures t in Credited(s.reps) ==> !Credits(d, s, op, t)
  {
    var s' := Step(d, s, op).0;
    if t in Credited(s.reps) {
      var r :| r in s.reps && t in s.reps[r].recvd;
      assert t in s'.reps[r].recvd;
    }
    if Credits(d, s, op, t) {
      assert t in s'.reps[s.sent[Position(op.idx, |s.sent|)].dst].recvd;
    }
    if t in Credited(s'.reps) {
      var r :| r in s'.reps && t in s'.reps[r].recvd;
      assert t in s.reps[r].recvd || Credits(d, s, op, t);
    }
  }

  /** With a durable dedup set, deliver() answers True exactly once for a transfer that has been
      credited and never for one that has not, whatever crashes and retransmissions intervene. */
  lemma {:induction false} CreditedOnce(c: Setup, tr: Trace, t: Tid)
    requires c.d.recvdDurable
    ensures CreditCount(c, tr, t) == if t in Credited(Run(c, tr).reps) then 1 else 0
  {
    if tr.Then? {
      CreditedOnce(c, tr.prior, t);
      ShapeHolds(c, tr.prior);
      CreditedGrows(c.d, Run(c, tr.prior), tr.op, Destinations(c, tr.prior), t);
    }
  }

  /** `late` extends `early`. */
  predicate Extends(early: Trace, late: Trace) {
    early == late || (late.Then? && Extends(early, late.prior))
  }

  /** A credit, once made, is never lost. */
  lemma {:induction false} CreditIsForever(c: Setup, early: Trace, late: Trace)
    requires c.d.recvdDurable && Extends(early, late)
    ensures Credited(Run(c, early).reps) <= Credited(Run(c, late).reps)
  {
    if early != late {
      CreditIsForever(c, early, late.prior);
      ShapeHolds(c, late.prior);
      forall t | t in Credited(Run(c, late.prior).reps)
        ensures t in Credited(Run(c, late).reps)
      {
        CreditedGrows(c.d, Run(c, late.prior), late.op, Destinations(c, late.prior), t);
      }
    }
  }

  // ---- a credited transfer need not have a message ----

  /** RecvdOnlyAddressed of the TLA+ specification: every credited transfer has its message. */
  predicate Addressed(s: ClusterState) {
    forall r, t :: r in s.reps && t in s.reps[r].recvd ==> Message(r, t) in s.sent
  }

  /** Some drop() in the run removed the message of a transfer that was already credited. */
  predicate DroppedCredited(c: Setup, tr: Trace) {
    match tr
    case Empty => false
    case Then(prior, op) =>
      DroppedCredited(c, prior) || DropsCredited(Run(c, prior), op)
  }

  predicate DropsCredited(s: ClusterState, op: Op) {
    && op.Drop?
    && InRange(op.idx, |s.sent|)
    && s.sent[Position(op.idx, |s.sent|)].tid in Credited(s.reps)
  }

  lemma AddressedStep(d: Discipline, s: ClusterState, op: Op, dst: map<Tid, Name>)
    requires d.recvdDurable && Shape(s, dst)
    ensures Addressed(Step(d, s, op).0) <==> Addressed(s) && !DropsCredited(s, op)
  {
  }

  /** drop() can break RecvdOnlyAddressed, which the certificate of the TLA+ specification relies on:
      the implementation keeps it exactly on the runs that never drop a credited transfer's message. */
  lemma {:induction false} AddressedIff(c: Setup, tr: Trace)
    requires c.d.recvdDurable
    ensures Addressed(Run(c, tr)) <==> !DroppedCredited(c, tr)
  {
    if tr.Then? {
      AddressedIff(c, tr.prior);
      ShapeHolds(c, tr.prior);
      AddressedStep(c.d, Run(c, tr.prior), tr.op, Destinations(c, tr.prior));
    }
  }

  /** Send a unit, deliver it, drop its message. */
  function DroppedAfterCredit(r: Name): Trace {
    Then(Then(Then(Empty, Issue(r, r, 1, "t")), Deliver(-1)), Drop(-1))
  }

  /** A run that does drop one: whatever the disciplines, the credit is left without its message. */
  lemma DropBreaksAddressed(c: Setup, r: Name)
    requires r in c.shares && c.shares[r] >= 1
    ensures !Addressed(Run(c, DroppedAfterCredit(r)))
  {
    assert Run(c, Empty) == Genesis(c.shares);
    var issued := Run(c, Then(Empty, Issue(r, r, 1, "t")));
    assert issued.sent == [Message(r, "t")];
    var delivered := Run(c, Then(Then(Empty, Issue(r, r, 1, "t")), Deliver(-1)));
    assert "t" in delivered.reps[r].recvd;
    var dropped := Run(c, DroppedAfterCredit(r));
    assert dropped.sent == [] && "t" in dropped.reps[r].recvd;
  }

  // ---- each replica's books ----

  /** The replica each issued transfer was debited from. */
  function Sources(c: Setup, tr: Trace): map<Tid, Name> {
    match tr
    case Empty => map[]
    case Then(prior, op) =>
      if op.Issue? && ReplyOf(c, prior, op) == Returned(true) then Sources(c, prior)[op.tid := op.src]
      else Sources(c, prior)
  }

  ghost function LostAt(c: Setup, tr: Trace, r: Name): int {
    match tr
    case Empty => 0
    case Then(prior, op) =>
      LostAt(c, prior, r) + if op == Op.Crash(r) then Destroyed(Run(c, prior), op) else 0
  }

  ghost function IssuedBy(c: Setup, tr: Trace, r: Name): int {
    var src := Sources(c, tr);
    Sum(OfClass(src.Keys, src, r), Run(c, tr).amtOf)
  }

  ghost function CreditedTo(s: ClusterState, r: Name): int
    requires r in s.reps
  {
    Sum(s.reps[r].recvd, s.amtOf)
  }

  /** What replica r holds, less its income, plus what it issued. */
  ghost function Balance(s: ClusterState, src: map<Tid, Name>, r: Name): int
    requires r in s.reps
  {
    s.reps[r].escrow + s.reps[r].spent - CreditedTo(s, r) + Sum(OfClass(src.Keys, src, r), s.amtOf)
  }

  lemma RosterStep(d: Discipline, s: ClusterState, op: Op, src: map<Tid, Name>)
    requires src.Keys == s.amtOf.Keys && forall t :: t in src ==> src[t] in s.reps
    ensures var (s', reply) := Step(d, s, op);
            var src' := if op.Issue? && reply == Returned(true) then src[op.tid := op.src] else src;
            && s'.reps.Keys == s.reps.Keys
            && src'.Keys == s'.amtOf.Keys && forall t :: t in src' ==> src'[t] in s'.reps
  {
  }

  lemma {:induction false} RosterAndSources(c: Setup, tr: Trace)
    ensures Run(c, tr).reps.Keys == c.shares.Keys
    ensures Sources(c, tr).Keys == Run(c, tr).amtOf.Keys
    ensures forall t :: t in Sources(c, tr) ==> Sources(c, tr)[t] in c.shares
  {
    if tr.Then? {
      RosterAndSources(c, tr.prior);
      RosterStep(c.d, Run(c, tr.prior), tr.op, Sources(c, tr.prior));
    }
  }

  lemma IssueKeepsBalance(d: Discipline, s: ClusterState, op: Op, dst: map<Tid, Name>, src: map<Tid, Name>, r: Name)
    requires Shape(s, dst) && src.Keys == s.amtOf.Keys && r in s.reps
    requires op.Issue? && Step(d, s, op).1 == Returned(true)
    ensures Balance(Step(d, s, op).0, src[op.tid := op.src], r) == Balance(s, src, r)
  {
    SumClassInsert(src, s.amtOf, op.tid, op.src, op.amount, r);
    SumAgree(s.reps[r].recvd, s.amtOf, s.amtOf[op.tid := op.amount]);
  }

  lemma DeliverKeepsBalance(d: Discipline, s: ClusterState, op: Op, src: map<Tid, Name>, r: Name)
    requires r in s.reps
    requires op.Deliver? && Step(d, s, op).1 == Returned(true)
    ensures Balance(Step(d, s, op).0, src, r) == Balance(s, src, r)
  {
    var m := s.sent[Position(op.idx, |s.sent|)];
    if m.dst == r {
      SumInsert(s.reps[r].recvd, s.amtOf, m.tid);
    }
  }

  /** A call moves a balance only by crashing that very replica, and then by what the crash destroys. */
  lemma BalanceStep(d: Discipline, s: ClusterState, op: Op, dst: map<Tid, Name>, src: map<Tid, Name>, r: Name)
    requires d.recvdDurable && Shape(s, dst) && src.Keys == s.amtOf.Keys && r in s.reps
    ensures var (s', reply) := Step(d, s, op);
            var src' := if op.Issue? && reply == Returned(true) then src[op.tid := op.src] else src;
            Balance(s', src', r) + (if op == Crash(r) then Destroyed(s, op) else 0) == Balance(s, src, r)
  {
    if Step(d, s, op).1 == Returned(true) {
      if op.Issue? {
        IssueKeepsBalance(d, s, op, dst, src, r);
      } else if op.Deliver? {
        DeliverKeepsBalance(d, s, op, src, r);
      }
    }
  }

  lemma {:induction false} BalanceHolds(c: Setup, tr: Trace, r: Name)
    requires c.d.recvdDurable && r in c.shares
    ensures r in Run(c, tr).reps
    ensures Balance(Run(c, tr), Sources(c, tr), r) + LostAt(c, tr, r) == c.shares[r]
  {
    if tr.Empty? {
      assert OfClass(Sources(c, tr).Keys, Sources(c, tr), r) == {};
    } else {
      BalanceHolds(c, tr.prior, r);
      ShapeHolds(c, tr.prior);
      RosterAndSources(c, tr.prior);
      BalanceStep(c.d, Run(c, tr.prior), tr.op, Destinations(c, tr.prior), Sources(c, tr.prior), r);
    }
  }

  /** Across every crash of every replica, a replica's escrow, spending and losses are what it started
      with, plus the transfers credited to it, minus the transfers it issued. */
  lemma ReplicaLedger(c: Setup, tr: Trace, r: Name)
    requires c.d.recvdDurable && r in c.shares
    ensures r in Run(c, tr).reps
    ensures var s := Run(c, tr);
            s.reps[r].escrow + s.reps[r].spent + LostAt(c, tr, r) ==
            c.shares[r] + CreditedTo(s, r) - IssuedBy(c, tr, r)
  {
    BalanceHolds(c, tr, r);
  }

  /** The transfers a run dropped before anyone credited them. */
  ghost function DroppedOver(c: Setup, tr: Trace): int {
    match tr
    case Empty => 0
    case Then(prior, op) =>
      DroppedOver(c, prior) + if op.Drop? then Destroyed(Run(c, prior), op) else 0
  }

  ghost function Losses(c: Setup, tr: Trace): map<Name, int> {
    map r | r in c.shares :: LostAt(c, tr, r)
  }

  lemma {:induction false} DestroyedIsLostPlusDropped(c: Setup, tr: Trace)
    ensures DestroyedOver(c, tr) == Total(Losses(c, tr)) + DroppedOver(c, tr)
  {
    if tr.Empty? {
      SumZero(Losses(c, tr).Keys, Losses(c, tr));
    } else {
      DestroyedIsLostPlusDropped(c, tr.prior);
      RosterAndSources(c, tr.prior);
      var m, m' := Losses(c, tr.prior), Losses(c, tr);
      if tr.op.Crash? && tr.op.name in c.shares {
        var r := tr.op.name;
        TotalUpdate(m, r, m'[r]);
        assert m' == m[r := m'[r]];
      } else {
        assert m' == m;
      }
    }
  }

  ghost function IssuedByEach(c: Setup, tr: Trace): map<Name, int> {
    map r | r in c.shares :: IssuedBy(c, tr, r)
  }

  lemma IssuedAddsUp(c: Setup, tr: Trace)
    ensures Total(IssuedByEach(c, tr)) ==
            Sum(Run(c, tr).amtOf.Keys, Run(c, tr).amtOf)
  {
    var src, amtOf := Sources(c, tr), Run(c, tr).amtOf;
    RosterAndSources(c, tr);
    assert IssuedByEach(c, tr).Keys == c.shares.Keys;
    SumByClass(c.shares.Keys, src.Keys, src, amtOf, IssuedByEach(c, tr));
    assert InClasses(src.Keys, src, c.shares.Keys) == amtOf.Keys;
  }

  ghost function CreditedToEach(s: ClusterState): map<Name, int> {
    map r | r in s.reps :: CreditedTo(s, r)
  }

  /** The credited transfers sent to r are those in its dedup set. */
  lemma CreditedAt(s: ClusterState, dst: map<Tid, Name>, r: Name)
    requires Shape(s, dst) && r in s.reps
    ensures OfClass(Credited(s.reps), dst, r) == s.reps[r].recvd
  {
    forall t
      ensures t in OfClass(Credited(s.reps), dst, r) <==> t in s.reps[r].recvd
    {
    }
  }

  /** Every credited transfer was sent to some replica of the roster. */
  lemma CreditedSomewhere(s: ClusterState, dst: map<Tid, Name>)
    requires Shape(s, dst)
    ensures InClasses(Credited(s.reps), dst, s.reps.Keys) == Credited(s.reps)
  {
    forall t | t in Credited(s.reps)
      ensures t in InClasses(Credited(s.reps), dst, s.reps.Keys)
    {
      var r :| r in s.reps && t in s.reps[r].recvd;
      assert dst[t] == r;
    }
  }

  lemma CreditedAddsUp(s: ClusterState, dst: map<Tid, Name>)
    requires Shape(s, dst)
    ensures Total(CreditedToEach(s)) == Sum(Credited(s.reps), s.amtOf)
  {
    forall r | r in s.reps.Keys
      ensures At(CreditedToEach(s), r) == Sum(OfClass(Credited(s.reps), dst, r), s.amtOf)
    {
      CreditedAt(s, dst, r);
    }
    SumByClass(s.reps.Keys, Credited(s.reps), dst, s.amtOf, CreditedToEach(s));
    CreditedSomewhere(s, dst);
    assert CreditedToEach(s).Keys == s.reps.Keys;
  }

  lemma ReplicaBooks(c: Setup, tr: Trace, r: Name)
    requires c.d.recvdDurable && r in c.shares
    ensures var s := Run(c, tr);
            At(Escrows(s.reps), r) + At(Spents(s.reps), r) + At(Losses(c, tr), r) ==
            At(c.shares, r) + At(CreditedToEach(s), r) - At(IssuedByEach(c, tr), r)
  {
    ReplicaLedger(c, tr, r);
  }

  /** Adding the replicas' books up, each transfer is issued once and credited at most once. */
  lemma BooksAddUp(c: Setup, tr: Trace)
    requires c.d.recvdDurable
    ensures var s := Run(c, tr);
            TotalEscrow(s) + TotalSpent(s) + Total(Losses(c, tr)) ==
            Total(c.shares) + Sum(Credited(s.reps), s.amtOf) - Sum(s.amtOf.Keys, s.amtOf)
  {
    var s, R := Run(c, tr), c.shares.Keys;
    RosterAndSources(c, tr);
    ShapeHolds(c, tr);
    IssuedAddsUp(c, tr);
    CreditedAddsUp(s, Destinations(c, tr));
    assert Escrows(s.reps).Keys == Spents(s.reps).Keys == R;
    assert Losses(c, tr).Keys == CreditedToEach(s).Keys == IssuedByEach(c, tr).Keys == R;
    forall r | r in R
      ensures At(Escrows(s.reps), r) + At(Spents(s.reps), r) + At(Losses(c, tr), r) ==
              At(c.shares, r) + At(CreditedToEach(s), r) - At(IssuedByEach(c, tr), r)
    {
      ReplicaBooks(c, tr, r);
    }
    SumBalance(R, Escrows(s.reps), Spents(s.reps), Losses(c, tr),
               c.shares, CreditedToEach(s), IssuedByEach(c, tr));
  }

  /** The replica ledgers recover the global one: every unit issued and never credited is either in a
      message still in the network or was dropped. */
  lemma UncreditedUnits(c: Setup, tr: Trace)
    requires c.d.recvdDurable
    ensures var s := Run(c, tr);
            InFlight(s) + DroppedOver(c, tr) == Sum(s.amtOf.Keys - Credited(s.reps), s.amtOf)
  {
    var s := Run(c, tr);
    Ledger(c, tr);
    DestroyedIsLostPlusDropped(c, tr);
    BooksAddUp(c, tr);
    ShapeHolds(c, tr);
    var credited := Credited(s.reps);
    assert credited <= s.amtOf.Keys;
    SumDisjoint(credited, s.amtOf.Keys - credited, s.amtOf);
    assert credited + (s.amtOf.Keys - credited) == s.amtOf.Keys;
  }

  // ---- accepted charges ----

  /** The amount this call charges, if it is accepted. */
  function AcceptedNow(d: Discipline, s: ClusterState, op: Op): int {
    if op.Charge? && Step(d, s, op).1 == Returned(true) then op.amount else 0
  }

  /** The spending this call undoes. */
  function LostNow(s: ClusterState, op: Op): int {
    if op.Crash? && op.name in s.reps then s.reps[op.name].spent - s.reps[op.name].dSpent else 0
  }

  function AcceptedCharges(c: Setup, tr: Trace): int {
    match tr
    case Empty => 0
    case Then(prior, op) => AcceptedCharges(c, prior) + AcceptedNow(c.d, Run(c, prior), op)
  }

  function LostCharges(c: Setup, tr: Trace): int {
    match tr
    case Empty => 0
    case Then(prior, op) => LostCharges(c, prior) + LostNow(Run(c, prior), op)
  }

  lemma SpentStep(d: Discipline, s: ClusterState, op: Op)
    ensures TotalSpent(Step(d, s, op).0) == TotalSpent(s) + AcceptedNow(d, s, op) - LostNow(s, op)
  {
    var (s', reply) := Step(d, s, op);
    if reply == Returned(true) {
      var name := match op
        case Charge(n, _) => n
        case Issue(n, _, _, _) => n
        case Deliver(i) => s.sent[Position(i, |s.sent|)].dst;
      TotalsAfterPut(s.reps, name, s'.reps[name]);
    } else if reply == Done {
      TotalsAfterPut(s.reps, op.name, s'.reps[op.name]);
    }
  }

  /** Whatever the disciplines, an accepted charge is either still counted as spent or was undone by a
      crash. */
  lemma {:induction false} AcceptedChargesAccounted(c: Setup, tr: Trace)
    ensures AcceptedCharges(c, tr) == TotalSpent(Run(c, tr)) + LostCharges(c, tr)
  {
    if tr.Empty? {
      GenesisTotals(c.shares);
    } else {
      AcceptedChargesAccounted(c, tr.prior);
      SpentStep(c.d, Run(c, tr.prior), tr.op);
    }
  }

  // ---- the cap and the charges accepted ----

  /** The escrow a crash gives back: charged since the durable copy was written, and charged for nothing. */
  function RestoredNow(s: ClusterState, op: Op): int {
    if op.Crash? && op.name in s.reps then s.reps[op.name].dEscrow - s.reps[op.name].escrow else 0
  }

  function Restored(c: Setup, tr: Trace): int {
    match tr
    case Empty => 0
    case Then(prior, op) => Restored(c, prior) + RestoredNow(Run(c, prior), op)
  }

  /** Every crash in the run finds its replica's escrow equal to the durable copy. */
  predicate NoCrashRestores(c: Setup, tr: Trace) {
    tr.Then? ==> NoCrashRestores(c, tr.prior) && RestoredNow(Run(c, tr.prior), tr.op) == 0
  }

  /** What a crash destroys is the spending it undoes less the escrow it gives back. */
  lemma {:induction false} DestroyedSplits(c: Setup, tr: Trace)
    ensures DestroyedOver(c, tr) + Restored(c, tr) == LostCharges(c, tr) + DroppedOver(c, tr)
  {
    if tr.Then? {
      DestroyedSplits(c, tr.prior);
    }
  }

  /** The units a run has granted to its callers or may still grant without creating any: accepted
      charges, escrow and transfers in the network, with the transfers lost on the way. */
  ghost function Claims(c: Setup, tr: Trace): int {
    AcceptedCharges(c, tr) + TotalEscrow(Run(c, tr)) + InFlight(Run(c, tr)) + DroppedOver(c, tr)
  }

  /** The claims exceed the budget by exactly what crashes gave back. */
  lemma ClaimsLedger(c: Setup, tr: Trace)
    requires c.d.recvdDurable
    ensures Claims(c, tr) == Total(c.shares) + Restored(c, tr)
  {
    Ledger(c, tr);
    AcceptedChargesAccounted(c, tr);
    DestroyedSplits(c, tr);
  }

  lemma {:induction false} RestoredIsPositive(c: Setup, tr: Trace, cap: int)
    requires c.d.Full() && GoodGenesis(c, cap) && NonNegative(tr)
    ensures Restored(c, tr) >= 0
    ensures Restored(c, tr) == 0 <==> NoCrashRestores(c, tr)
  {
    if tr.Then? {
      RestoredIsPositive(c, tr.prior, cap);
      SolventHolds(c, tr.prior, cap);
    }
  }

  /** On a disciplined run the claims stay within the cap if and only if no crash gives escrow back. */
  lemma ClaimsWithinCapIff(c: Setup, tr: Trace, cap: int)
    requires c.d.Full() && GoodGenesis(c, cap) && NonNegative(tr)
    ensures Claims(c, tr) <= cap <==> NoCrashRestores(c, tr)
  {
    ClaimsLedger(c, tr);
    RestoredIsPositive(c, tr, cap);
  }

  /** The accepted charges stay within the cap if and only if what crashes gave back has not been spent:
      it is no more than the escrow, the transfers in the network and the dropped ones together. */
  lemma AcceptedWithinCapIff(c: Setup, tr: Trace, cap: int)
    requires c.d.recvdDurable && Total(c.shares) == cap
    ensures var s := Run(c, tr);
            AcceptedCharges(c, tr) <= cap <==> Restored(c, tr) <= TotalEscrow(s) + InFlight(s) + DroppedOver(c, tr)
  {
    ClaimsLedger(c, tr);
  }

  lemma {:induction false} DroppedNonNegative(c: Setup, tr: Trace, cap: int)
    requires c.d.Full() && GoodGenesis(c, cap) && NonNegative(tr)
    ensures DroppedOver(c, tr) >= 0
  {
    if tr.Then? {
      DroppedNonNegative(c, tr.prior, cap);
      DestroyedBounds(c, tr.prior, tr.op, cap);
    }
  }

  /** If no crash gives escrow back, the accepted charges stay within the cap. */
  lemma UnrestoredAcceptedWithinCap(c: Setup, tr: Trace, cap: int)
    requires c.d.Full() && GoodGenesis(c, cap) && NonNegative(tr) && NoCrashRestores(c, tr)
    ensures AcceptedCharges(c, tr) <= cap
  {
    ClaimsWithinCapIff(c, tr, cap);
    DroppedNonNegative(c, tr, cap);
    SolventHolds(c, tr, cap);
    PartsNonNegative(Run(c, tr));
  }

  // ---- crash transparency ----

  /** Every crash in the run hits a replica with no un-persisted charge. */
  predicate QuietCrashes(c: Setup, tr: Trace) {
    match tr
    case Empty => true
    case Then(prior, op) =>
      var s := Run(c, prior);
      && QuietCrashes(c, prior)
      && (op.Crash? && op.name in s.reps ==> s.reps[op.name].spent == s.reps[op.name].dSpent)
  }

  lemma {:induction false} QuietRestoresNothing(c: Setup, tr: Trace, cap: int)
    requires c.d.Full() && GoodGenesis(c, cap) && NonNegative(tr) && QuietCrashes(c, tr)
    ensures NoCrashRestores(c, tr)
  {
    if tr.Then? {
      QuietRestoresNothing(c, tr.prior, cap);
      SolventHolds(c, tr.prior, cap);
    }
  }

  /** In particular, if all charges are persisted before their replica crashes. */
  lemma QuietAcceptedWithinCap(c: Setup, tr: Trace, cap: int)
    requires c.d.Full() && GoodGenesis(c, cap) && NonNegative(tr) && QuietCrashes(c, tr)
    ensures AcceptedCharges(c, tr) <= cap
  {
    QuietRestoresNothing(c, tr, cap);
    UnrestoredAcceptedWithinCap(c, tr, cap);
  }

  /** Charge a unit, send one from the rest, crash. */
  function ChargedThenSent(r: Name): Trace {
    Then(Then(Then(Empty, Charge(r, 1)), Issue(r, r, 1, "t")), Crash(r))
  }

  /** Persisting is not necessary: the crash of this run undoes a charge and gives nothing back, since the
      write-ahead of the send has made the charge's debit durable. */
  lemma NoisyCrashMayRestoreNothing(c: Setup, r: Name)
    requires c.d.Full() && r in c.shares && c.shares[r] >= 2
    ensures NoCrashRestores(c, ChargedThenSent(r)) && !QuietCrashes(c, ChargedThenSent(r))
  {
    assert Run(c, Empty) == Genesis(c.shares);
    var charged := Then(Empty, Charge(r, 1));
    var q := Run(c, charged).reps[r];
    assert q.escrow == c.shares[r] - 1 && q.spent == 1 && q.dSpent == 0;
    var sent := Then(charged, Issue(r, r, 1, "t"));
    assert Run(c, sent).reps[r] == q.DebitForSend(c.d, 1);
    assert NoCrashRestores(c, charged);
    assert NoCrashRestores(c, sent);
  }

  /** In a reachable disciplined state a crash changes nothing exactly when no charge is un-persisted. */
  lemma CrashChangesNothingIff(c: Setup, tr: Trace, name: Name, cap: int)
    requires c.d.Full() && GoodGenesis(c, cap) && NonNegative(tr)
    requires name in Run(c, tr).reps
    ensures var s := Run(c, tr);
            Step(c.d, s, Crash(name)).0 == s <==> s.reps[name].spent == s.reps[name].dSpent
  {
    var s := Run(c, tr);
    SolventHolds(c, tr, cap);
    ShapeHolds(c, tr);
    if s.reps[name].spent == s.reps[name].dSpent {
      assert s.reps[name := s.reps[name].Crash(c.d)] == s.reps;
    } else {
      assert Step(c.d, s, Crash(name)).0.reps[name] != s.reps[name];
    }
  }

  /** Calls that leave a persisted replica covered: all but its own charges, and its own sends when they
      are not written ahead. */
  predicate KeepsCovered(d: Discipline, op: Op, name: Name) {
    && !(op.Charge? && op.name == name)
    && (op.Issue? && op.src == name ==> d.debitDurableBeforeSend)
  }

  /** `late` is a persist of this replica after `tr`, and then only calls that keep it covered. */
  predicate CoveredSince(d: Discipline, tr: Trace, late: Trace, name: Name) {
    || late == Then(tr, Persist(name))
    || (late.Then? && CoveredSince(d, tr, late.prior, name) && KeepsCovered(d, late.op, name))
  }

  lemma {:induction false} StaysCovered(c: Setup, tr: Trace, late: Trace, name: Name)
    requires c.d.recvdDurable && CoveredSince(c.d, tr, late, name) && name in Run(c, late).reps
    ensures Run(c, late).reps[name].Crash(c.d) == Run(c, late).reps[name]
  {
    if late != Then(tr, Persist(name)) {
      StaysCovered(c, tr, late.prior, name);
    }
  }

  /** persist() covers a replica completely, and until its next charge: whatever other calls come between,
      deliveries and sends of its own included, a crash changes nothing. */
  lemma {:induction false} PersistThenCrash(c: Setup, tr: Trace, late: Trace, name: Name)
    requires c.d.recvdDurable && CoveredSince(c.d, tr, late, name)
    ensures Run(c, Then(late, Crash(name))) == Run(c, late)
    ensures var persisted := Run(c, Then(tr, Persist(name)));
            forall r :: r in Run(c, tr).reps ==>
              && r in persisted.reps
              && persisted.reps[r].escrow == Run(c, tr).reps[r].escrow
              && persisted.reps[r].spent == Run(c, tr).reps[r].spent
              && persisted.reps[r].recvd == Run(c, tr).reps[r].recvd
  {
    var s := Run(c, late);
    if name in s.reps {
      StaysCovered(c, tr, late, name);
      assert s.reps[name := s.reps[name].Crash(c.d)] == s.reps;
    }
  }

  function EraseCrashes(tr: Trace): Trace {
    match tr
    case Empty => Empty
    case Then(prior, op) => if op.Crash? then EraseCrashes(prior) else Then(EraseCrashes(prior), op)
  }

  /** The replies to all calls but the crashes, oldest first. */
  function Replies(c: Setup, tr: Trace): seq<Reply> {
    match tr
    case Empty => []
    case Then(prior, op) =>
      if op.Crash? then Replies(c, prior) else Replies(c, prior) + [ReplyOf(c, prior, op)]
  }

  /** A run whose crashes are all quiet ends in the same state, with the same replies, as the run with
      those crashes erased. */
  lemma {:induction false} QuietCrashesAreInvisible(c: Setup, tr: Trace, cap: int)
    requires c.d.Full() && GoodGenesis(c, cap) && NonNegative(tr) && QuietCrashes(c, tr)
    ensures Run(c, tr) == Run(c, EraseCrashes(tr))
    ensures Replies(c, tr) == Replies(c, EraseCrashes(tr))
  {
    if tr.Then? {
      QuietCrashesAreInvisible(c, tr.prior, cap);
      if tr.op.Crash? && tr.op.name in Run(c, tr.prior).reps {
        CrashChangesNothingIff(c, tr.prior, tr.op.name, cap);
      }
    }
  }
}
