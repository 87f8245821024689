/**
 The recovery ledger of impl/recovery.py: authority that is lost goes to `stranded` and can be reclaimed,
 and a charge may be allowed to overdraw. Every run obeys one equation, overdrafts included, which says
 exactly when the cap is breached.
 */
module Recovery {
  import opened Names
  import opened Sums

  datatype LedgerState = LedgerState(escrow: map<Name, int>, spent: map<Name, int>, stranded: int)

  datatype Op =
    | Charge(r: Name, a: int, allowOverspend: bool)
    | Lose(r: Name, a: int)
    | Reclaim(r: Name, a: int, safe: bool)

  datatype Reply = Returned(ok: bool) | Raised

  function Step(s: LedgerState, op: Op): (LedgerState, Reply) {
    match op
    case Charge(r, a, allowOverspend) =>
      if r !in s.escrow || r !in s.spent then (s, Raised)
      else if allowOverspend || a <= s.escrow[r] then
        (s.(escrow := s.escrow[r := s.escrow[r] - a], spent := s.spent[r := s.spent[r] + a]), Returned(true))
      else (s, Returned(false))
    case Lose(r, a) =>
      if r !in s.escrow then (s, Raised)
      else if a <= s.escrow[r] then
        (s.(escrow := s.escrow[r := s.escrow[r] - a], stranded := s.stranded + a), Returned(true))
      else (s, Returned(false))
    case Reclaim(r, a, safe) =>
      if safe && a > s.stranded then (s, Returned(false))
      else if r !in s.escrow then (s, Raised)
      else
        (s.(escrow := s.escrow[r := s.escrow[r] + a], stranded := if safe then s.stranded - a else s.stranded),
         Returned(true))
  }

  datatype Trace = Empty | Then(prior: Trace, op: Op)

  function Run(shares: map<Name, int>, tr: Trace): LedgerState {
    match tr
    case Empty => LedgerState(shares, map r | r in shares :: 0, 0)
    case Then(prior, op) => Step(Run(shares, prior), op).0
  }

  // ---- the quantities ----

  /** Authority in circulation. */
  ghost function SignedA(s: LedgerState): int {
    Total(s.spent) + Total(s.escrow)
  }

  function Positive(escrow: map<Name, int>): map<Name, int> {
    map r | r in escrow :: if escrow[r] > 0 then escrow[r] else 0
  }

  /** How far each escrow is overdrawn. */
  function Overdrawn(escrow: map<Name, int>): map<Name, int> {
    map r | r in escrow :: if escrow[r] < 0 then -escrow[r] else 0
  }

  ghost function FlooredA(s: LedgerState): int {
    Total(s.spent) + Total(Positive(s.escrow))
  }

  ghost function Debt(s: LedgerState): int {
    Total(Overdrawn(s.escrow))
  }

  predicate WellFormed(s: LedgerState) {
    forall r :: r in s.escrow ==> s.escrow[r] >= 0
  }

  // ---- one equation for all runs ----

  /** The authority that unsafe reclaims invent. */
  ghost function Minted(shares: map<Name, int>, tr: Trace): int {
    match tr
    case Empty => 0
    case Then(prior, op) =>
      Minted(shares, prior) +
      if op.Reclaim? && !op.safe && Step(Run(shares, prior), op).1 == Returned(true) then op.a else 0
  }

  lemma AuthorityStep(s: LedgerState, op: Op)
    ensures var (s', reply) := Step(s, op);
            SignedA(s') + s'.stranded ==
            SignedA(s) + s.stranded + if op.Reclaim? && !op.safe && reply == Returned(true) then op.a else 0
  {
    var s' := Step(s, op).0;
    if Step(s, op).1 == Returned(true) {
      TotalUpdate(s.escrow, op.r, s'.escrow[op.r]);
      if op.Charge? {
        TotalUpdate(s.spent, op.r, s'.spent[op.r]);
      }
    }
  }

  /** On every run, overdrafts and all: circulating and stranded authority is what there was at the start,
      plus what unsafe reclaims invented. */
  lemma {:induction false} AuthorityLedger(shares: map<Name, int>, tr: Trace)
    ensures var s := Run(shares, tr); SignedA(s) + s.stranded == Total(shares) + Minted(shares, tr)
  {
    if tr.Empty? {
      var s := Run(shares, tr);
      SumZero(s.spent.Keys, s.spent);
    } else {
      AuthorityLedger(shares, tr.prior);
      AuthorityStep(Run(shares, tr.prior), tr.op);
    }
  }

  /** Flooring hides exactly the debt. */
  lemma FlooredIsSignedPlusDebt(s: LedgerState)
    ensures FlooredA(s) == SignedA(s) + Debt(s)
    ensures Total(Positive(s.escrow)) >= 0 && Debt(s) >= 0
  {
    assert Positive(s.escrow).Keys == Overdrawn(s.escrow).Keys == s.escrow.Keys;
    SumAdd(s.escrow.Keys, s.escrow, Overdrawn(s.escrow), Positive(s.escrow));
    SumNonNegative(s.escrow.Keys, Positive(s.escrow));
    SumNonNegative(s.escrow.Keys, Overdrawn(s.escrow));
  }

  predicate SafeReclaims(tr: Trace) {
    tr.Then? ==> SafeReclaims(tr.prior) && (tr.op.Reclaim? ==> tr.op.safe)
  }

  lemma {:induction false} SafeReclaimsMintNothing(shares: map<Name, int>, tr: Trace)
    requires SafeReclaims(tr)
    ensures Minted(shares, tr) == 0
  {
    if tr.Then? {
      SafeReclaimsMintNothing(shares, tr.prior);
    }
  }

  /** With safe reclaims, the cap is breached exactly when the debt exceeds what is stranded and what the
      solvent replicas still hold; and the floored bound fails exactly when the debt exceeds what is
      stranded, which is why it certifies safety and the signed bound does not. */
  lemma BreachCharacterised(shares: map<Name, int>, tr: Trace, cap: int)
    requires SafeReclaims(tr) && Total(shares) == cap
    ensures var s := Run(shares, tr);
            && SignedA(s) + s.stranded == cap
            && (Total(s.spent) > cap <==> Debt(s) > s.stranded + Total(Positive(s.escrow)))
            && (FlooredA(s) > cap <==> Debt(s) > s.stranded)
            && (Total(s.spent) > cap ==> Debt(s) > s.stranded)
  {
    AuthorityLedger(shares, tr);
    SafeReclaimsMintNothing(shares, tr);
    FlooredIsSignedPlusDebt(Run(shares, tr));
  }

  /** The signed bound is no certificate of safety: one overdraft, with nothing reclaimed, keeps the signed
      authority at the cap and spends more than the cap. The floored bound catches it. */
  lemma SignedBoundCertifiesNothing(shares: map<Name, int>, r: Name, cap: int)
    requires r in shares && Total(shares) == cap
    ensures var tr := Then(Empty, Charge(r, cap + 1, true));
            var s := Run(shares, tr);
            SafeReclaims(tr) && SignedA(s) <= cap && Total(s.spent) > cap && FlooredA(s) > cap && !WellFormed(s)
  {
    var tr := Then(Empty, Charge(r, cap + 1, true));
    var start, s := Run(shares, Empty), Run(shares, tr);
    SumZero(start.spent.Keys, start.spent);
    TotalUpdate(start.spent, r, s.spent[r]);
    BreachCharacterised(shares, tr, cap);
    if WellFormed(s) {
      SumNonNegative(s.escrow.Keys, s.escrow);
    }
  }

  // ---- losing and reclaiming ----

  /** A safe reclaim of what was just lost is granted if and only if nothing negative was stranded before,
      and then it undoes the loss. */
  lemma ReclaimUndoesLoss(s: LedgerState, r: Name, a: int)
    requires Step(s, Lose(r, a)).1 == Returned(true)
    ensures var (s', reply) := Step(Step(s, Lose(r, a)).0, Reclaim(r, a, true));
            && reply == Returned(s.stranded >= 0)
            && (s' == s <==> s.stranded >= 0 || a == 0)
  {
    var lost := Step(s, Lose(r, a)).0;
    assert lost.escrow[r := s.escrow[r]] == s.escrow;
  }

  // ---- no overdraft ----

  /** Amounts are non-negative, and no charge is allowed to overspend. */
  predicate Guarded(tr: Trace) {
    tr.Then? ==> Guarded(tr.prior) && tr.op.a >= 0 && !(tr.op.Charge? && tr.op.allowOverspend)
  }

  lemma {:induction false} GuardedWellFormed(shares: map<Name, int>, tr: Trace)
    requires Guarded(tr) && forall r :: r in shares ==> shares[r] >= 0
    ensures WellFormed(Run(shares, tr)) && Run(shares, tr).stranded >= 0
  {
    if tr.Then? {
      GuardedWellFormed(shares, tr.prior);
    }
  }

  /** The safety certificate: without overdraft, and with safe reclaims, the signed bound and the cap hold
      on every run, though the authority may rise and fall. */
  lemma SafetyCertificate(shares: map<Name, int>, tr: Trace, cap: int)
    requires Guarded(tr) && SafeReclaims(tr)
    requires Total(shares) == cap && forall r :: r in shares ==> shares[r] >= 0
    ensures var s := Run(shares, tr);
            WellFormed(s) && SignedA(s) <= cap && FlooredA(s) <= cap && Total(s.spent) <= cap
  {
    var s := Run(shares, tr);
    GuardedWellFormed(shares, tr);
    BreachCharacterised(shares, tr, cap);
    SumZero(s.escrow.Keys, Overdrawn(s.escrow));
    assert Overdrawn(s.escrow).Keys == s.escrow.Keys;
    FlooredIsSignedPlusDebt(s);
  }

  // ---- the ledger as it is written ----

  class RecoveryLedger {
    const cap: int
    var escrow: map<Name, int>
    var spent: map<Name, int>
    var stranded: int

    ghost const shares: map<Name, int>
    ghost var trace: Trace

    function View(): LedgerState
      reads this
    {
      LedgerState(escrow, spent, stranded)
    }

    ghost predicate Valid()
      reads this
    {
      View() == Run(shares, trace)
    }

    twostate predicate Did(op: Op, reply: Reply)
      reads this
    {
      && Valid() && trace == Then(old(trace), op)
      && View() == Step(old(View()), op).0 && reply == Step(old(View()), op).1
    }

    constructor (replicas: map<Name, int>, cap: int)
      ensures Valid() && this.cap == cap && shares == replicas && trace == Empty
      ensures escrow == replicas && spent == (map r | r in replicas :: 0) && stranded == 0
    {
      this.cap := cap;
      escrow := replicas;
      spent := map r | r in replicas :: 0;
      stranded := 0;
      shares, trace := replicas, Empty;
    }

    /** safety(): true exactly when the debt is covered, as long as reclaims are safe. */
    method Safety() returns (ok: bool)
      requires Valid()
      ensures ok <==> Total(spent) <= cap
      ensures SafeReclaims(trace) && Total(shares) == cap ==>
                (ok <==> Debt(View()) <= stranded + Total(Positive(escrow)))
    {
      if SafeReclaims(trace) && Total(shares) == cap {
        BreachCharacterised(shares, trace, cap);
      }
      var totalSpent := SumOf(spent);
      return totalSpent <= cap;
    }

    method BoundSigned() returns (ok: bool)
      requires Valid()
      ensures ok <==> SignedA(View()) <= cap
      ensures SafeReclaims(trace) && Total(shares) == cap ==> (ok <==> stranded >= 0)
    {
      if SafeReclaims(trace) && Total(shares) == cap {
        BreachCharacterised(shares, trace, cap);
      }
      var totalSpent := SumOf(spent);
      var totalEscrow := SumOf(escrow);
      return totalSpent + totalEscrow <= cap;
    }

    method BoundFloored() returns (ok: bool)
      requires Valid()
      ensures ok <==> FlooredA(View()) <= cap
      ensures SafeReclaims(trace) && Total(shares) == cap ==> (ok <==> Debt(View()) <= stranded)
    {
      if SafeReclaims(trace) && Total(shares) == cap {
        BreachCharacterised(shares, trace, cap);
      }
      var totalSpent := SumOf(spent);
      var floored := SumOf(Positive(escrow));
      return totalSpent + floored <= cap;
    }

    method Charge(r: Name, a: int, allowOverspend: bool) returns (reply: Reply)
      requires Valid()
      modifies this
      ensures Did(Op.Charge(r, a, allowOverspend), reply)
      ensures reply ==
              if r in old(escrow) && r in old(spent) then Returned(allowOverspend || a <= old(escrow)[r]) else Raised
      ensures reply == Returned(true) ==>
                && escrow == old(escrow)[r := old(escrow)[r] - a]
                && spent == old(spent)[r := old(spent)[r] + a]
                && stranded == old(stranded)
      ensures reply != Returned(true) ==> View() == old(View())
    {
      trace := Then(trace, Op.Charge(r, a, allowOverspend));
      if r !in escrow || r !in spent {
        return Raised;
      }
      if allowOverspend || a <= escrow[r] {
        escrow := escrow[r := escrow[r] - a];
        spent := spent[r := spent[r] + a];
        return Returned(true);
      }
      return Returned(false);
    }

    method Lose(r: Name, a: int) returns (reply: Reply)
      requires Valid()
      modifies this
      ensures Did(Op.Lose(r, a), reply)
      ensures reply == if r in old(escrow) then Returned(a <= old(escrow)[r]) else Raised
      ensures reply == Returned(true) ==>
                && escrow == old(escrow)[r := old(escrow)[r] - a]
                && spent == old(spent)
                && stranded == old(stranded) + a
      ensures reply != Returned(true) ==> View() == old(View())
    {
      trace := Then(trace, Op.Lose(r, a));
      if r !in escrow {
        return Raised;
      }
      if a <= escrow[r] {
        escrow := escrow[r := escrow[r] - a];
        stranded := stranded + a;
        return Returned(true);
      }
      return Returned(false);
    }

    method Reclaim(r: Name, a: int, safe: bool) returns (reply: Reply)
      requires Valid()
      modifies this
      ensures Did(Op.Reclaim(r, a, safe), reply)
      ensures reply ==
              if safe && a > old(stranded) then Returned(false)
              else if r in old(escrow) then Returned(true)
              else Raised
      ensures reply == Returned(true) ==>
                && escrow == old(escrow)[r := old(escrow)[r] + a]
                && spent == old(spent)
                && stranded == if safe then old(stranded) - a else old(stranded)
      ensures reply != Returned(true) ==> View() == old(View())
    {
      trace := Then(trace, Op.Reclaim(r, a, safe));
      if safe && a > stranded {
        return Returned(false);
      }
      if r !in escrow {
        return Raised;
      }
      escrow := escrow[r := escrow[r] + a];
      if safe {
        stranded := stranded - a;
      }
      return Returned(true);
    }
  }
}
