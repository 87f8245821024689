/**
 The abstract crash/recovery protocol of lean/Escrow/DurableProtocol.lean, with its global persist and
 crash generalised to one replica, and a forward simulation of the implementation by it.

 The implementation snaps the durable escrow to the current one when it sends or receives; the abstract
 protocol applies the same delta to both sides ("lockstep"). The abstract side conserves the budget
 exactly, crashes included, and the implementation never holds more than its abstract counterpart.
 */
module DurableLockstep {
  import opened Lists
  import opened Names
  import opened Sums
  import opened DurableModel
  import opened DurableSafety

  /** A transfer not in a phase map is unsent. */
  datatype Phase = Outstanding | Received

  /** Current and durable side; the contents of a transfer never change, so they are kept once. */
  datatype LockState = LockState(
    escrow: map<Name, int>, spent: map<Name, int>, phase: map<Tid, Phase>,
    dEscrow: map<Name, int>, dSpent: map<Name, int>, dPhase: map<Tid, Phase>,
    amt: map<Tid, int>, dest: map<Tid, Name>)

  datatype Action =
    | LCharge(r: Name, a: int)
    | LSend(i: Name, j: Name, t: Tid, a: int)
    | LRecv(t: Tid)
    | LPersist(r: Name)
    | LCrash(r: Name)
    | LNoop

  /** The guards of the abstract step relation, including the durable ones. */
  predicate Enabled(l: LockState, act: Action) {
    match act
    case LCharge(r, a) => r in l.escrow && r in l.spent && 0 <= a <= l.escrow[r]
    case LSend(i, j, t, a) =>
      && t !in l.phase && t !in l.dPhase
      && i in l.escrow && i in l.dEscrow && 0 <= a <= l.escrow[i] && a <= l.dEscrow[i]
    case LRecv(t) =>
      && t in l.phase && t in l.dPhase && l.phase[t] == l.dPhase[t] == Outstanding
      && t in l.amt && t in l.dest && l.dest[t] in l.escrow && l.dest[t] in l.dEscrow
    case LPersist(r) => r in l.escrow && r in l.spent
    case LCrash(r) => r in l.dEscrow && r in l.dSpent
    case LNoop => true
  }

  /** The phases of the transfers addressed to r, copied over; the others stay. */
  function CopyPhases(source: map<Tid, Phase>, target: map<Tid, Phase>, dest: map<Tid, Name>, r: Name)
    : map<Tid, Phase>
  {
    map t | t in target :: if t in source && t in dest && dest[t] == r then source[t] else target[t]
  }

  function Apply(l: LockState, act: Action): LockState
    requires Enabled(l, act)
  {
    match act
    case LCharge(r, a) => l.(escrow := l.escrow[r := l.escrow[r] - a], spent := l.spent[r := l.spent[r] + a])
    case LSend(i, j, t, a) =>
      l.(escrow := l.escrow[i := l.escrow[i] - a], dEscrow := l.dEscrow[i := l.dEscrow[i] - a],
         phase := l.phase[t := Outstanding], dPhase := l.dPhase[t := Outstanding],
         amt := l.amt[t := a], dest := l.dest[t := j])
    case LRecv(t) =>
      var j := l.dest[t];
      l.(escrow := l.escrow[j := l.escrow[j] + l.amt[t]], dEscrow := l.dEscrow[j := l.dEscrow[j] + l.amt[t]],
         phase := l.phase[t := Received], dPhase := l.dPhase[t := Received])
    case LPersist(r) =>
      l.(dEscrow := l.dEscrow[r := l.escrow[r]], dSpent := l.dSpent[r := l.spent[r]],
         dPhase := CopyPhases(l.phase, l.dPhase, l.dest, r))
    case LCrash(r) =>
      l.(escrow := l.escrow[r := l.dEscrow[r]], spent := l.spent[r := l.dSpent[r]],
         phase := CopyPhases(l.dPhase, l.phase, l.dest, r))
    case LNoop => l
  }

  function Origin(shares: map<Name, int>): LockState {
    var zeros := map r | r in shares :: 0;
    LockState(shares, zeros, map[], shares, zeros, map[], map[], map[])
  }

  // ---- the abstract side conserves ----

  ghost predicate Consistent(l: LockState, roster: set<Name>) {
    && l.escrow.Keys == l.spent.Keys == l.dEscrow.Keys == l.dSpent.Keys == roster
    && l.amt.Keys == l.dest.Keys == l.phase.Keys
    && l.dPhase == l.phase
    && (forall t :: t in l.amt ==> l.amt[t] >= 0)
    && (forall r :: r in roster ==>
          && 0 <= l.escrow[r] <= l.dEscrow[r] && 0 <= l.dSpent[r]
          && l.dEscrow[r] + l.dSpent[r] == l.escrow[r] + l.spent[r])
  }

  lemma ConsistentSnapshot(l: LockState, act: Action, roster: set<Name>)
    requires Consistent(l, roster) && Enabled(l, act) && (act.LPersist? || act.LCrash?)
    ensures Consistent(Apply(l, act), roster)
  {
    assert CopyPhases(l.phase, l.phase, l.dest, act.r) == l.phase;
  }

  lemma ConsistentTransfer(l: LockState, act: Action, roster: set<Name>)
    requires Consistent(l, roster) && Enabled(l, act) && (act.LSend? || act.LRecv?)
    ensures Consistent(Apply(l, act), roster)
  {
  }

  lemma ConsistentStep(l: LockState, act: Action, roster: set<Name>)
    requires Consistent(l, roster) && Enabled(l, act)
    ensures Consistent(Apply(l, act), roster)
  {
    if act.LSend? || act.LRecv? {
      ConsistentTransfer(l, act, roster);
    } else if act.LPersist? || act.LCrash? {
      ConsistentSnapshot(l, act, roster);
    }
  }

  ghost function Outstandings(l: LockState): set<Tid> {
    set t | t in l.phase && l.phase[t] == Outstanding
  }

  ghost function Authority(l: LockState): int {
    Total(l.spent) + Total(l.escrow) + Sum(Outstandings(l), l.amt)
  }

  lemma AuthorityTransfer(l: LockState, act: Action)
    requires Enabled(l, act) && (act.LSend? || act.LRecv?)
    ensures Authority(Apply(l, act)) == Authority(l)
  {
    var l', open := Apply(l, act), Outstandings(l);
    if act.LSend? {
      TotalUpdate(l.escrow, act.i, l.escrow[act.i] - act.a);
      assert Outstandings(l') == open + {act.t};
      SumInsert(open, l'.amt, act.t);
      SumAgree(open, l.amt, l'.amt);
    } else {
      TotalUpdate(l.escrow, l.dest[act.t], l'.escrow[l.dest[act.t]]);
      assert Outstandings(l') == open - {act.t};
      SumPick(open, l.amt, act.t);
    }
  }

  lemma AuthorityStep(l: LockState, act: Action, roster: set<Name>)
    requires Consistent(l, roster) && Enabled(l, act)
    ensures Authority(Apply(l, act)) == Authority(l)
  {
    match act
    case LCharge(r, a) =>
      TotalUpdate(l.escrow, r, l.escrow[r] - a);
      TotalUpdate(l.spent, r, l.spent[r] + a);
    case LCrash(r) =>
      assert CopyPhases(l.dPhase, l.phase, l.dest, r) == l.phase;
      TotalUpdate(l.escrow, r, l.dEscrow[r]);
      TotalUpdate(l.spent, r, l.dSpent[r]);
    case LSend(_, _, _, _) => AuthorityTransfer(l, act);
    case LRecv(_) => AuthorityTransfer(l, act);
    case LPersist(_) =>
    case LNoop =>
  }

  // ---- abstract runs ----

  datatype LTrace = LEmpty | LThen(prior: LTrace, act: Action)

  ghost predicate LReaches(shares: map<Name, int>, tr: LTrace, l: LockState) {
    match tr
    case LEmpty => l == Origin(shares)
    case LThen(prior, act) => exists l0 :: LReaches(shares, prior, l0) && Enabled(l0, act) && l == Apply(l0, act)
  }

  /** On every abstract run, per-replica crashes included: each replica's durable pair equals its
      current pair in total, and the authority is exactly what there was at the start. */
  lemma {:induction false} AbstractConserves(shares: map<Name, int>, tr: LTrace, l: LockState)
    requires LReaches(shares, tr, l)
    requires forall r :: r in shares ==> shares[r] >= 0
    ensures Consistent(l, shares.Keys) && Authority(l) == Total(shares)
  {
    match tr
    case LEmpty =>
      SumZero(l.spent.Keys, l.spent);
      assert Outstandings(l) == {};
    case LThen(prior, act) =>
      var l0 :| LReaches(shares, prior, l0) && Enabled(l0, act) && l == Apply(l0, act);
      AbstractConserves(shares, prior, l0);
      ConsistentStep(l0, act, shares.Keys);
      AuthorityStep(l0, act, shares.Keys);
  }

  // ---- the simulation ----

  function Phases(s: ClusterState): map<Tid, Phase> {
    map t | t in s.amtOf :: if t in Credited(s.reps) then Received else Outstanding
  }

  /** Equal spending, dedup sets, and transfers; at most the abstract escrows. */
  ghost predicate Simulates(s: ClusterState, dst: map<Tid, Name>, l: LockState) {
    && l.spent == Spents(s.reps) && l.dSpent == DSpents(s.reps)
    && l.amt == s.amtOf && l.dest == dst
    && l.phase == l.dPhase == Phases(s)
    && l.escrow.Keys == l.dEscrow.Keys == s.reps.Keys
    && (forall r :: r in s.reps ==> s.reps[r].escrow <= l.escrow[r] && s.reps[r].dEscrow <= l.dEscrow[r])
  }

  /** The abstract action that answers a call: rejected calls, errors and drops are answered by noop. */
  function Answer(d: Discipline, s: ClusterState, op: Op): Action {
    var reply := Step(d, s, op).1;
    match op
    case Charge(name, amount) => if reply == Returned(true) then LCharge(name, amount) else LNoop
    case Issue(src, dst, amount, tid) => if reply == Returned(true) then LSend(src, dst, tid, amount) else LNoop
    case Deliver(idx) => if reply == Returned(true) then LRecv(s.sent[Position(idx, |s.sent|)].tid) else LNoop
    case Drop(_) => LNoop
    case Persist(name) => if reply == Done then LPersist(name) else LNoop
    case Crash(name) => if reply == Done then LCrash(name) else LNoop
  }

  /** When the transfers and what is credited of them stay the same, so do the phases. */
  lemma PhasesSame(s: ClusterState, name: Name, q: ReplicaState)
    requires name in s.reps && q.recvd == s.reps[name].recvd
    ensures Phases(s.Put(name, q)) == Phases(s)
  {
    CreditedAfterPut(s.reps, name, q, {});
    assert Credited(s.reps) + {} == Credited(s.reps);
  }

  lemma AnswerCharge(d: Discipline, s: ClusterState, op: Op, dst: map<Tid, Name>, l: LockState)
    requires NonNegativeOp(op) && op.Charge? && Step(d, s, op).1 == Returned(true)
    requires Simulates(s, dst, l)
    ensures var act := Answer(d, s, op);
            Enabled(l, act) && Simulates(Step(d, s, op).0, dst, Apply(l, act))
  {
    var s', l' := Step(d, s, op).0, Apply(l, Answer(d, s, op));
    PhasesSame(s, op.name, s'.reps[op.name]);
    assert l'.spent == Spents(s'.reps);
    assert l'.dSpent == DSpents(s'.reps);
  }

  lemma AnswerPersist(d: Discipline, s: ClusterState, op: Op, dst: map<Tid, Name>, l: LockState)
    requires op.Persist? && Step(d, s, op).1 == Done
    requires Simulates(s, dst, l)
    ensures var act := Answer(d, s, op);
            Enabled(l, act) && Simulates(Step(d, s, op).0, dst, Apply(l, act))
  {
    var s', l' := Step(d, s, op).0, Apply(l, Answer(d, s, op));
    PhasesSame(s, op.name, s'.reps[op.name]);
    assert l'.dPhase == l.phase;
    assert l'.spent == Spents(s'.reps);
    assert l'.dSpent == DSpents(s'.reps);
  }

  lemma AnswerCrash(d: Discipline, s: ClusterState, op: Op, dst: map<Tid, Name>, l: LockState)
    requires op.Crash? && Step(d, s, op).1 == Done
    requires d.recvdDurable && s.reps[op.name].dRecvd == s.reps[op.name].recvd
    requires Simulates(s, dst, l)
    ensures var act := Answer(d, s, op);
            Enabled(l, act) && Simulates(Step(d, s, op).0, dst, Apply(l, act))
  {
    var s', l' := Step(d, s, op).0, Apply(l, Answer(d, s, op));
    PhasesSame(s, op.name, s'.reps[op.name]);
    assert l'.phase == l.phase;
    assert l'.spent == Spents(s'.reps);
    assert l'.dSpent == DSpents(s'.reps);
  }

  lemma AnswerIssue(d: Discipline, s: ClusterState, op: Op, dst: map<Tid, Name>, l: LockState)
    requires d.Full() && NonNegativeOp(op) && op.Issue? && Step(d, s, op).1 == Returned(true)
    requires op.tid !in Credited(s.reps)
    requires Simulates(s, dst, l) && l.escrow[op.src] <= l.dEscrow[op.src]
    ensures var act := Answer(d, s, op);
            Enabled(l, act) && Simulates(Step(d, s, op).0, dst[op.tid := op.dst], Apply(l, act))
  {
    var s', l' := Step(d, s, op).0, Apply(l, Answer(d, s, op));
    PhasesSame(s, op.src, s'.reps[op.src]);
    CreditedAfterPut(s.reps, op.src, s'.reps[op.src], {});
    assert l'.phase == Phases(s');
    assert l'.spent == Spents(s'.reps);
    assert l'.dSpent == DSpents(s'.reps);
  }

  /** A credit that succeeds is the first for its transfer anywhere, and is made where it was sent. */
  lemma FirstCredit(d: Discipline, s: ClusterState, op: Op, dst: map<Tid, Name>)
    requires Shape(s, dst) && op.Deliver? && Step(d, s, op).1 == Returned(true)
    ensures var m := s.sent[Position(op.idx, |s.sent|)];
            m.tid !in Credited(s.reps) && m.tid in dst && dst[m.tid] == m.dst
  {
  }

  lemma AnswerDeliver(d: Discipline, s: ClusterState, op: Op, dst: map<Tid, Name>, l: LockState)
    requires d.Full() && op.Deliver? && Step(d, s, op).1 == Returned(true)
    requires var m := s.sent[Position(op.idx, |s.sent|)];
             m.tid !in Credited(s.reps) && m.tid in dst && dst[m.tid] == m.dst
    requires Simulates(s, dst, l)
    requires forall r :: r in l.escrow ==> l.escrow[r] <= l.dEscrow[r]
    ensures var act := Answer(d, s, op);
            Enabled(l, act) && Simulates(Step(d, s, op).0, dst, Apply(l, act))
  {
    var s' := Step(d, s, op).0;
    var m := s.sent[Position(op.idx, |s.sent|)];
    var l' := Apply(l, Answer(d, s, op));
    CreditedAfterPut(s.reps, m.dst, s'.reps[m.dst], {m.tid});
    assert l'.phase == Phases(s');
    assert l'.spent == Spents(s'.reps);
    assert l'.dSpent == DSpents(s'.reps);
  }

  lemma SimulationStep(d: Discipline, s: ClusterState, op: Op, dst: map<Tid, Name>, l: LockState)
    requires d.Full() && Shape(s, dst) && NonNegativeOp(op)
    requires Simulates(s, dst, l) && forall r :: r in l.escrow ==> l.escrow[r] <= l.dEscrow[r]
    ensures var (s', reply) := Step(d, s, op);
            var dst' := if op.Issue? && reply == Returned(true) then dst[op.tid := op.dst] else dst;
            var act := Answer(d, s, op);
            Enabled(l, act) && Simulates(s', dst', Apply(l, act))
  {
    var reply := Step(d, s, op).1;
    if reply == Returned(true) {
      match op
      case Charge(_, _) => AnswerCharge(d, s, op, dst, l);
      case Issue(_, _, _, _) => AnswerIssue(d, s, op, dst, l);
      case Deliver(_) =>
        FirstCredit(d, s, op, dst);
        AnswerDeliver(d, s, op, dst, l);
    } else if reply == Done {
      if op.Persist? {
        AnswerPersist(d, s, op, dst, l);
      } else {
        AnswerCrash(d, s, op, dst, l);
      }
    }
  }

  function AnswerAll(c: Setup, tr: Trace): LTrace {
    match tr
    case Empty => LEmpty
    case Then(prior, op) => LThen(AnswerAll(c, prior), Answer(c.d, Run(c, prior), op))
  }

  /** Forward simulation over whole runs: the abstract protocol answers every disciplined run, call by
      call, and stays related to it. */
  lemma {:induction false} Simulation(c: Setup, tr: Trace, cap: int) returns (l: LockState)
    requires c.d.Full() && GoodGenesis(c, cap) && NonNegative(tr)
    ensures LReaches(c.shares, AnswerAll(c, tr), l)
    ensures Simulates(Run(c, tr), Destinations(c, tr), l)
  {
    if tr.Empty? {
      l := Origin(c.shares);
      var s := Genesis(c.shares);
      assert l.spent == Spents(s.reps) && l.dSpent == DSpents(s.reps);
    } else {
      var s := Run(c, tr.prior);
      var l0 := Simulation(c, tr.prior, cap);
      AbstractConserves(c.shares, AnswerAll(c, tr.prior), l0);
      ShapeHolds(c, tr.prior);
      assert Spents(s.reps).Keys == s.reps.Keys;
      SimulationStep(c.d, s, tr.op, Destinations(c, tr.prior), l0);
      l := Apply(l0, Answer(c.d, s, tr.op));
    }
  }

  /** The bound transfers: a state simulated by a conserving one holds at most its authority. This is a
      second proof of the cap theorem, by way of the abstract protocol. */
  lemma BoundTransfers(c: Setup, tr: Trace, cap: int)
    requires c.d.Full() && GoodGenesis(c, cap) && NonNegative(tr)
    ensures Quantity(Run(c, tr)) <= cap
  {
    var s, dst := Run(c, tr), Destinations(c, tr);
    var l := Simulation(c, tr, cap);
    AbstractConserves(c.shares, AnswerAll(c, tr), l);
    ShapeHolds(c, tr);
    assert Escrows(s.reps).Keys == l.escrow.Keys;
    SumLe(l.escrow.Keys, Escrows(s.reps), l.escrow);
    var open := SentTids(s.sent) - Credited(s.reps);
    assert open <= Outstandings(l);
    SumSubset(open, Outstandings(l), s.amtOf);
  }
}
