/**
 The centralised reference service of impl/escrow.py as values, and what it promises by itself: in strict
 mode it refuses to enter a state that breaks conservation, and on no run does it come to that.

 The service takes the calls of DistributedModel.Op; issue stands for send_transfer.
 */
module EscrowOracle {
  import opened Lists
  import opened Names
  import opened Sums
  import D = DistributedModel

  datatype Message = Message(dst: Name, amount: int, tid: Tid)

  datatype Transfer = Transfer(dst: Name, amount: int)

  datatype ServiceState = ServiceState(
    escrow: map<Name, int>, spent: map<Name, int>,
    applied: map<Opid, int>, chargeCount: map<Opid, int>,
    sent: map<Tid, Transfer>, recvd: set<Tid>, net: seq<Message>)

  datatype Reply = Returned(ok: bool) | Raised

  function Step(s: ServiceState, op: D.Op): (ServiceState, Reply) {
    match op
    case Charge(name, amount, opid) =>
      if amount < 0 then (s, Raised)
      else if opid in s.applied then (s, Returned(true))
      else if name !in s.escrow || name !in s.spent then (s, Raised)
      else if amount <= s.escrow[name] then
        (s.(escrow := s.escrow[name := s.escrow[name] - amount],
            spent := s.spent[name := s.spent[name] + amount],
            applied := s.applied[opid := amount],
            chargeCount := s.chargeCount[opid := D.CountOf(s.chargeCount, opid) + 1]),
         Returned(true))
      else (s, Returned(false))
    case Issue(src, dst, amount, tid) =>
      if amount < 0 then (s, Raised)
      else if tid in s.sent then (s, Returned(false))
      else if src !in s.escrow then (s, Raised)
      else if amount <= s.escrow[src] then
        (s.(escrow := s.escrow[src := s.escrow[src] - amount],
            sent := s.sent[tid := Transfer(dst, amount)],
            net := s.net + [Message(dst, amount, tid)]),
         Returned(true))
      else (s, Returned(false))
    case Deliver(idx) =>
      if !InRange(idx, |s.net|) then (s, Raised)
      else
        var m := s.net[Position(idx, |s.net|)];
        if m.tid in s.recvd then (s, Returned(false))
        else if m.dst !in s.escrow then (s, Raised)
        else
          (s.(escrow := s.escrow[m.dst := s.escrow[m.dst] + m.amount], recvd := s.recvd + {m.tid}),
           Returned(true))
    case Drop(idx) =>
      if !InRange(idx, |s.net|) then (s, Raised)
      else (s.(net := Without(s.net, Position(idx, |s.net|))), Returned(true))
  }

  // ---- the same calls as a caller sees them, field by field and message by message ----

  /** A charge id on record is answered True, whoever presents it, and changes nothing. */
  ghost predicate ChargeEffect(
    s: ServiceState, name: Name, amount: int, opid: Opid, s': ServiceState, reply: Reply)
  {
    if amount >= 0 && opid in s.applied then reply == Returned(true) && s' == s
    else if amount < 0 || name !in s.escrow || name !in s.spent then reply == Raised && s' == s
    else
      && reply == Returned(amount <= s.escrow[name])
      && (reply == Returned(false) ==> s' == s)
      && (reply == Returned(true) ==>
            && s'.escrow == s.escrow[name := s.escrow[name] - amount]
            && s'.spent == s.spent[name := s.spent[name] + amount]
            && s'.applied == s.applied[opid := amount]
            && s'.chargeCount == s.chargeCount[opid := D.CountOf(s.chargeCount, opid) + 1]
            && s'.sent == s.sent && s'.recvd == s.recvd && s'.net == s.net)
  }

  /** A transfer id on record is refused, whoever presents it. */
  ghost predicate IssueEffect(
    s: ServiceState, src: Name, dst: Name, amount: int, tid: Tid, s': ServiceState, reply: Reply)
  {
    if amount >= 0 && tid in s.sent then reply == Returned(false) && s' == s
    else if amount < 0 || src !in s.escrow then reply == Raised && s' == s
    else
      && reply == Returned(amount <= s.escrow[src])
      && (reply == Returned(false) ==> s' == s)
      && (reply == Returned(true) ==>
            && s'.escrow == s.escrow[src := s.escrow[src] - amount]
            && s'.sent == s.sent[tid := Transfer(dst, amount)]
            && s'.net == s.net + [Message(dst, amount, tid)]
            && s'.spent == s.spent && s'.applied == s.applied
            && s'.chargeCount == s.chargeCount && s'.recvd == s.recvd)
  }

  /** Message m is delivered: a known id is refused before the destination is looked up. */
  ghost predicate MessageEffect(s: ServiceState, m: Message, s': ServiceState, reply: Reply) {
    if m.tid in s.recvd then reply == Returned(false) && s' == s
    else if m.dst !in s.escrow then reply == Raised && s' == s
    else
      && reply == Returned(true)
      && s' == s.(escrow := s.escrow[m.dst := s.escrow[m.dst] + m.amount], recvd := s.recvd + {m.tid})
  }

  ghost predicate DeliverEffect(s: ServiceState, idx: int, s': ServiceState, reply: Reply) {
    && (!(-|s.net| <= idx < |s.net|) ==> reply == Raised && s' == s)
    && (forall i :: Indexes(idx, i, |s.net|) ==> MessageEffect(s, s.net[i], s', reply))
  }

  ghost predicate DropEffect(s: ServiceState, idx: int, s': ServiceState, reply: Reply) {
    && (!(-|s.net| <= idx < |s.net|) ==> reply == Raised && s' == s)
    && (forall i :: Indexes(idx, i, |s.net|) ==>
          reply == Returned(true) && IsPopped(s.net, s'.net, i) && s' == s.(net := s'.net))
  }

  ghost predicate Effect(s: ServiceState, op: D.Op, s': ServiceState, reply: Reply) {
    match op
    case Charge(name, amount, opid) => ChargeEffect(s, name, amount, opid, s', reply)
    case Issue(src, dst, amount, tid) => IssueEffect(s, src, dst, amount, tid, s', reply)
    case Deliver(idx) => DeliverEffect(s, idx, s', reply)
    case Drop(idx) => DropEffect(s, idx, s', reply)
  }

  /** In every state, a call has its effect, and no other outcome does. */
  lemma StepIsEffect(s: ServiceState, op: D.Op, s': ServiceState, reply: Reply)
    ensures Effect(s, op, s', reply) <==> (s', reply) == Step(s, op)
  {
    if op.Deliver? || op.Drop? {
      var n := |s.net|;
      PositionIndexes(op.idx, n);
      if InRange(op.idx, n) {
        var i := Position(op.idx, n);
        assert Indexes(op.idx, i, n);
        PoppedIsWithout(s.net, s'.net, i);
      }
    }
  }

  function Genesis(shares: map<Name, int>): ServiceState {
    ServiceState(shares, map r | r in shares :: 0, map[], map[], map[], {}, [])
  }

  /** The source gives the whole cap to one replica. */
  function GenesisShares(replicas: set<Name>, genesis: Name, cap: int): map<Name, int> {
    map r | r in replicas :: if r == genesis then cap else 0
  }

  lemma GenesisSharesTotal(replicas: set<Name>, genesis: Name, cap: int)
    requires genesis in replicas
    ensures Total(GenesisShares(replicas, genesis, cap)) == cap
  {
    var shares := GenesisShares(replicas, genesis, cap);
    SumPick(shares.Keys, shares, genesis);
    SumZero(shares.Keys - {genesis}, shares);
  }

  function Run(shares: map<Name, int>, tr: D.Trace): ServiceState {
    match tr
    case Empty => Genesis(shares)
    case Then(prior, op) => Step(Run(shares, prior), op).0
  }

  // ---- the conserved quantity ----

  function Amounts(sent: map<Tid, Transfer>): map<Tid, int> {
    map t | t in sent :: sent[t].amount
  }

  ghost function InFlight(s: ServiceState): int {
    Sum(s.sent.Keys - s.recvd, Amounts(s.sent))
  }

  ghost function Conserved(s: ServiceState): int {
    Total(s.spent) + Total(s.escrow) + InFlight(s)
  }

  /** What _check demands in strict mode. */
  ghost predicate StrictCheckPasses(s: ServiceState, cap: int) {
    && Conserved(s) == cap
    && Total(s.spent) <= cap
    && (forall r :: r in s.escrow ==> s.escrow[r] >= 0)
    && (forall r :: r in s.spent ==> s.spent[r] >= 0)
  }

  ghost predicate Consistent(s: ServiceState) {
    && s.escrow.Keys == s.spent.Keys
    && s.recvd <= s.sent.Keys
    && (forall m :: m in s.net ==> m.tid in s.sent && s.sent[m.tid] == Transfer(m.dst, m.amount))
    && (forall t :: t in s.sent ==> s.sent[t].amount >= 0)
    && (forall r :: r in s.escrow ==> s.escrow[r] >= 0 && s.spent[r] >= 0)
  }

  lemma ConsistentStep(s: ServiceState, op: D.Op)
    requires Consistent(s)
    ensures Consistent(Step(s, op).0)
  {
  }

  lemma ConservedStep(s: ServiceState, op: D.Op)
    requires Consistent(s)
    ensures Conserved(Step(s, op).0) == Conserved(s)
  {
    var s' := Step(s, op).0;
    var open := s.sent.Keys - s.recvd;
    if s' != s {
      match op
      case Charge(name, _, _) =>
        TotalUpdate(s.escrow, name, s'.escrow[name]);
        TotalUpdate(s.spent, name, s'.spent[name]);
      case Issue(src, _, amount, tid) =>
        TotalUpdate(s.escrow, src, s'.escrow[src]);
        assert s'.sent.Keys - s'.recvd == open + {tid};
        SumInsert(open, Amounts(s'.sent), tid);
        SumAgree(open, Amounts(s.sent), Amounts(s'.sent));
      case Deliver(idx) =>
        var m := s.net[Position(idx, |s.net|)];
        assert m in s.net;
        TotalUpdate(s.escrow, m.dst, s'.escrow[m.dst]);
        assert s'.sent.Keys - s'.recvd == open - {m.tid};
        SumPick(open, Amounts(s.sent), m.tid);
      case Drop(_) =>
    }
  }

  lemma GenesisConserved(shares: map<Name, int>)
    ensures Conserved(Genesis(shares)) == Total(shares)
  {
    var s := Genesis(shares);
    SumZero(s.spent.Keys, s.spent);
    assert s.sent.Keys - s.recvd == {};
  }

  lemma {:induction false} StateHolds(shares: map<Name, int>, tr: D.Trace)
    requires forall r :: r in shares ==> shares[r] >= 0
    ensures Consistent(Run(shares, tr)) && Conserved(Run(shares, tr)) == Total(shares)
  {
    if tr.Empty? {
      GenesisConserved(shares);
    } else {
      StateHolds(shares, tr.prior);
      ConsistentStep(Run(shares, tr.prior), tr.op);
      ConservedStep(Run(shares, tr.prior), tr.op);
    }
  }

  /** On every run, whatever the ids, amounts and order of calls, the strict check passes. */
  lemma StrictNeverRaises(shares: map<Name, int>, tr: D.Trace)
    requires forall r :: r in shares ==> shares[r] >= 0
    ensures StrictCheckPasses(Run(shares, tr), Total(shares))
  {
    var s := Run(shares, tr);
    StateHolds(shares, tr);
    SumNonNegative(s.escrow.Keys, s.escrow);
    SumNonNegative(s.sent.Keys - s.recvd, Amounts(s.sent));
  }

  // ---- the records of charges ----

  ghost predicate Recorded(s: ServiceState) {
    && s.chargeCount.Keys == s.applied.Keys
    && (forall o :: o in s.chargeCount ==> s.chargeCount[o] == 1)
    && Total(s.spent) == Total(s.applied)
  }

  lemma ChargeRecorded(s: ServiceState, op: D.Op)
    requires Recorded(s) && op.Charge? && Step(s, op).0 != s
    ensures Recorded(Step(s, op).0)
  {
    var s' := Step(s, op).0;
    TotalUpdate(s.spent, op.name, s'.spent[op.name]);
    TotalUpdate(s.applied, op.opid, op.amount);
  }

  /** On every run no charge id is debited twice, whichever replicas present it, and what has been spent is
      exactly what is on record. */
  lemma {:induction false} ChargedOnce(shares: map<Name, int>, tr: D.Trace)
    ensures Recorded(Run(shares, tr))
  {
    if tr.Empty? {
      var s := Run(shares, tr);
      SumZero(s.spent.Keys, s.spent);
    } else {
      ChargedOnce(shares, tr.prior);
      var s := Run(shares, tr.prior);
      if tr.op.Charge? && Step(s, tr.op).0 != s {
        ChargeRecorded(s, tr.op);
      }
    }
  }
}
