/**
 The crash/recovery cluster as values: what each call of impl/durable.py does to the state, and what
 it returns, as a function (Step) and, independently, as a relation on what the caller sees (Effect).
 DurableCluster.dfy holds the mutable classes and proves that they follow this model.

 Every call is total. A call that raises in the source (an unknown replica name, an index out of
 range) raises before it changes anything, so here it leaves the state alone and replies Raised.
 */
module DurableModel {
  import opened Lists
  import opened Names
  import opened Sums

  /** The two durability disciplines of the source, each switchable. */
  datatype Discipline = Discipline(debitDurableBeforeSend: bool, recvdDurable: bool) {
    predicate Full() {
      debitDurableBeforeSend && recvdDurable
    }
  }

  datatype Message = Message(dst: Name, tid: Tid)

  /** One replica: the volatile triple, and the durable triple a crash installs over it. */
  datatype ReplicaState = ReplicaState(
    escrow: int, spent: int, recvd: set<Tid>,
    dEscrow: int, dSpent: int, dRecvd: set<Tid>)
  {
    function Charge(amount: int): ReplicaState {
      this.(escrow := escrow - amount, spent := spent + amount)
    }

    function DebitForSend(d: Discipline, amount: int): ReplicaState {
      var left := escrow - amount;
      this.(escrow := left, dEscrow := if d.debitDurableBeforeSend then left else dEscrow)
    }

    function Credit(d: Discipline, tid: Tid, amount: int): ReplicaState {
      var more := escrow + amount;
      var seen := recvd + {tid};
      this.(escrow := more, recvd := seen, dEscrow := more, dRecvd := if d.recvdDurable then seen else dRecvd)
    }

    function Persist(d: Discipline): ReplicaState {
      this.(dEscrow := escrow, dSpent := spent, dRecvd := if d.recvdDurable then recvd else dRecvd)
    }

    function Crash(d: Discipline): ReplicaState {
      this.(escrow := dEscrow, spent := dSpent, recvd := if d.recvdDurable then dRecvd else {})
    }
  }

  datatype ClusterState = ClusterState(
    reps: map<Name, ReplicaState>, sent: seq<Message>, amtOf: map<Tid, int>)
  {
    function Put(name: Name, q: ReplicaState): ClusterState {
      this.(reps := reps[name := q])
    }
  }

  datatype Op =
    | Charge(name: Name, amount: int)
    | Issue(src: Name, dst: Name, amount: int, tid: Tid)
    | Deliver(idx: int)
    | Drop(idx: int)
    | Persist(name: Name)
    | Crash(name: Name)

  datatype Reply = Returned(ok: bool) | Popped(msg: Message) | Done | Raised

  function Step(d: Discipline, s: ClusterState, op: Op): (ClusterState, Reply) {
    match op
    case Charge(name, amount) =>
      if name !in s.reps then (s, Raised)
      else if amount <= s.reps[name].escrow then (s.Put(name, s.reps[name].Charge(amount)), Returned(true))
      else (s, Returned(false))
    case Issue(src, dst, amount, tid) =>
      if tid in s.amtOf then (s, Returned(false))
      else if src !in s.reps then (s, Raised)
      else if amount <= s.reps[src].escrow then
        (ClusterState(s.reps[src := s.reps[src].DebitForSend(d, amount)],
                      s.sent + [Message(dst, tid)],
                      s.amtOf[tid := amount]),
         Returned(true))
      else (s, Returned(false))
    case Deliver(idx) =>
      if !InRange(idx, |s.sent|) then (s, Raised)
      else
        var m := s.sent[Position(idx, |s.sent|)];
        if m.dst !in s.reps || m.tid !in s.amtOf then (s, Raised)
        else if m.tid in s.reps[m.dst].recvd then (s, Returned(false))
        else (s.Put(m.dst, s.reps[m.dst].Credit(d, m.tid, s.amtOf[m.tid])), Returned(true))
    case Drop(idx) =>
      if !InRange(idx, |s.sent|) then (s, Raised)
      else
        var i := Position(idx, |s.sent|);
        (s.(sent := Without(s.sent, i)), Popped(s.sent[i]))
    case Persist(name) =>
      if name !in s.reps then (s, Raised) else (s.Put(name, s.reps[name].Persist(d)), Done)
    case Crash(name) =>
      if name !in s.reps then (s, Raised) else (s.Put(name, s.reps[name].Crash(d)), Done)
  }

  // ---- the same calls as a caller sees them, field by field and message by message ----

  /** Replica `name` is now in state q, and nothing else has changed. */
  ghost predicate Became(s: ClusterState, name: Name, q: ReplicaState, s': ClusterState) {
    s' == s.(reps := s.reps[name := q])
  }

  ghost predicate ChargeEffect(s: ClusterState, name: Name, amount: int, s': ClusterState, reply: Reply) {
    && reply == (if name !in s.reps then Raised else Returned(amount <= s.reps[name].escrow))
    && (reply != Returned(true) ==> s' == s)
    && (reply == Returned(true) ==>
          var q := s.reps[name];
          Became(s, name, q.(escrow := q.escrow - amount, spent := q.spent + amount), s'))
  }

  /** A known id is refused before the source is looked up; the debit is durable if it is written ahead. */
  ghost predicate IssueEffect(
    d: Discipline, s: ClusterState, src: Name, dst: Name, amount: int, tid: Tid, s': ClusterState, reply: Reply)
  {
    && reply == (
         if tid in s.amtOf then Returned(false)
         else if src !in s.reps then Raised
         else Returned(amount <= s.reps[src].escrow))
    && (reply != Returned(true) ==> s' == s)
    && (reply == Returned(true) ==>
          && s'.sent == s.sent + [Message(dst, tid)] && s'.amtOf == s.amtOf[tid := amount]
          && var q := s.reps[src];
             var left := q.escrow - amount;
             s'.reps == s.reps[src := q.(
               escrow := left, dEscrow := if d.debitDurableBeforeSend then left else q.dEscrow)])
  }

  /** Message m is delivered: credited once, its amount durably, its id durably if that discipline is on. */
  ghost predicate MessageEffect(d: Discipline, s: ClusterState, m: Message, s': ClusterState, reply: Reply) {
    && reply == (
         if m.dst !in s.reps || m.tid !in s.amtOf then Raised
         else Returned(m.tid !in s.reps[m.dst].recvd))
    && (reply != Returned(true) ==> s' == s)
    && (reply == Returned(true) ==>
          var q := s.reps[m.dst];
          var more, seen := q.escrow + s.amtOf[m.tid], q.recvd + {m.tid};
          Became(s, m.dst, q.(
            escrow := more, recvd := seen,
            dEscrow := more, dRecvd := if d.recvdDurable then seen else q.dRecvd), s'))
  }

  ghost predicate DeliverEffect(d: Discipline, s: ClusterState, idx: int, s': ClusterState, reply: Reply) {
    && (!(-|s.sent| <= idx < |s.sent|) ==> reply == Raised && s' == s)
    && (forall i :: Indexes(idx, i, |s.sent|) ==> MessageEffect(d, s, s.sent[i], s', reply))
  }

  ghost predicate DropEffect(s: ClusterState, idx: int, s': ClusterState, reply: Reply) {
    && (!(-|s.sent| <= idx < |s.sent|) ==> reply == Raised && s' == s)
    && (forall i :: Indexes(idx, i, |s.sent|) ==>
          reply == Popped(s.sent[i]) && IsPopped(s.sent, s'.sent, i) && s' == s.(sent := s'.sent))
  }

  ghost predicate PersistEffect(d: Discipline, s: ClusterState, name: Name, s': ClusterState, reply: Reply) {
    if name !in s.reps then reply == Raised && s' == s
    else
      var q := s.reps[name];
      && reply == Done
      && Became(s, name, q.(
           dEscrow := q.escrow, dSpent := q.spent, dRecvd := if d.recvdDurable then q.recvd else q.dRecvd), s')
  }

  ghost predicate CrashEffect(d: Discipline, s: ClusterState, name: Name, s': ClusterState, reply: Reply) {
    if name !in s.reps then reply == Raised && s' == s
    else
      var q := s.reps[name];
      && reply == Done
      && Became(s, name, q.(
           escrow := q.dEscrow, spent := q.dSpent, recvd := if d.recvdDurable then q.dRecvd else {}), s')
  }

  ghost predicate Effect(d: Discipline, s: ClusterState, op: Op, s': ClusterState, reply: Reply) {
    match op
    case Charge(name, amount) => ChargeEffect(s, name, amount, s', reply)
    case Issue(src, dst, amount, tid) => IssueEffect(d, s, src, dst, amount, tid, s', reply)
    case Deliver(idx) => DeliverEffect(d, s, idx, s', reply)
    case Drop(idx) => DropEffect(s, idx, s', reply)
    case Persist(name) => PersistEffect(d, s, name, s', reply)
    case Crash(name) => CrashEffect(d, s, name, s', reply)
  }

  /** In every state, a call has its effect, and no other outcome does. */
  lemma StepIsEffect(d: Discipline, s: ClusterState, op: Op, s': ClusterState, reply: Reply)
    ensures Effect(d, s, op, s', reply) <==> (s', reply) == Step(d, s, op)
  {
    if op.Deliver? || op.Drop? {
      var n := |s.sent|;
      PositionIndexes(op.idx, n);
      if InRange(op.idx, n) {
        var i := Position(op.idx, n);
        assert Indexes(op.idx, i, n);
        PoppedIsWithout(s.sent, s'.sent, i);
      }
    }
  }

  // ---- runs ----

  /** A run is the list of calls made so far, the latest outermost. */
  datatype Trace = Empty | Then(prior: Trace, op: Op)

  /** How a cluster was set up: its disciplines and the share of the budget each replica starts with. */
  datatype Setup = Setup(d: Discipline, shares: map<Name, int>)

  function Genesis(shares: map<Name, int>): ClusterState {
    ClusterState(map r | r in shares :: ReplicaState(shares[r], 0, {}, shares[r], 0, {}), [], map[])
  }

  function Run(c: Setup, tr: Trace): ClusterState {
    match tr
    case Empty => Genesis(c.shares)
    case Then(prior, op) => Step(c.d, Run(c, prior), op).0
  }

  /** What the last call of a run replied. */
  function ReplyOf(c: Setup, prior: Trace, op: Op): Reply {
    Step(c.d, Run(c, prior), op).1
  }

  /** The shares are disjoint parts of the cap: none negative, together the cap. */
  ghost predicate GoodGenesis(c: Setup, cap: int) {
    && (forall r :: r in c.shares ==> c.shares[r] >= 0)
    && Total(c.shares) == cap
  }

  predicate NonNegativeOp(op: Op) {
    op.Charge? || op.Issue? ==> op.amount >= 0
  }

  predicate NonNegative(tr: Trace) {
    tr.Then? ==> NonNegative(tr.prior) && NonNegativeOp(tr.op)
  }

  // ---- the conserved quantity ----

  function Escrows(reps: map<Name, ReplicaState>): map<Name, int> {
    map r | r in reps :: reps[r].escrow
  }

  function Spents(reps: map<Name, ReplicaState>): map<Name, int> {
    map r | r in reps :: reps[r].spent
  }

  function DEscrows(reps: map<Name, ReplicaState>): map<Name, int> {
    map r | r in reps :: reps[r].dEscrow
  }

  function DSpents(reps: map<Name, ReplicaState>): map<Name, int> {
    map r | r in reps :: reps[r].dSpent
  }

  function Credited(reps: map<Name, ReplicaState>): set<Tid> {
    set r, t | r in reps && t in reps[r].recvd :: t
  }

  function SentTids(sent: seq<Message>): set<Tid> {
    set m | m in sent :: m.tid
  }

  ghost function TotalEscrow(s: ClusterState): int {
    Total(Escrows(s.reps))
  }

  ghost function TotalSpent(s: ClusterState): int {
    Total(Spents(s.reps))
  }

  ghost function InFlight(s: ClusterState): int {
    Sum(SentTids(s.sent) - Credited(s.reps), s.amtOf)
  }

  ghost function Quantity(s: ClusterState): int {
    TotalSpent(s) + TotalEscrow(s) + InFlight(s)
  }

  /** What check() asserts: the cap always, the bound on the whole quantity when disciplined. */
  ghost predicate CheckPasses(d: Discipline, s: ClusterState, cap: int) {
    TotalSpent(s) <= cap && (d.Full() ==> Quantity(s) <= cap)
  }

  // ---- how the totals react to one replica changing ----

  lemma TotalsAfterPut(reps: map<Name, ReplicaState>, r: Name, q: ReplicaState)
    requires r in reps
    ensures Total(Escrows(reps[r := q])) == Total(Escrows(reps)) - reps[r].escrow + q.escrow
    ensures Total(Spents(reps[r := q])) == Total(Spents(reps)) - reps[r].spent + q.spent
  {
    TotalUpdate(Escrows(reps), r, q.escrow);
    TotalUpdate(Spents(reps), r, q.spent);
    assert Escrows(reps[r := q]) == Escrows(reps)[r := q.escrow];
    assert Spents(reps[r := q]) == Spents(reps)[r := q.spent];
  }

  lemma CreditedAfterPut(reps: map<Name, ReplicaState>, r: Name, q: ReplicaState, new_: set<Tid>)
    requires r in reps && q.recvd == reps[r].recvd + new_
    ensures Credited(reps[r := q]) == Credited(reps) + new_
  {
    var after := reps[r := q];
    forall t | t in Credited(reps) + new_
      ensures t in Credited(after)
    {
      if t in new_ {
        assert t in after[r].recvd;
      } else {
        var x :| x in reps && t in reps[x].recvd;
        assert t in after[x].recvd;
      }
    }
  }

  lemma GenesisTotals(shares: map<Name, int>)
    ensures Quantity(Genesis(shares)) == Total(shares)
    ensures TotalSpent(Genesis(shares)) == 0
  {
    var s := Genesis(shares);
    assert Escrows(s.reps) == shares;
    SumZero(Spents(s.reps).Keys, Spents(s.reps));
    assert SentTids(s.sent) - Credited(s.reps) == {};
  }
}
