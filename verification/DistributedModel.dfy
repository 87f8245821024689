/**
 The message-passing cluster as values: what each call of impl/distributed.py does to the state, and
 what it returns, as a function (Step) and, independently, as a relation on what the caller sees (Effect).
 DistributedCluster.dfy holds the mutable classes and proves that they follow this model.

 As in DurableModel, a call that raises in the source (an unknown replica, a negative amount, an index
 out of range) raises before it changes anything, and is modelled by the reply Raised.
 */
module DistributedModel {
  import opened Lists
  import opened Names
  import opened Sums

  /** Which sides remember the transfers they have handled. */
  datatype Idempotency = Idempotency(sender: bool, receiver: bool)

  datatype Message = Message(src: Name, dst: Name, amount: int, tid: Tid)

  /** How often a charge id is on record, none if it is not. */
  function CountOf(chargeCount: map<Opid, int>, opid: Opid): int {
    if opid in chargeCount then chargeCount[opid] else 0
  }

  datatype ReplicaState = ReplicaState(
    escrow: int, spent: int,
    applied: map<Opid, int>, chargeCount: map<Opid, int>,
    issued: map<Tid, int>, recvd: set<Tid>)
  {
    function Charge(amount: int, opid: Opid): ReplicaState {
      this.(escrow := escrow - amount, spent := spent + amount,
            applied := applied[opid := amount],
            chargeCount := chargeCount[opid := CountOf(chargeCount, opid) + 1])
    }

    function Issue(amount: int, tid: Tid): ReplicaState {
      this.(escrow := escrow - amount, issued := issued[tid := amount])
    }

    function Receive(m: Message): ReplicaState {
      this.(escrow := escrow + m.amount, recvd := recvd + {m.tid})
    }
  }

  datatype ClusterState = ClusterState(
    reps: map<Name, ReplicaState>, net: seq<Message>, tidAmount: map<Tid, int>, received: set<Tid>)

  datatype Op =
    | Charge(name: Name, amount: int, opid: Opid)
    | Issue(src: Name, dst: Name, amount: int, tid: Tid)
    | Deliver(idx: int)
    | Drop(idx: int)

  datatype Reply = Returned(ok: bool) | Issued(msg: Message) | NotIssued | Popped(msg: Message) | Raised

  function Step(f: Idempotency, s: ClusterState, op: Op): (ClusterState, Reply) {
    match op
    case Charge(name, amount, opid) =>
      if name !in s.reps || amount < 0 then (s, Raised)
      else if opid in s.reps[name].applied then (s, Returned(true))
      else if amount <= s.reps[name].escrow then
        (s.(reps := s.reps[name := s.reps[name].Charge(amount, opid)]), Returned(true))
      else (s, Returned(false))
    case Issue(src, dst, amount, tid) =>
      if src !in s.reps || amount < 0 then (s, Raised)
      else if f.sender && tid in s.reps[src].issued then (s, NotIssued)
      else if amount <= s.reps[src].escrow then
        var m := Message(src, dst, amount, tid);
        (ClusterState(s.reps[src := s.reps[src].Issue(amount, tid)],
                      s.net + [m],
                      if tid in s.tidAmount then s.tidAmount else s.tidAmount[tid := amount],
                      s.received),
         Issued(m))
      else (s, NotIssued)
    case Deliver(idx) =>
      if !InRange(idx, |s.net|) then (s, Raised)
      else
        var m := s.net[Position(idx, |s.net|)];
        if m.dst !in s.reps then (s, Raised)
        else if f.receiver && m.tid in s.reps[m.dst].recvd then (s, Returned(false))
        else
          (s.(reps := s.reps[m.dst := s.reps[m.dst].Receive(m)], received := s.received + {m.tid}),
           Returned(true))
    case Drop(idx) =>
      if !InRange(idx, |s.net|) then (s, Raised)
      else
        var i := Position(idx, |s.net|);
        (s.(net := Without(s.net, i)), Popped(s.net[i]))
  }

  // ---- the same calls as a caller sees them, field by field and message by message ----

  /** A charge id that the replica has applied is answered True and changes nothing. */
  ghost predicate ChargeEffect(
    s: ClusterState, name: Name, amount: int, opid: Opid, s': ClusterState, reply: Reply)
  {
    if name !in s.reps || amount < 0 then reply == Raised && s' == s
    else
      var q := s.reps[name];
      && reply == Returned(opid in q.applied || amount <= q.escrow)
      && (opid in q.applied || amount > q.escrow ==> s' == s)
      && (opid !in q.applied && amount <= q.escrow ==>
            s' == s.(reps := s.reps[name := q.(
              escrow := q.escrow - amount, spent := q.spent + amount,
              applied := q.applied[opid := amount],
              chargeCount := q.chargeCount[opid := CountOf(q.chargeCount, opid) + 1])]))
  }

  /** An accepted issue debits, emits its message last, and fixes the amount of an id that has none. */
  ghost predicate IssueEffect(f: Idempotency, s: ClusterState, m: Message, s': ClusterState, reply: Reply) {
    if m.src !in s.reps || m.amount < 0 then reply == Raised && s' == s
    else
      var q := s.reps[m.src];
      && reply == (if (f.sender && m.tid in q.issued) || m.amount > q.escrow then NotIssued else Issued(m))
      && (reply == NotIssued ==> s' == s)
      && (reply == Issued(m) ==>
            && s'.reps == s.reps[m.src := q.(escrow := q.escrow - m.amount, issued := q.issued[m.tid := m.amount])]
            && s'.net == s.net + [m] && s'.received == s.received
            && s'.tidAmount == if m.tid in s.tidAmount then s.tidAmount else s.tidAmount[m.tid := m.amount])
  }

  /** Message m is delivered: credited unless an idempotent destination knows its id. */
  ghost predicate MessageEffect(f: Idempotency, s: ClusterState, m: Message, s': ClusterState, reply: Reply) {
    if m.dst !in s.reps then reply == Raised && s' == s
    else
      var q := s.reps[m.dst];
      && reply == Returned(!(f.receiver && m.tid in q.recvd))
      && (reply == Returned(false) ==> s' == s)
      && (reply == Returned(true) ==>
            s' == s.(
              reps := s.reps[m.dst := q.(escrow := q.escrow + m.amount, recvd := q.recvd + {m.tid})],
              received := s.received + {m.tid}))
  }

  ghost predicate DeliverEffect(f: Idempotency, s: ClusterState, idx: int, s': ClusterState, reply: Reply) {
    && (!(-|s.net| <= idx < |s.net|) ==> reply == Raised && s' == s)
    && (forall i :: Indexes(idx, i, |s.net|) ==> MessageEffect(f, s, s.net[i], s', reply))
  }

  ghost predicate DropEffect(s: ClusterState, idx: int, s': ClusterState, reply: Reply) {
    && (!(-|s.net| <= idx < |s.net|) ==> reply == Raised && s' == s)
    && (forall i :: Indexes(idx, i, |s.net|) ==>
          reply == Popped(s.net[i]) && IsPopped(s.net, s'.net, i) && s' == s.(net := s'.net))
  }

  ghost predicate Effect(f: Idempotency, s: ClusterState, op: Op, s': ClusterState, reply: Reply) {
    match op
    case Charge(name, amount, opid) => ChargeEffect(s, name, amount, opid, s', reply)
    case Issue(src, dst, amount, tid) => IssueEffect(f, s, Message(src, dst, amount, tid), s', reply)
    case Deliver(idx) => DeliverEffect(f, s, idx, s', reply)
    case Drop(idx) => DropEffect(s, idx, s', reply)
  }

  /** In every state, a call has its effect, and no other outcome does. */
  lemma StepIsEffect(f: Idempotency, s: ClusterState, op: Op, s': ClusterState, reply: Reply)
    ensures Effect(f, s, op, s', reply) <==> (s', reply) == Step(f, s, op)
  {
    if op.Deliver? || op.Drop? {
      var n := |s.net|;
      PositionIndexes(op.idx, n);
      if InRange(op.idx, n) {
        var i := Position(op.idx, n);
        assert Indexes(op.idx, i, n);
        PoppedIsWithout(s.net, s'.net, i);
      }
    }
  }

  // ---- runs ----

  datatype Trace = Empty | Then(prior: Trace, op: Op)

  datatype Setup = Setup(f: Idempotency, shares: map<Name, int>)

  function Genesis(shares: map<Name, int>): ClusterState {
    ClusterState(map r | r in shares :: ReplicaState(shares[r], 0, map[], map[], map[], {}), [], map[], {})
  }

  function Run(c: Setup, tr: Trace): ClusterState {
    match tr
    case Empty => Genesis(c.shares)
    case Then(prior, op) => Step(c.f, Run(c, prior), op).0
  }

  function ReplyOf(c: Setup, prior: Trace, op: Op): Reply {
    Step(c.f, Run(c, prior), op).1
  }

  ghost predicate GoodGenesis(c: Setup, cap: int) {
    && (forall r :: r in c.shares ==> c.shares[r] >= 0)
    && Total(c.shares) == cap
  }

  // ---- the conserved quantity ----

  function Escrows(reps: map<Name, ReplicaState>): map<Name, int> {
    map r | r in reps :: reps[r].escrow
  }

  function Spents(reps: map<Name, ReplicaState>): map<Name, int> {
    map r | r in reps :: reps[r].spent
  }

  ghost function TotalEscrow(s: ClusterState): int {
    Total(Escrows(s.reps))
  }

  ghost function TotalSpent(s: ClusterState): int {
    Total(Spents(s.reps))
  }

  /** Each transfer id sent and not yet credited counts once, at its first amount. */
  ghost function InFlight(s: ClusterState): int {
    Sum(s.tidAmount.Keys - s.received, s.tidAmount)
  }

  ghost function Quantity(s: ClusterState): int {
    TotalSpent(s) + TotalEscrow(s) + InFlight(s)
  }

  /** What check() asserts of a configuration. */
  ghost predicate CheckPasses(f: Idempotency, s: ClusterState, cap: int) {
    && TotalSpent(s) <= cap
    && (f.receiver ==> Quantity(s) <= cap)
    && (f.sender && f.receiver ==> Quantity(s) == cap)
  }

  lemma TotalsAfterPut(reps: map<Name, ReplicaState>, r: Name, q: ReplicaState)
    requires r in reps
    ensures Total(Escrows(reps[r := q])) == Total(Escrows(reps)) - reps[r].escrow + q.escrow
    ensures Total(Spents(reps[r := q])) == Total(Spents(reps)) - reps[r].spent + q.spent
  {
    TotalUpdate(Escrows(reps), r, q.escrow);
    TotalUpdate(Spents(reps), r, q.spent);
    assert Escrows(reps[r := q]) == Escrows(reps)[r := q.escrow];
    assert Spents(reps[r := q]) == Spents(reps)[r := q.spent];
  }

  // ---- the transfers the replicas know ----

  function IssuedTids(reps: map<Name, ReplicaState>): set<Tid> {
    set r, t | r in reps && t in reps[r].issued.Keys :: t
  }

  function RecvdTids(reps: map<Name, ReplicaState>): set<Tid> {
    set r, t | r in reps && t in reps[r].recvd :: t
  }

  lemma IssuedAfterPut(reps: map<Name, ReplicaState>, r: Name, q: ReplicaState, new_: set<Tid>)
    requires r in reps && q.issued.Keys == reps[r].issued.Keys + new_
    ensures IssuedTids(reps[r := q]) == IssuedTids(reps) + new_
  {
    var after := reps[r := q];
    forall t | t in IssuedTids(reps) + new_
      ensures t in IssuedTids(after)
    {
      if t in new_ {
        assert t in after[r].issued.Keys;
      } else {
        var x :| x in reps && t in reps[x].issued.Keys;
        assert t in after[x].issued.Keys;
      }
    }
  }

  lemma RecvdAfterPut(reps: map<Name, ReplicaState>, r: Name, q: ReplicaState, new_: set<Tid>)
    requires r in reps && q.recvd == reps[r].recvd + new_
    ensures RecvdTids(reps[r := q]) == RecvdTids(reps) + new_
  {
    var after := reps[r := q];
    forall t | t in RecvdTids(reps) + new_
      ensures t in RecvdTids(after)
    {
      if t in new_ {
        assert t in after[r].recvd;
      } else {
        var x :| x in reps && t in reps[x].recvd;
        assert t in after[x].recvd;
      }
    }
  }

  lemma GenesisTotals(shares: map<Name, int>)
    ensures TotalEscrow(Genesis(shares)) == Total(shares) && TotalSpent(Genesis(shares)) == 0
    ensures InFlight(Genesis(shares)) == 0
  {
    var s := Genesis(shares);
    assert Escrows(s.reps) == shares;
    SumZero(Spents(s.reps).Keys, Spents(s.reps));
  }
}
