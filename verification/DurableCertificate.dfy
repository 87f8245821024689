/**
 The crash/recovery specification spec/EscrowBudgetD.tla, as relations between states, and, with both
 disciplines on, its five-conjunct certificate. The repository certifies it at two replicas and one transfer
 id; here it is inductive for every finite roster, every set of ids, every set of amounts, and every cap.

 The specification has no drop action: its message set only grows. See DurableHistory.AddressedIff for
 what drop() does to the conjunct about addresses. With all other calls the implementation mirrors the
 specification, under any disciplines: see DurableMirror.
 */
module DurableCertificate {
  import opened Names
  import opened Sums
  import opened DurableModel

  /** CONSTANTS, the two disciplines as d; genesis stands for the CHOOSE in the specification. */
  datatype Constants = Constants(
    replicas: set<Name>, genesis: Name, cap: int, tids: set<Tid>, amounts: iset<int>, d: Discipline)

  ghost predicate Assumptions(k: Constants) {
    && k.genesis in k.replicas && k.cap >= 0
    && (forall a :: a in k.amounts ==> a > 0)
  }

  /** The six functions on replicas are kept as one function to their six values. */
  datatype State = State(reps: map<Name, ReplicaState>, sentMsgs: set<Message>, amtOf: map<Tid, int>)

  ghost predicate TypeOK(k: Constants, s: State) {
    && s.reps.Keys == k.replicas
    && (forall r :: r in s.reps ==>
          var q := s.reps[r];
          && q.escrow >= 0 && q.spent >= 0 && q.recvd <= k.tids
          && q.dEscrow >= 0 && q.dSpent >= 0 && q.dRecvd <= k.tids)
    && (forall m :: m in s.sentMsgs ==> m.dst in k.replicas && m.tid in k.tids)
    && s.amtOf.Keys == k.tids && (forall t :: t in s.amtOf ==> s.amtOf[t] >= 0)
  }

  // ---- derived quantities ----

  function Sent(s: State): set<Tid> {
    set m | m in s.sentMsgs :: m.tid
  }

  function DCredited(reps: map<Name, ReplicaState>): set<Tid> {
    set r, t | r in reps && t in reps[r].dRecvd :: t
  }

  ghost function SafetyQuantity(s: State): int {
    Total(Spents(s.reps)) + Total(Escrows(s.reps)) + Sum(Sent(s) - Credited(s.reps), s.amtOf)
  }

  ghost function DurableQuantity(s: State): int {
    Total(DSpents(s.reps)) + Total(DEscrows(s.reps)) + Sum(Sent(s) - DCredited(s.reps), s.amtOf)
  }

  // ---- actions ----

  ghost predicate Init(k: Constants, s: State) {
    && s.reps == (map r | r in k.replicas ::
          var e := if r == k.genesis then k.cap else 0;
          ReplicaState(e, 0, {}, e, 0, {}))
    && s.sentMsgs == {}
    && s.amtOf == map t | t in k.tids :: 0
  }

  ghost predicate Charges(k: Constants, s: State, s': State, r: Name, a: int) {
    && r in s.reps && a in k.amounts && a <= s.reps[r].escrow
    && var q := s.reps[r];
       s' == s.(reps := s.reps[r := q.(escrow := q.escrow - a, spent := q.spent + a)])
  }

  ghost predicate Sends(k: Constants, s: State, s': State, i: Name, j: Name, t: Tid, a: int) {
    && i in s.reps && j in k.replicas && t in k.tids && a in k.amounts
    && t !in Sent(s) && a <= s.reps[i].escrow
    && var q := s.reps[i];
       s' == State(s.reps[i := q.(escrow := q.escrow - a,
                                  dEscrow := if k.d.debitDurableBeforeSend then q.escrow - a else q.dEscrow)],
                   s.sentMsgs + {Message(j, t)}, s.amtOf[t := a])
  }

  ghost predicate Receives(k: Constants, s: State, s': State, m: Message) {
    && m in s.sentMsgs && m.dst in s.reps && m.tid in s.amtOf && m.tid !in s.reps[m.dst].recvd
    && var q := s.reps[m.dst];
       var more, seen := q.escrow + s.amtOf[m.tid], q.recvd + {m.tid};
       s' == s.(reps := s.reps[m.dst := q.(escrow := more, recvd := seen, dEscrow := more,
                                           dRecvd := if k.d.recvdDurable then seen else q.dRecvd)])
  }

  ghost predicate Persists(k: Constants, s: State, s': State, r: Name) {
    && r in s.reps
    && var q := s.reps[r];
       s' == s.(reps := s.reps[r := q.(dEscrow := q.escrow, dSpent := q.spent,
                                       dRecvd := if k.d.recvdDurable then q.recvd else q.dRecvd)])
  }

  ghost predicate Crashes(k: Constants, s: State, s': State, r: Name) {
    && r in s.reps
    && var q := s.reps[r];
       s' == s.(reps := s.reps[r := q.(escrow := q.dEscrow, spent := q.dSpent,
                                       recvd := if k.d.recvdDurable then q.dRecvd else {})])
  }

  ghost predicate Next(k: Constants, s: State, s': State) {
    || (exists r, a :: Charges(k, s, s', r, a))
    || (exists i, j, t, a :: Sends(k, s, s', i, j, t, a))
    || (exists m :: Receives(k, s, s', m))
    || (exists r :: Persists(k, s, s', r))
    || (exists r :: Crashes(k, s, s', r))
  }

  // ---- the five conjuncts ----

  ghost predicate TidUnique(s: State) {
    forall m, n :: m in s.sentMsgs && n in s.sentMsgs && m.tid == n.tid ==> m == n
  }

  ghost predicate DRecvdAddressed(s: State) {
    forall r, t :: r in s.reps && t in s.reps[r].dRecvd ==> Message(r, t) in s.sentMsgs
  }

  ghost predicate DRecvdEqRecvd(s: State) {
    forall r :: r in s.reps ==> s.reps[r].dRecvd == s.reps[r].recvd
  }

  ghost predicate DurableEscrowGe(s: State) {
    forall r :: r in s.reps ==> s.reps[r].dEscrow >= s.reps[r].escrow
  }

  ghost predicate LagOrder(s: State) {
    forall r :: r in s.reps ==> s.reps[r].dEscrow + s.reps[r].dSpent <= s.reps[r].escrow + s.reps[r].spent
  }

  ghost predicate Certificate(k: Constants, s: State) {
    && TypeOK(k, s) && SafetyQuantity(s) <= k.cap
    && TidUnique(s) && DRecvdAddressed(s) && DRecvdEqRecvd(s) && DurableEscrowGe(s) && LagOrder(s)
  }

  // ---- the certificate is inductive ----

  lemma CertificateInit(k: Constants, s: State)
    requires Assumptions(k) && Init(k, s)
    ensures Certificate(k, s)
  {
    var escrows := Escrows(s.reps);
    SumPick(escrows.Keys, escrows, k.genesis);
    SumZero(escrows.Keys - {k.genesis}, escrows);
    SumZero(Spents(s.reps).Keys, Spents(s.reps));
    assert Sent(s) - Credited(s.reps) == {};
  }

  /** Replacing a replica without touching its dedup set moves the quantity by that replica's change. */
  lemma QuantityLocal(s: State, r: Name, q: ReplicaState)
    requires r in s.reps && q.recvd == s.reps[r].recvd
    ensures SafetyQuantity(s.(reps := s.reps[r := q])) ==
            SafetyQuantity(s) - (s.reps[r].escrow + s.reps[r].spent) + (q.escrow + q.spent)
  {
    TotalsAfterPut(s.reps, r, q);
    CreditedAfterPut(s.reps, r, q, {});
    assert Credited(s.reps) + {} == Credited(s.reps);
  }

  lemma QuantitySend(k: Constants, s: State, s': State, i: Name, j: Name, t: Tid, a: int)
    requires Sends(k, s, s', i, j, t, a) && a >= 0
    ensures SafetyQuantity(s') <= SafetyQuantity(s)
  {
    QuantityLocal(s, i, s'.reps[i]);
    CreditedAfterPut(s.reps, i, s'.reps[i], {});
    assert Credited(s'.reps) == Credited(s.reps);
    var open := Sent(s) - Credited(s.reps);
    assert Sent(s') == Sent(s) + {t} by {
      assert Message(j, t) in s'.sentMsgs;
    }
    SumAgree(open, s.amtOf, s'.amtOf);
    if t in Credited(s.reps) {
      assert Sent(s') - Credited(s'.reps) == open;
    } else {
      assert Sent(s') - Credited(s'.reps) == open + {t};
      SumInsert(open, s'.amtOf, t);
    }
  }

  lemma QuantityReceive(k: Constants, s: State, s': State, m: Message)
    requires TidUnique(s) && DRecvdAddressed(s) && DRecvdEqRecvd(s) && Receives(k, s, s', m)
    ensures SafetyQuantity(s') == SafetyQuantity(s)
  {
    TotalsAfterPut(s.reps, m.dst, s'.reps[m.dst]);
    CreditedAfterPut(s.reps, m.dst, s'.reps[m.dst], {m.tid});
    var open := Sent(s) - Credited(s.reps);
    assert m.tid in open;
    assert Sent(s') - Credited(s'.reps) == open - {m.tid};
    SumPick(open, s.amtOf, m.tid);
  }

  lemma CertificateSend(k: Constants, s: State, s': State, i: Name, j: Name, t: Tid, a: int)
    requires Assumptions(k) && k.d.Full() && Certificate(k, s) && Sends(k, s, s', i, j, t, a)
    ensures Certificate(k, s')
  {
    QuantitySend(k, s, s', i, j, t, a);
    assert forall m :: m in s.sentMsgs ==> m.tid in Sent(s);
  }

  /** Charge, persist and crash: one replica changes, keeps its dedup sets, and holds no more than before. */
  lemma CertificateLocal(k: Constants, s: State, r: Name, q: ReplicaState)
    requires Certificate(k, s) && r in s.reps
    requires q.recvd == q.dRecvd == s.reps[r].recvd
    requires 0 <= q.escrow <= q.dEscrow && 0 <= q.spent && 0 <= q.dSpent
    requires q.dEscrow + q.dSpent <= q.escrow + q.spent <= s.reps[r].escrow + s.reps[r].spent
    ensures Certificate(k, s.(reps := s.reps[r := q]))
  {
    QuantityLocal(s, r, q);
  }

  lemma CertificateReceive(k: Constants, s: State, s': State, m: Message)
    requires k.d.Full() && Certificate(k, s) && Receives(k, s, s', m)
    ensures Certificate(k, s')
  {
    QuantityReceive(k, s, s', m);
  }

  lemma CertificateStep(k: Constants, s: State, s': State)
    requires Assumptions(k) && k.d.Full() && Certificate(k, s) && Next(k, s, s')
    ensures Certificate(k, s')
  {
    if r, a :| Charges(k, s, s', r, a) {
      CertificateLocal(k, s, r, s'.reps[r]);
    } else if i, j, t, a :| Sends(k, s, s', i, j, t, a) {
      CertificateSend(k, s, s', i, j, t, a);
    } else if m :| Receives(k, s, s', m) {
      CertificateReceive(k, s, s', m);
    } else if r :| Persists(k, s, s', r) {
      CertificateLocal(k, s, r, s'.reps[r]);
    } else {
      var r :| Crashes(k, s, s', r);
      CertificateLocal(k, s, r, s'.reps[r]);
    }
  }

  /** s ends a behaviour of n steps. */
  ghost predicate ReachedIn(k: Constants, n: nat, s: State) {
    if n == 0 then Init(k, s) else exists s0 :: ReachedIn(k, n - 1, s0) && Next(k, s0, s)
  }

  /** The certificate holds in every reachable state. */
  lemma {:induction false} CertificateHolds(k: Constants, n: nat, s: State)
    requires Assumptions(k) && k.d.Full() && ReachedIn(k, n, s)
    ensures Certificate(k, s)
  {
    if n == 0 {
      CertificateInit(k, s);
    } else {
      var s0 :| ReachedIn(k, n - 1, s0) && Next(k, s0, s);
      CertificateHolds(k, n - 1, s0);
      CertificateStep(k, s0, s);
    }
  }

  // ---- what the five conjuncts imply ----

  ghost predicate RecvdOnlyAddressed(s: State) {
    forall r, t :: r in s.reps && t in s.reps[r].recvd ==> Message(r, t) in s.sentMsgs
  }

  ghost predicate DurableSpentLe(s: State) {
    forall r :: r in s.reps ==> s.reps[r].dSpent <= s.reps[r].spent
  }

  /** The further conjuncts on addresses and on the durable side follow from the five, and so does the cap. */
  lemma CertificateImplies(k: Constants, s: State)
    requires Certificate(k, s)
    ensures RecvdOnlyAddressed(s) && DurableSpentLe(s)
    ensures DurableQuantity(s) <= k.cap
    ensures Total(Spents(s.reps)) <= k.cap
  {
    var R := s.reps.Keys;
    assert Spents(s.reps).Keys == Escrows(s.reps).Keys == DSpents(s.reps).Keys == DEscrows(s.reps).Keys == R;
    var held := map r | r in R :: s.reps[r].escrow + s.reps[r].spent;
    var dHeld := map r | r in R :: s.reps[r].dEscrow + s.reps[r].dSpent;
    SumAdd(R, Escrows(s.reps), Spents(s.reps), held);
    SumAdd(R, DEscrows(s.reps), DSpents(s.reps), dHeld);
    SumLe(R, dHeld, held);
    assert DCredited(s.reps) == Credited(s.reps);
    SumNonNegative(R, Escrows(s.reps));
    SumNonNegative(Sent(s) - Credited(s.reps), s.amtOf);
  }

  // ---- none of the five can be left out ----

  datatype Conjunct = CTidUnique | CDRecvdAddressed | CDRecvdEqRecvd | CDurableEscrowGe | CLagOrder

  /** The certificate with one conjunct left out. */
  ghost predicate Without(c: Conjunct, k: Constants, s: State) {
    && TypeOK(k, s) && SafetyQuantity(s) <= k.cap
    && (c.CTidUnique? || TidUnique(s))
    && (c.CDRecvdAddressed? || DRecvdAddressed(s))
    && (c.CDRecvdEqRecvd? || DRecvdEqRecvd(s))
    && (c.CDurableEscrowGe? || DurableEscrowGe(s))
    && (c.CLagOrder? || LagOrder(s))
  }

  const TWO_REPLICAS := Constants({"a", "b"}, "a", 2, {"t"}, iset{1}, Discipline(true, true))

  function TwoReplicas(a: ReplicaState, b: ReplicaState, sentMsgs: set<Message>): State {
    State(map["a" := a, "b" := b], sentMsgs, map["t" := 1])
  }

  lemma TwoReplicasQuantity(a: ReplicaState, b: ReplicaState, sentMsgs: set<Message>)
    requires sentMsgs <= {Message("a", "t"), Message("b", "t")}
    ensures var s := TwoReplicas(a, b, sentMsgs);
            var open := sentMsgs != {} && "t" !in a.recvd + b.recvd;
            SafetyQuantity(s) == a.escrow + a.spent + b.escrow + b.spent + if open then 1 else 0
  {
    var s := TwoReplicas(a, b, sentMsgs);
    var escrows, spents := Escrows(s.reps), Spents(s.reps);
    assert escrows.Keys == spents.Keys == {"a", "b"};
    SumPick({"a", "b"}, escrows, "a");
    SumPick({"a", "b"}, spents, "a");
    assert {"a", "b"} - {"a"} == {"b"};
    SumPick({"b"}, escrows, "b");
    SumPick({"b"}, spents, "b");
    assert "t" in Credited(s.reps) <==> "t" in s.reps["a"].recvd || "t" in s.reps["b"].recvd;
    if sentMsgs != {} && "t" !in a.recvd + b.recvd {
      var m :| m in sentMsgs;
      assert m.tid in Sent(s);
      assert Sent(s) - Credited(s.reps) == {"t"};
      SumPick({"t"}, s.amtOf, "t");
    } else {
      assert Sent(s) - Credited(s.reps) == {};
    }
  }

  /** A counterexample to induction for the certificate without c: the state before, and the one after. */
  function Counterexample(c: Conjunct): (State, State) {
    var toA, toB := Message("a", "t"), Message("b", "t");
    var empty := ReplicaState(0, 0, {}, 0, 0, {});
    var received := ReplicaState(1, 0, {"t"}, 1, 0, {"t"});
    var full := ReplicaState(2, 0, {}, 2, 0, {});
    match c
    case CTidUnique =>
      // one id, two messages: credited at a, and again at b
      var a := full.(recvd := {"t"}, dRecvd := {"t"});
      (TwoReplicas(a, empty, {toA, toB}), TwoReplicas(a, received, {toA, toB}))
    case CDRecvdAddressed =>
      // credited at a, but sent to b
      var a := full.(recvd := {"t"}, dRecvd := {"t"});
      (TwoReplicas(a, empty, {toB}), TwoReplicas(a, received, {toB}))
    case CDRecvdEqRecvd =>
      // the crash of a forgets a credit
      (TwoReplicas(full.(recvd := {"t"}), empty, {toA}), TwoReplicas(full, empty, {toA}))
    case CDurableEscrowGe =>
      // sending from a leaves the durable side ahead of the volatile one
      var a := ReplicaState(1, 0, {}, 0, 1, {});
      (TwoReplicas(a, empty, {}), TwoReplicas(a.(escrow := 0), empty, {toA}))
    case CLagOrder =>
      // the crash of a installs more than it held
      var a := ReplicaState(0, 0, {}, 2, 1, {});
      (TwoReplicas(a, empty, {}), TwoReplicas(a.(escrow := 2, spent := 1), empty, {}))
  }

  lemma TwoReplicasTypeOK(a: ReplicaState, b: ReplicaState, sentMsgs: set<Message>)
    requires sentMsgs <= {Message("a", "t"), Message("b", "t")}
    requires forall q :: q in {a, b} ==>
               && q.escrow >= 0 && q.spent >= 0 && q.recvd <= {"t"}
               && q.dEscrow >= 0 && q.dSpent >= 0 && q.dRecvd <= {"t"}
    ensures TypeOK(TWO_REPLICAS, TwoReplicas(a, b, sentMsgs))
  {
  }

  /** The conjuncts, spelled out at two replicas. */
  lemma TwoReplicasConjuncts(a: ReplicaState, b: ReplicaState, sentMsgs: set<Message>)
    requires sentMsgs <= {Message("a", "t"), Message("b", "t")}
    ensures var s := TwoReplicas(a, b, sentMsgs);
            && (TidUnique(s) <==> !({Message("a", "t"), Message("b", "t")} <= sentMsgs))
            && (DRecvdAddressed(s) <==>
                  && (forall t :: t in a.dRecvd ==> Message("a", t) in sentMsgs)
                  && (forall t :: t in b.dRecvd ==> Message("b", t) in sentMsgs))
            && (DRecvdEqRecvd(s) <==> a.dRecvd == a.recvd && b.dRecvd == b.recvd)
            && (DurableEscrowGe(s) <==> a.dEscrow >= a.escrow && b.dEscrow >= b.escrow)
            && (LagOrder(s) <==>
                  && a.dEscrow + a.dSpent <= a.escrow + a.spent
                  && b.dEscrow + b.dSpent <= b.escrow + b.spent)
  {
  }

  lemma CounterexampleBefore(c: Conjunct)
    ensures Without(c, TWO_REPLICAS, Counterexample(c).0)
  {
    var s := Counterexample(c).0;
    var a, b := s.reps["a"], s.reps["b"];
    assert s == TwoReplicas(a, b, s.sentMsgs);
    TwoReplicasTypeOK(a, b, s.sentMsgs);
    TwoReplicasQuantity(a, b, s.sentMsgs);
    TwoReplicasConjuncts(a, b, s.sentMsgs);
  }

  lemma CounterexampleStep(c: Conjunct)
    ensures Next(TWO_REPLICAS, Counterexample(c).0, Counterexample(c).1)
  {
    var (s, s') := Counterexample(c);
    assert s.reps["b"].recvd + {"t"} == {"t"};
    match c
    case CTidUnique => assert Receives(TWO_REPLICAS, s, s', Message("b", "t"));
    case CDRecvdAddressed => assert Receives(TWO_REPLICAS, s, s', Message("b", "t"));
    case CDRecvdEqRecvd => assert Crashes(TWO_REPLICAS, s, s', "a");
    case CDurableEscrowGe =>
      assert s.amtOf["t" := 1] == s.amtOf;
      assert Sends(TWO_REPLICAS, s, s', "a", "a", "t", 1);
    case CLagOrder => assert Crashes(TWO_REPLICAS, s, s', "a");
  }

  lemma CounterexampleAfter(c: Conjunct)
    ensures !Without(c, TWO_REPLICAS, Counterexample(c).1)
  {
    var s' := Counterexample(c).1;
    TwoReplicasQuantity(s'.reps["a"], s'.reps["b"], s'.sentMsgs);
    assert c.CDurableEscrowGe? ==> !LagOrder(s') by {
      assert "a" in s'.reps;
    }
  }

  /** Leaving any one conjunct out leaves a certificate that is not inductive. */
  lemma EveryConjunctNeeded(c: Conjunct)
    ensures exists k, s, s' ::
              Assumptions(k) && k.d.Full() && Without(c, k, s) && Next(k, s, s') && !Without(c, k, s')
  {
    var (s, s') := Counterexample(c);
    CounterexampleBefore(c);
    CounterexampleStep(c);
    CounterexampleAfter(c);
  }
}
