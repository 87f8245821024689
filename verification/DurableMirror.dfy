/**
 The crash/recovery cluster, used without drop(), and the specification spec/EscrowBudgetD.tla simulate
 each other under any setting of the two disciplines: each call stutters or takes one action, and each
 action the specification allows is taken by some call. So the states the specification reaches are exactly
 the states the cluster can be in.
 */
module DurableMirror {
  import opened Lists
  import opened Names
  import opened Sums
  import opened DurableModel
  import C = DurableCertificate

  function AmtOf(k: C.Constants, amtOf: map<Tid, int>): map<Tid, int> {
    map t | t in k.tids :: if t in amtOf then amtOf[t] else 0
  }

  /** What the specification sees of a cluster: the order of the messages is forgotten, and an id that was
      never sent has amount 0. */
  function Abstract(k: C.Constants, s: ClusterState): C.State {
    C.State(s.reps, Elements(s.sent), AmtOf(k, s.amtOf))
  }

  /** The cluster the constants describe. */
  function SetupFor(k: C.Constants): Setup {
    Setup(k.d, map r | r in k.replicas :: if r == k.genesis then k.cap else 0)
  }

  /** The call stays within the constants, and is not a drop. */
  ghost predicate Within(k: C.Constants, op: Op) {
    match op
    case Charge(name, amount) => name in k.replicas && amount in k.amounts
    case Issue(src, dst, amount, tid) =>
      src in k.replicas && dst in k.replicas && tid in k.tids && amount in k.amounts
    case Drop(_) => false
    case _ => true
  }

  ghost predicate AllWithin(k: C.Constants, tr: Trace) {
    tr.Then? ==> AllWithin(k, tr.prior) && Within(k, tr.op)
  }

  /** An id has an amount exactly when it has a message, since none is dropped. */
  ghost predicate InRoster(k: C.Constants, s: ClusterState) {
    && s.reps.Keys == k.replicas
    && s.amtOf.Keys <= k.tids
    && s.amtOf.Keys == SentTids(s.sent)
    && (forall m :: m in s.sent ==> m.dst in k.replicas)
  }

  lemma SentOneMore(sent: seq<Message>, m: Message)
    ensures Elements(sent + [m]) == Elements(sent) + {m}
    ensures SentTids(sent + [m]) == SentTids(sent) + {m.tid}
  {
    assert forall x :: x in sent + [m] <==> x in sent || x == m;
    forall t | t in SentTids(sent) + {m.tid}
      ensures t in SentTids(sent + [m])
    {
      if t == m.tid {
        assert m in sent + [m];
      } else {
        var x :| x in sent && x.tid == t;
        assert x in sent + [m];
      }
    }
  }

  lemma RosterStep(k: C.Constants, s: ClusterState, op: Op)
    requires InRoster(k, s) && Within(k, op)
    ensures InRoster(k, Step(k.d, s, op).0)
  {
    if op.Issue? {
      SentOneMore(s.sent, Message(op.dst, op.tid));
    }
  }

  lemma {:induction false} RosterHolds(k: C.Constants, tr: Trace)
    requires AllWithin(k, tr)
    ensures InRoster(k, Run(SetupFor(k), tr))
  {
    if tr.Then? {
      RosterHolds(k, tr.prior);
      RosterStep(k, Run(SetupFor(k), tr.prior), tr.op);
    }
  }

  // ---- each accepted call is an action, and each action is an accepted call ----

  lemma ChargeIsAction(k: C.Constants, s: ClusterState, r: Name, a: int, x: C.State)
    requires InRoster(k, s) && Within(k, Charge(r, a))
    ensures var (s', reply) := Step(k.d, s, Charge(r, a));
            C.Charges(k, Abstract(k, s), x, r, a) <==> reply == Returned(true) && x == Abstract(k, s')
  {
  }

  lemma IssueIsAction(k: C.Constants, s: ClusterState, i: Name, j: Name, t: Tid, a: int, x: C.State)
    requires InRoster(k, s) && Within(k, Issue(i, j, a, t))
    ensures var (s', reply) := Step(k.d, s, Issue(i, j, a, t));
            C.Sends(k, Abstract(k, s), x, i, j, t, a) <==> reply == Returned(true) && x == Abstract(k, s')
  {
    SentOneMore(s.sent, Message(j, t));
    assert C.Sent(Abstract(k, s)) == SentTids(s.sent);
    assert AmtOf(k, s.amtOf[t := a]) == AmtOf(k, s.amtOf)[t := a];
  }

  lemma DeliverIsAction(k: C.Constants, s: ClusterState, i: nat, x: C.State)
    requires InRoster(k, s) && i < |s.sent|
    ensures var (s', reply) := Step(k.d, s, Deliver(i));
            C.Receives(k, Abstract(k, s), x, s.sent[i]) <==> reply == Returned(true) && x == Abstract(k, s')
  {
    assert s.sent[i] in s.sent;
    assert s.sent[i].tid in SentTids(s.sent);
  }

  lemma PersistIsAction(k: C.Constants, s: ClusterState, r: Name, x: C.State)
    ensures var (s', reply) := Step(k.d, s, Persist(r));
            C.Persists(k, Abstract(k, s), x, r) <==> reply == Done && x == Abstract(k, s')
  {
  }

  lemma CrashIsAction(k: C.Constants, s: ClusterState, r: Name, x: C.State)
    ensures var (s', reply) := Step(k.d, s, Crash(r));
            C.Crashes(k, Abstract(k, s), x, r) <==> reply == Done && x == Abstract(k, s')
  {
  }

  /** A call that is refused or raises changes nothing. */
  lemma RefusedChangesNothing(d: Discipline, s: ClusterState, op: Op)
    requires !op.Drop? && Step(d, s, op).1 != Returned(true) && Step(d, s, op).1 != Done
    ensures Step(d, s, op).0 == s
  {
  }

  /** Every call within the constants stutters or takes an action. */
  lemma CallIsAction(k: C.Constants, tr: Trace, op: Op)
    requires AllWithin(k, Then(tr, op))
    ensures var s, s' := Run(SetupFor(k), tr), Run(SetupFor(k), Then(tr, op));
            s' == s || C.Next(k, Abstract(k, s), Abstract(k, s'))
  {
    RosterHolds(k, tr);
    var s := Run(SetupFor(k), tr);
    var (s', reply) := Step(k.d, s, op);
    var x := Abstract(k, s');
    if reply != Returned(true) && reply != Done {
      RefusedChangesNothing(k.d, s, op);
    } else {
      match op
      case Charge(r, a) => ChargeIsAction(k, s, r, a, x);
      case Issue(i, j, a, t) => IssueIsAction(k, s, i, j, t, a, x);
      case Deliver(idx) => DeliverIsAction(k, s, Position(idx, |s.sent|), x);
      case Persist(r) => PersistIsAction(k, s, r, x);
      case Crash(r) => CrashIsAction(k, s, r, x);
    }
  }

  /** In every state such a run leads to, each action the specification allows is taken by some call. */
  lemma ActionIsCall(k: C.Constants, tr: Trace, x: C.State) returns (op: Op)
    requires AllWithin(k, tr) && C.Next(k, Abstract(k, Run(SetupFor(k), tr)), x)
    ensures Within(k, op) && Abstract(k, Run(SetupFor(k), Then(tr, op))) == x
  {
    RosterHolds(k, tr);
    var s := Run(SetupFor(k), tr);
    var t := Abstract(k, s);
    if r, a :| C.Charges(k, t, x, r, a) {
      ChargeIsAction(k, s, r, a, x);
      op := Charge(r, a);
    } else if i, j, tid, a :| C.Sends(k, t, x, i, j, tid, a) {
      IssueIsAction(k, s, i, j, tid, a, x);
      op := Issue(i, j, a, tid);
    } else if m :| C.Receives(k, t, x, m) {
      var i: nat :| i < |s.sent| && s.sent[i] == m;
      DeliverIsAction(k, s, i, x);
      op := Deliver(i);
    } else if r :| C.Persists(k, t, x, r) {
      PersistIsAction(k, s, r, x);
      op := Persist(r);
    } else {
      var r :| C.Crashes(k, t, x, r);
      CrashIsAction(k, s, r, x);
      op := Crash(r);
    }
  }

  // ---- the same reachable states ----

  ghost predicate Reachable(k: C.Constants, x: C.State) {
    exists n: nat :: C.ReachedIn(k, n, x)
  }

  lemma InitAbstract(k: C.Constants, x: C.State)
    ensures C.Init(k, x) <==> x == Abstract(k, Run(SetupFor(k), Empty))
  {
    var s := Run(SetupFor(k), Empty);
    assert Elements(s.sent) == {};
    assert AmtOf(k, s.amtOf) == map t | t in k.tids :: 0;
  }

  lemma {:induction false} RunIsReachable(k: C.Constants, tr: Trace)
    requires AllWithin(k, tr)
    ensures Reachable(k, Abstract(k, Run(SetupFor(k), tr)))
  {
    var x := Abstract(k, Run(SetupFor(k), tr));
    if tr.Empty? {
      InitAbstract(k, x);
      assert C.ReachedIn(k, 0, x);
    } else {
      RunIsReachable(k, tr.prior);
      CallIsAction(k, tr.prior, tr.op);
      var x0 := Abstract(k, Run(SetupFor(k), tr.prior));
      var n: nat :| C.ReachedIn(k, n, x0);
      if x != x0 {
        assert C.ReachedIn(k, n + 1, x);
      }
    }
  }

  lemma {:induction false} ReachedIsRun(k: C.Constants, n: nat, x: C.State) returns (tr: Trace)
    requires C.ReachedIn(k, n, x)
    ensures AllWithin(k, tr) && Abstract(k, Run(SetupFor(k), tr)) == x
  {
    if n == 0 {
      tr := Empty;
      InitAbstract(k, x);
    } else {
      var x0 :| C.ReachedIn(k, n - 1, x0) && C.Next(k, x0, x);
      var prior := ReachedIsRun(k, n - 1, x0);
      var op := ActionIsCall(k, prior, x);
      tr := Then(prior, op);
    }
  }

  /** The reachable states of the specification are exactly the states that runs without a drop lead to. */
  lemma SameReachableStates(k: C.Constants, x: C.State)
    ensures Reachable(k, x) <==> exists tr :: AllWithin(k, tr) && Abstract(k, Run(SetupFor(k), tr)) == x
  {
    if Reachable(k, x) {
      var n: nat :| C.ReachedIn(k, n, x);
      var tr := ReachedIsRun(k, n, x);
    }
    forall tr | AllWithin(k, tr) && Abstract(k, Run(SetupFor(k), tr)) == x
      ensures Reachable(k, x)
    {
      RunIsReachable(k, tr);
    }
  }

  /** So the certificate of the specification holds of the implementation. */
  lemma CertificateOfRuns(k: C.Constants, tr: Trace)
    requires C.Assumptions(k) && k.d.Full() && AllWithin(k, tr)
    ensures C.Certificate(k, Abstract(k, Run(SetupFor(k), tr)))
  {
    RunIsReachable(k, tr);
    var n: nat :| C.ReachedIn(k, n, Abstract(k, Run(SetupFor(k), tr)));
    C.CertificateHolds(k, n, Abstract(k, Run(SetupFor(k), tr)));
  }
}
