/**
 The crash/recovery cluster as it is written: replicas and a cluster whose fields the calls update in
 place. Each method is proved to do to its object exactly what DurableModel.Step does to the value,
 and every cluster carries, as ghost state, the run that led to it, so that each theorem about runs
 is a theorem about the object.
 */
module DurableCluster {
  import opened Lists
  import opened Names
  import opened Sums
  import opened DurableModel
  import DurableSafety

  class DurableReplica {
    const name: Name
    const d: Discipline
    var escrow: int
    var spent: int
    var recvd: set<Tid>
    var dEscrow: int
    var dSpent: int
    var dRecvd: set<Tid>

    function View(): ReplicaState
      reads this
    {
      ReplicaState(escrow, spent, recvd, dEscrow, dSpent, dRecvd)
    }

    constructor (name: Name, escrow: int, d: Discipline)
      ensures View() == ReplicaState(escrow, 0, {}, escrow, 0, {}) && this.name == name && this.d == d
    {
      this.name, this.d := name, d;
      this.escrow, this.spent, this.recvd := escrow, 0, {};
      this.dEscrow, this.dSpent, this.dRecvd := escrow, 0, {};
    }

    method Charge(amount: int) returns (ok: bool)
      modifies this
      ensures ok == (amount <= old(escrow))
      ensures ok ==> View() == old(View()).(escrow := old(escrow) - amount, spent := old(spent) + amount)
      ensures !ok ==> View() == old(View())
    {
      if amount <= escrow {
        escrow := escrow - amount;
        spent := spent + amount;
        return true;
      }
      return false;
    }

    method DebitForSend(amount: int) returns (ok: bool)
      modifies this
      ensures ok == (amount <= old(escrow))
      ensures ok && d.debitDurableBeforeSend ==>
                View() == old(View()).(escrow := old(escrow) - amount, dEscrow := old(escrow) - amount)
      ensures ok && !d.debitDurableBeforeSend ==> View() == old(View()).(escrow := old(escrow) - amount)
      ensures !ok ==> View() == old(View())
    {
      if amount <= escrow {
        escrow := escrow - amount;
        if d.debitDurableBeforeSend {
          dEscrow := escrow;
        }
        return true;
      }
      return false;
    }

    method Credit(tid: Tid, amount: int) returns (ok: bool)
      modifies this
      ensures ok == (tid !in old(recvd))
      ensures ok ==> escrow == dEscrow == old(escrow) + amount
      ensures ok ==> recvd == old(recvd) + {tid} && dRecvd == if d.recvdDurable then recvd else old(dRecvd)
      ensures ok ==> spent == old(spent) && dSpent == old(dSpent)
      ensures !ok ==> View() == old(View())
    {
      if tid in recvd {
        return false;
      }
      escrow := escrow + amount;
      recvd := recvd + {tid};
      dEscrow := escrow;
      if d.recvdDurable {
        dRecvd := recvd;
      }
      return true;
    }

    method Persist()
      modifies this
      ensures (escrow, spent, recvd) == old((escrow, spent, recvd))
      ensures dEscrow == escrow && dSpent == spent && dRecvd == if d.recvdDurable then recvd else old(dRecvd)
    {
      dEscrow := escrow;
      dSpent := spent;
      if d.recvdDurable {
        dRecvd := recvd;
      }
    }

    method Crash()
      modifies this
      ensures (dEscrow, dSpent, dRecvd) == old((dEscrow, dSpent, dRecvd))
      ensures escrow == dEscrow && spent == dSpent && recvd == if d.recvdDurable then dRecvd else {}
    {
      escrow := dEscrow;
      spent := dSpent;
      recvd := if d.recvdDurable then dRecvd else {};
    }
  }

  /** The outcome of check(): which of its two assertions fails first, if any. */
  datatype CheckResult = Pass | CapBreached | SafetyLeBroken

  class DurableCluster {
    const cap: int
    const d: Discipline
    const replicas: map<Name, DurableReplica>
    var sentMsgs: seq<Message>
    var amtOf: map<Tid, int>

    // The shares this cluster was set up with, and the calls made on it so far.
    ghost const shares: map<Name, int>
    ghost var trace: Trace

    ghost predicate Wired() {
      forall n :: n in replicas ==> replicas[n].d == d && replicas[n].name == n
    }

    function Reps(): map<Name, ReplicaState>
      reads replicas.Values
    {
      map n | n in replicas :: replicas[n].View()
    }

    function View(): ClusterState
      reads this, replicas.Values
    {
      ClusterState(Reps(), sentMsgs, amtOf)
    }

    ghost function SetupOf(): Setup {
      Setup(d, shares)
    }

    /** Each object stands under its own name, so they are distinct, and the state is the one its run leads to. */
    ghost predicate Valid()
      reads this, replicas.Values
    {
      Wired() && View() == Run(SetupOf(), trace)
    }

    /** Exactly this call happened: it had its effect, the state and the reply are those of the model, and
        it is on record. */
    twostate predicate Did(op: Op, reply: Reply)
      reads this, replicas.Values
    {
      && Valid() && Effect(d, old(View()), op, View(), reply)
      && View() == Step(d, old(View()), op).0 && reply == Step(d, old(View()), op).1
      && trace == Then(old(trace), op)
    }

    /** This call happened if it had its effect on the state and is on record. */
    twostate lemma Happened(new op: Op, new reply: Reply)
      requires old(Valid()) && Wired() && trace == Then(old(trace), op)
      requires Effect(d, old(View()), op, View(), reply)
      ensures Did(op, reply)
    {
      StepIsEffect(d, old(View()), op, View(), reply);
    }

    /** When one replica at most has changed, the view has changed at that replica at most. */
    twostate lemma OneReplicaChanged(name: Name)
      requires Wired() && name in replicas
      requires forall n :: n in replicas && n != name ==> unchanged(replicas[n])
      ensures old(Reps())[name] == old(replicas[name].View())
      ensures Reps() == old(Reps())[name := replicas[name].View()]
      ensures replicas[name].View() == old(replicas[name].View()) ==> Reps() == old(Reps())
    {
      assert Reps() == old(Reps())[name := replicas[name].View()];
      if replicas[name].View() == old(replicas[name].View()) {
        assert Reps() == old(Reps());
      }
    }

    /** Disciplined, with a good genesis, and no negative amount asked for so far. */
    ghost predicate WithinPromise()
      reads this
    {
      d.Full() && GoodGenesis(SetupOf(), cap) && NonNegative(trace)
    }

    constructor (shares: map<Name, int>, cap: int, d: Discipline)
      ensures Valid() && this.cap == cap && this.d == d && this.shares == shares && trace == Empty
      ensures fresh(replicas.Values) && sentMsgs == [] && amtOf == map[]
      ensures Reps() == map n | n in shares :: ReplicaState(shares[n], 0, {}, shares[n], 0, {})
    {
      this.cap := cap;
      this.d := d;
      this.shares := shares;
      sentMsgs := [];
      amtOf := map[];
      trace := Empty;
      var made: map<Name, DurableReplica> := map[];
      var todo := shares.Keys;
      while todo != {}
        invariant made.Keys == shares.Keys - todo && todo <= shares.Keys
        invariant forall n :: n in made ==> fresh(made[n])
        invariant forall n :: n in made ==>
                    && made[n].d == d && made[n].name == n
                    && made[n].View() == ReplicaState(shares[n], 0, {}, shares[n], 0, {})
        decreases todo
      {
        var n :| n in todo;
        var r := new DurableReplica(n, shares[n], d);
        made := made[n := r];
        todo := todo - {n};
      }
      replicas := made;
      new;
      assert View() == Genesis(shares);
    }

    // ---- the conserved quantity, computed ----

    method TotalEscrow() returns (sum: int)
      requires Valid()
      ensures sum == DurableModel.TotalEscrow(View())
    {
      sum := 0;
      var todo := replicas.Keys;
      ghost var m := Escrows(View().reps);
      assert m.Keys == replicas.Keys;
      while todo != {}
        invariant todo <= replicas.Keys
        invariant sum + Sum(todo, m) == Total(m)
        decreases todo
      {
        var n :| n in todo;
        SumPick(todo, m, n);
        sum := sum + replicas[n].escrow;
        todo := todo - {n};
      }
    }

    method TotalSpent() returns (sum: int)
      requires Valid()
      ensures sum == DurableModel.TotalSpent(View())
    {
      sum := 0;
      var todo := replicas.Keys;
      ghost var m := Spents(View().reps);
      assert m.Keys == replicas.Keys;
      while todo != {}
        invariant todo <= replicas.Keys
        invariant sum + Sum(todo, m) == Total(m)
        decreases todo
      {
        var n :| n in todo;
        SumPick(todo, m, n);
        sum := sum + replicas[n].spent;
        todo := todo - {n};
      }
    }

    method CreditedTids() returns (credited: set<Tid>)
      requires Valid()
      ensures credited == Credited(View().reps)
    {
      credited := {};
      var todo := replicas.Keys;
      while todo != {}
        invariant todo <= replicas.Keys
        invariant forall t :: t in credited <==> exists n :: n in replicas.Keys - todo && t in replicas[n].recvd
        decreases todo
      {
        var n :| n in todo;
        credited := credited + replicas[n].recvd;
        todo := todo - {n};
      }
      forall t
        ensures t in credited <==> t in Credited(View().reps)
      {
        if t in credited {
          var n :| n in replicas && t in replicas[n].recvd;
          assert t in View().reps[n].recvd;
        }
        if t in Credited(View().reps) {
          var n :| n in View().reps && t in View().reps[n].recvd;
          assert t in replicas[n].recvd;
        }
      }
    }

    method InFlight() returns (sum: int)
      requires Valid()
      ensures sum == DurableModel.InFlight(View())
    {
      var credited := CreditedTids();
      var sentTids := set m | m in sentMsgs :: m.tid;
      var todo := sentTids - credited;
      MessagesHaveAmounts(SetupOf(), trace);
      sum := 0;
      while todo != {}
        invariant todo <= sentTids
        invariant sum + Sum(todo, amtOf) == DurableModel.InFlight(View())
        decreases todo
      {
        var t :| t in todo;
        SumPick(todo, amtOf, t);
        sum := sum + amtOf[t];
        todo := todo - {t};
      }
    }

    method Quantity() returns (sum: int)
      requires Valid()
      ensures sum == DurableModel.Quantity(View())
    {
      var spent := TotalSpent();
      var escrow := TotalEscrow();
      var inFlight := InFlight();
      return spent + escrow + inFlight;
    }

    lemma PromiseKept()
      requires Valid() && WithinPromise()
      ensures CheckPasses(d, View(), cap)
    {
      DurableSafety.Safety(SetupOf(), trace, cap);
    }

    /** check(): which of its assertions fails first, the one on the quantity being made of a disciplined
        cluster only. It passes always when the cluster is within what it promises. */
    method Check() returns (r: CheckResult)
      requires Valid()
      ensures r == Pass <==> CheckPasses(d, View(), cap)
      ensures r == CapBreached <==> DurableModel.TotalSpent(View()) > cap
      ensures r == SafetyLeBroken <==>
                && DurableModel.TotalSpent(View()) <= cap
                && d.debitDurableBeforeSend && d.recvdDurable && DurableModel.Quantity(View()) > cap
      ensures WithinPromise() ==> r == Pass
    {
      if WithinPromise() {
        PromiseKept();
      }
      var spent := TotalSpent();
      if spent > cap {
        return CapBreached;
      }
      if d.debitDurableBeforeSend && d.recvdDurable {
        var quantity := Quantity();
        if quantity > cap {
          return SafetyLeBroken;
        }
      }
      return Pass;
    }

    // ---- operations ----

    method Charge(name: Name, amount: int) returns (reply: Reply)
      requires Valid()
      modifies this`trace, replicas.Values
      ensures Did(Op.Charge(name, amount), reply)
      ensures ChargeEffect(old(View()), name, amount, View(), reply)
    {
      trace := Then(trace, Op.Charge(name, amount));
      reply := Raised;
      if name in replicas {
        var ok := replicas[name].Charge(amount);
        OneReplicaChanged(name);
        reply := Returned(ok);
      }
      Happened(Op.Charge(name, amount), reply);
    }

    method Issue(src: Name, dst: Name, amount: int, tid: Tid) returns (reply: Reply)
      requires Valid()
      modifies this, replicas.Values
      ensures Did(Op.Issue(src, dst, amount, tid), reply)
      ensures IssueEffect(d, old(View()), src, dst, amount, tid, View(), reply)
    {
      trace := Then(trace, Op.Issue(src, dst, amount, tid));
      if tid in amtOf {
        reply := Returned(false);
      } else if src !in replicas {
        reply := Raised;
      } else {
        var ok := replicas[src].DebitForSend(amount);
        if ok {
          amtOf := amtOf[tid := amount];
          sentMsgs := sentMsgs + [Message(dst, tid)];
        }
        OneReplicaChanged(src);
        reply := Returned(ok);
      }
      Happened(Op.Issue(src, dst, amount, tid), reply);
    }

    /** The message that the index names is delivered, and kept. */
    method Deliver(idx: int) returns (reply: Reply)
      requires Valid()
      modifies this`trace, replicas.Values
      ensures Did(Op.Deliver(idx), reply)
      ensures DeliverEffect(d, old(View()), idx, View(), reply)
    {
      trace := Then(trace, Op.Deliver(idx));
      PositionIndexes(idx, |sentMsgs|);
      reply := Raised;
      if InRange(idx, |sentMsgs|) {
        var msg := sentMsgs[Position(idx, |sentMsgs|)];
        if msg.dst in replicas && msg.tid in amtOf {
          var ok := replicas[msg.dst].Credit(msg.tid, amtOf[msg.tid]);
          OneReplicaChanged(msg.dst);
          reply := Returned(ok);
        }
        assert MessageEffect(d, old(View()), msg, View(), reply);
      }
      Happened(Op.Deliver(idx), reply);
    }

    /** The message that the index names is returned and removed; the others keep their order. */
    method Drop(idx: int) returns (reply: Reply)
      requires Valid()
      modifies this`trace, this`sentMsgs
      ensures Did(Op.Drop(idx), reply)
      ensures DropEffect(old(View()), idx, View(), reply)
    {
      trace := Then(trace, Op.Drop(idx));
      PositionIndexes(idx, |sentMsgs|);
      reply := Raised;
      if InRange(idx, |sentMsgs|) {
        var i := Position(idx, |sentMsgs|);
        reply := Popped(sentMsgs[i]);
        sentMsgs := Without(sentMsgs, i);
        PoppedIsWithout(old(sentMsgs), sentMsgs, i);
      }
      Happened(Op.Drop(idx), reply);
    }

    method Persist(name: Name) returns (reply: Reply)
      requires Valid()
      modifies this`trace, replicas.Values
      ensures Did(Op.Persist(name), reply)
      ensures PersistEffect(d, old(View()), name, View(), reply)
    {
      trace := Then(trace, Op.Persist(name));
      reply := Raised;
      if name in replicas {
        replicas[name].Persist();
        OneReplicaChanged(name);
        reply := Done;
      }
      Happened(Op.Persist(name), reply);
    }

    method Crash(name: Name) returns (reply: Reply)
      requires Valid()
      modifies this`trace, replicas.Values
      ensures Did(Op.Crash(name), reply)
      ensures CrashEffect(d, old(View()), name, View(), reply)
    {
      trace := Then(trace, Op.Crash(name));
      reply := Raised;
      if name in replicas {
        replicas[name].Crash();
        OneReplicaChanged(name);
        reply := Done;
      }
      Happened(Op.Crash(name), reply);
    }
  }

  /** Every message's amount is on record, so inflight() never looks up a missing id. */
  lemma {:induction false} MessagesHaveAmounts(c: Setup, tr: Trace)
    ensures SentTids(Run(c, tr).sent) <= Run(c, tr).amtOf.Keys
  {
    if tr.Then? {
      MessagesHaveAmounts(c, tr.prior);
      forall m | m in Run(c, tr).sent
        ensures m.tid in Run(c, tr).amtOf
      {
        assert m in Run(c, tr.prior).sent ==> m.tid in SentTids(Run(c, tr.prior).sent);
      }
    }
  }
}
