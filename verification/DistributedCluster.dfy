/**
 The message-passing cluster as it is written: replicas and a cluster whose fields the calls update in
 place, each method proved to follow DistributedModel.Step, and each cluster carrying its run as ghost
 state.
 */
module DistributedCluster {
  import opened Lists
  import opened Names
  import opened Sums
  import opened DistributedModel
  import DistributedConservation

  class Replica {
    const name: Name
    const f: Idempotency
    var escrow: int
    var spent: int
    var applied: map<Opid, int>
    var chargeCount: map<Opid, int>
    var issued: map<Tid, int>
    var recvd: set<Tid>

    function View(): ReplicaState
      reads this
    {
      ReplicaState(escrow, spent, applied, chargeCount, issued, recvd)
    }

    constructor (name: Name, escrow: int, f: Idempotency)
      ensures View() == ReplicaState(escrow, 0, map[], map[], map[], {}) && this.name == name && this.f == f
    {
      this.name, this.f := name, f;
      this.escrow, this.spent := escrow, 0;
      applied, chargeCount, issued, recvd := map[], map[], map[], {};
    }

    method Charge(amount: int, opid: Opid) returns (reply: Reply)
      modifies this
      ensures reply == if amount < 0 then Raised else Returned(opid in old(applied) || amount <= old(escrow))
      ensures View() ==
              if amount >= 0 && opid !in old(applied) && amount <= old(escrow) then
                old(View()).(
                  escrow := old(escrow) - amount, spent := old(spent) + amount,
                  applied := old(applied)[opid := amount],
                  chargeCount := old(chargeCount)[opid := CountOf(old(chargeCount), opid) + 1])
              else old(View())
    {
      if amount < 0 {
        return Raised;
      }
      if opid in applied {
        return Returned(true);
      }
      if amount <= escrow {
        escrow := escrow - amount;
        spent := spent + amount;
        applied := applied[opid := amount];
        chargeCount := chargeCount[opid := CountOf(chargeCount, opid) + 1];
        return Returned(true);
      }
      return Returned(false);
    }

    method Issue(dst: Name, amount: int, tid: Tid) returns (reply: Reply)
      modifies this
      ensures reply ==
              if amount < 0 then Raised
              else if !(f.sender && tid in old(issued)) && amount <= old(escrow) then
                Issued(Message(name, dst, amount, tid))
              else NotIssued
      ensures View() ==
              if reply.Issued? then
                old(View()).(escrow := old(escrow) - amount, issued := old(issued)[tid := amount])
              else old(View())
    {
      if amount < 0 {
        return Raised;
      }
      if f.sender && tid in issued {
        return NotIssued;
      }
      if amount <= escrow {
        escrow := escrow - amount;
        issued := issued[tid := amount];
        return Issued(Message(name, dst, amount, tid));
      }
      return NotIssued;
    }

    method Receive(msg: Message) returns (ok: bool)
      modifies this
      ensures ok == !(f.receiver && msg.tid in old(recvd))
      ensures View() ==
              if ok then old(View()).(escrow := old(escrow) + msg.amount, recvd := old(recvd) + {msg.tid})
              else old(View())
    {
      if f.receiver && msg.tid in recvd {
        return false;
      }
      escrow := escrow + msg.amount;
      recvd := recvd + {msg.tid};
      return true;
    }
  }

  /** The outcome of check(): which of its assertions fails first, if any. */
  datatype CheckResult = Pass | CapBreached | SafetyLeBroken | ConservedBroken

  class Cluster {
    const cap: int
    const f: Idempotency
    const replicas: map<Name, Replica>
    var net: seq<Message>
    var tidAmount: map<Tid, int>
    var receivedTids: set<Tid>

    // The shares this cluster was set up with, and the calls made on it so far.
    ghost const shares: map<Name, int>
    ghost var trace: Trace

    ghost predicate Wired() {
      forall n :: n in replicas ==> replicas[n].f == f && replicas[n].name == n
    }

    function Reps(): map<Name, ReplicaState>
      reads replicas.Values
    {
      map n | n in replicas :: replicas[n].View()
    }

    function View(): ClusterState
      reads this, replicas.Values
    {
      ClusterState(Reps(), net, tidAmount, receivedTids)
    }

    ghost function SetupOf(): Setup {
      Setup(f, shares)
    }

    /** Each object stands under its own name, so they are distinct, and the state is the one its run leads to. */
    ghost predicate Valid()
      reads this, replicas.Values
    {
      Wired() && View() == Run(SetupOf(), trace)
    }

    /** Exactly this call happened: it had its effect, the state and the reply are those of the model, and
        it is on record. */
    twostate predicate Did(op: Op, reply: Reply)
      reads this, replicas.Values
    {
      && Valid() && Effect(f, old(View()), op, View(), reply)
      && View() == Step(f, old(View()), op).0 && reply == Step(f, old(View()), op).1
      && trace == Then(old(trace), op)
    }

    /** This call happened if it had its effect on the state and is on record. */
    twostate lemma Happened(new op: Op, new reply: Reply)
      requires old(Valid()) && Wired() && trace == Then(old(trace), op)
      requires Effect(f, old(View()), op, View(), reply)
      ensures Did(op, reply)
    {
      StepIsEffect(f, old(View()), op, View(), reply);
    }

    /** When one replica at most has changed, the view has changed at that replica at most. */
    twostate lemma OneReplicaChanged(name: Name)
      requires Wired() && name in replicas
      requires forall n :: n in replicas && n != name ==> unchanged(replicas[n])
      ensures old(Reps())[name] == old(replicas[name].View())
      ensures Reps() == old(Reps())[name := replicas[name].View()]
      ensures replicas[name].View() == old(replicas[name].View()) ==> Reps() == old(Reps())
    {
      assert Reps() == old(Reps())[name := replicas[name].View()];
      if replicas[name].View() == old(replicas[name].View()) {
        assert Reps() == old(Reps());
      }
    }

    /** With idempotent receivers, a good genesis, and, if senders are idempotent too, no colliding ids. */
    ghost predicate WithinPromise()
      reads this
    {
      && f.receiver && GoodGenesis(SetupOf(), cap)
      && (f.sender ==> DistributedConservation.CollisionFree(SetupOf(), trace))
    }

    constructor (shares: map<Name, int>, cap: int, f: Idempotency)
      ensures Valid() && this.cap == cap && this.f == f && this.shares == shares && trace == Empty
      ensures fresh(replicas.Values) && net == [] && tidAmount == map[] && receivedTids == {}
      ensures Reps() == map n | n in shares :: ReplicaState(shares[n], 0, map[], map[], map[], {})
    {
      this.cap, this.f, this.shares := cap, f, shares;
      net, tidAmount, receivedTids := [], map[], {};
      trace := Empty;
      var made: map<Name, Replica> := map[];
      var todo := shares.Keys;
      while todo != {}
        invariant made.Keys == shares.Keys - todo && todo <= shares.Keys
        invariant forall n :: n in made ==> fresh(made[n])
        invariant forall n :: n in made ==>
                    && made[n].f == f && made[n].name == n
                    && made[n].View() == ReplicaState(shares[n], 0, map[], map[], map[], {})
        decreases todo
      {
        var n :| n in todo;
        var r := new Replica(n, shares[n], f);
        made := made[n := r];
        todo := todo - {n};
      }
      replicas := made;
      new;
      assert View() == Genesis(shares);
    }

    // ---- the conserved quantity, computed ----

    method TotalEscrow() returns (sum: int)
      requires Valid()
      ensures sum == DistributedModel.TotalEscrow(View())
    {
      sum := 0;
      var todo := replicas.Keys;
      ghost var m := Escrows(View().reps);
      assert m.Keys == replicas.Keys;
      while todo != {}
        invariant todo <= replicas.Keys
        invariant sum + Sum(todo, m) == Total(m)
        decreases todo
      {
        var n :| n in todo;
        SumPick(todo, m, n);
        sum := sum + replicas[n].escrow;
        todo := todo - {n};
      }
    }

    method TotalSpent() returns (sum: int)
      requires Valid()
      ensures sum == DistributedModel.TotalSpent(View())
    {
      sum := 0;
      var todo := replicas.Keys;
      ghost var m := Spents(View().reps);
      assert m.Keys == replicas.Keys;
      while todo != {}
        invariant todo <= replicas.Keys
        invariant sum + Sum(todo, m) == Total(m)
        decreases todo
      {
        var n :| n in todo;
        SumPick(todo, m, n);
        sum := sum + replicas[n].spent;
        todo := todo - {n};
      }
    }

    /** The source goes through all ids and skips the received ones. */
    method InFlight() returns (sum: int)
      ensures sum == DistributedModel.InFlight(View())
    {
      sum := 0;
      var todo := tidAmount.Keys;
      while todo != {}
        invariant todo <= tidAmount.Keys
        invariant sum + Sum(todo - receivedTids, tidAmount) == DistributedModel.InFlight(View())
        decreases todo
      {
        var t :| t in todo;
        if t !in receivedTids {
          SumPick(todo - receivedTids, tidAmount, t);
          sum := sum + tidAmount[t];
          assert todo - {t} - receivedTids == todo - receivedTids - {t};
        } else {
          assert todo - {t} - receivedTids == todo - receivedTids;
        }
        todo := todo - {t};
      }
      assert todo - receivedTids == {};
    }

    method Quantity() returns (sum: int)
      requires Valid()
      ensures sum == DistributedModel.Quantity(View())
    {
      var spent := TotalSpent();
      var escrow := TotalEscrow();
      var inFlight := InFlight();
      return spent + escrow + inFlight;
    }

    lemma PromiseKept()
      requires Valid() && WithinPromise()
      ensures CheckPasses(f, View(), cap)
    {
      DistributedConservation.CheckNeverFails(SetupOf(), trace, cap);
    }

    /** check(): passes exactly when the state satisfies its assertions, and therefore always when the
        configuration is within what it promises. */
    method Check() returns (r: CheckResult)
      requires Valid()
      ensures r == Pass <==> CheckPasses(f, View(), cap)
      ensures r == CapBreached <==> DistributedModel.TotalSpent(View()) > cap
      ensures r == SafetyLeBroken <==>
                DistributedModel.TotalSpent(View()) <= cap && f.receiver && DistributedModel.Quantity(View()) > cap
      ensures r == ConservedBroken <==>
                && DistributedModel.TotalSpent(View()) <= cap
                && f.sender && f.receiver && DistributedModel.Quantity(View()) < cap
      ensures WithinPromise() ==> r == Pass
    {
      if WithinPromise() {
        PromiseKept();
      }
      var spent := TotalSpent();
      if spent > cap {
        return CapBreached;
      }
      if f.receiver {
        var quantity := Quantity();
        if quantity > cap {
          return SafetyLeBroken;
        }
        if f.sender && quantity != cap {
          return ConservedBroken;
        }
      }
      return Pass;
    }

    // ---- operations: the effect of each, and then each as a call on record ----

    method ChargeAt(name: Name, amount: int, opid: Opid) returns (reply: Reply)
      requires Wired()
      modifies replicas.Values
      ensures ChargeEffect(old(View()), name, amount, opid, View(), reply)
    {
      if name !in replicas {
        return Raised;
      }
      reply := replicas[name].Charge(amount, opid);
      OneReplicaChanged(name);
    }

    method IssueFrom(src: Name, dst: Name, amount: int, tid: Tid) returns (reply: Reply)
      requires Wired()
      modifies this`net, this`tidAmount, replicas.Values
      ensures IssueEffect(f, old(View()), Message(src, dst, amount, tid), View(), reply)
    {
      if src !in replicas {
        return Raised;
      }
      reply := replicas[src].Issue(dst, amount, tid);
      if reply.Issued? {
        if tid !in tidAmount {
          tidAmount := tidAmount[tid := amount];
        }
        net := net + [reply.msg];
      }
      OneReplicaChanged(src);
    }

    method DeliverMessage(msg: Message) returns (reply: Reply)
      requires Wired()
      modifies this`receivedTids, replicas.Values
      ensures MessageEffect(f, old(View()), msg, View(), reply)
    {
      if msg.dst !in replicas {
        return Raised;
      }
      var ok := replicas[msg.dst].Receive(msg);
      if ok {
        receivedTids := receivedTids + {msg.tid};
      }
      OneReplicaChanged(msg.dst);
      return Returned(ok);
    }

    method Charge(name: Name, amount: int, opid: Opid) returns (reply: Reply)
      requires Valid()
      modifies this`trace, replicas.Values
      ensures Did(Op.Charge(name, amount, opid), reply)
      ensures ChargeEffect(old(View()), name, amount, opid, View(), reply)
    {
      trace := Then(trace, Op.Charge(name, amount, opid));
      reply := ChargeAt(name, amount, opid);
      Happened(Op.Charge(name, amount, opid), reply);
    }

    method Issue(src: Name, dst: Name, amount: int, tid: Tid) returns (reply: Reply)
      requires Valid()
      modifies this, replicas.Values
      ensures Did(Op.Issue(src, dst, amount, tid), reply)
      ensures IssueEffect(f, old(View()), Message(src, dst, amount, tid), View(), reply)
    {
      trace := Then(trace, Op.Issue(src, dst, amount, tid));
      reply := IssueFrom(src, dst, amount, tid);
      Happened(Op.Issue(src, dst, amount, tid), reply);
    }

    /** The message that the index names is delivered, and kept. */
    method Deliver(idx: int) returns (reply: Reply)
      requires Valid()
      modifies this`trace, this`receivedTids, replicas.Values
      ensures Did(Op.Deliver(idx), reply)
      ensures DeliverEffect(f, old(View()), idx, View(), reply)
    {
      trace := Then(trace, Op.Deliver(idx));
      PositionIndexes(idx, |net|);
      reply := Raised;
      if InRange(idx, |net|) {
        reply := DeliverMessage(net[Position(idx, |net|)]);
      }
      Happened(Op.Deliver(idx), reply);
    }

    /** The message that the index names is returned and removed; the others keep their order. */
    method Drop(idx: int) returns (reply: Reply)
      requires Valid()
      modifies this`trace, this`net
      ensures Did(Op.Drop(idx), reply)
      ensures DropEffect(old(View()), idx, View(), reply)
    {
      trace := Then(trace, Op.Drop(idx));
      PositionIndexes(idx, |net|);
      reply := Raised;
      if InRange(idx, |net|) {
        var i := Position(idx, |net|);
        reply := Popped(net[i]);
        net := Without(net, i);
        PoppedIsWithout(old(net), net, i);
      }
      Happened(Op.Drop(idx), reply);
    }
  }
}
