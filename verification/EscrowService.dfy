/**
 The centralised reference service as it is written: one object whose fields the calls update in place,
 checking itself after every change. In strict mode the check raises if the change broke conservation,
 safety, or a sign; the methods below prove that it never does.
 */
module EscrowService {
  import opened Lists
  import opened Names
  import opened Sums
  import opened EscrowOracle
  import D = DistributedModel

  /** The first clause of _check that fails, in the order it tests them. */
  datatype Violation = NoViolation | ConservedBroken | SafetyBroken | NegativeEscrow | NegativeSpent

  /** What a call on the object gives: the model's reply, or the exception of a failed check. */
  datatype Outcome = Normal(reply: Reply) | InvariantViolation(what: Violation)

  ghost predicate SomeNegative(m: map<Name, int>) {
    exists r :: r in m && m[r] < 0
  }

  ghost function FirstViolation(s: ServiceState, cap: int): Violation {
    if Conserved(s) != cap then ConservedBroken
    else if Total(s.spent) > cap then SafetyBroken
    else if SomeNegative(s.escrow) then NegativeEscrow
    else if SomeNegative(s.spent) then NegativeSpent
    else NoViolation
  }

  class EscrowService {
    const cap: int
    const strict: bool
    var escrow: map<Name, int>
    var spent: map<Name, int>
    var applied: map<Opid, int>
    var chargeCount: map<Opid, int>
    var sent: map<Tid, Transfer>
    var recvd: set<Tid>
    var net: seq<Message>

    // The roster, and the calls made on this service so far.
    ghost const shares: map<Name, int>
    ghost var trace: D.Trace

    function View(): ServiceState
      reads this
    {
      ServiceState(escrow, spent, applied, chargeCount, sent, recvd, net)
    }

    ghost predicate Valid()
      reads this
    {
      && View() == Run(shares, trace)
      && (forall r :: r in shares ==> shares[r] >= 0) && Total(shares) == cap
    }

    /** Exactly this call happened: no check failed, the call had its effect, the state and the reply are
        those of the model, and it is on record. */
    twostate predicate Did(op: D.Op, outcome: Outcome)
      reads this
    {
      && Valid()
      && outcome.Normal? && Effect(old(View()), op, View(), outcome.reply)
      && (View(), outcome.reply) == Step(old(View()), op)
      && trace == D.Then(old(trace), op)
    }

    /** This call happened if it had its effect on the state and is on record. */
    twostate lemma Happened(new op: D.Op, new reply: Reply)
      requires old(Valid()) && trace == D.Then(old(trace), op)
      requires Effect(old(View()), op, View(), reply)
      ensures Did(op, Normal(reply))
    {
      StepIsEffect(old(View()), op, View(), reply);
    }

    constructor (replicas: set<Name>, cap: int, genesis: Name, strict: bool)
      requires genesis in replicas && cap >= 0
      ensures Valid() && this.cap == cap && this.strict == strict && trace == D.Empty
      ensures escrow == map r | r in replicas :: if r == genesis then cap else 0
      ensures spent == map r | r in replicas :: 0
      ensures applied == map[] && chargeCount == map[] && sent == map[] && recvd == {} && net == []
    {
      this.cap, this.strict := cap, strict;
      var zeros := map r | r in replicas :: 0;
      escrow, spent := zeros[genesis := cap], zeros;
      applied, chargeCount, sent, recvd, net := map[], map[], map[], {}, [];
      shares := GenesisShares(replicas, genesis, cap);
      trace := D.Empty;
      new;
      assert escrow == shares;
      assert View() == Genesis(shares);
      GenesisSharesTotal(replicas, genesis, cap);
      var violation := Check();
      assert violation == NoViolation;
    }

    // ---- the conserved quantity, computed ----

    method InFlight() returns (sum: int)
      ensures sum == EscrowOracle.InFlight(View())
    {
      sum := 0;
      var todo := sent.Keys;
      while todo != {}
        invariant todo <= sent.Keys
        invariant sum + Sum(todo - recvd, Amounts(sent)) == EscrowOracle.InFlight(View())
        decreases todo
      {
        var t :| t in todo;
        if t !in recvd {
          SumPick(todo - recvd, Amounts(sent), t);
          sum := sum + sent[t].amount;
          assert todo - {t} - recvd == todo - recvd - {t};
        } else {
          assert todo - {t} - recvd == todo - recvd;
        }
        todo := todo - {t};
      }
      assert todo - recvd == {};
    }

    static method AnyNegative(m: map<Name, int>) returns (negative: bool)
      ensures negative <==> SomeNegative(m)
    {
      negative := false;
      var todo := m.Keys;
      while todo != {}
        invariant todo <= m.Keys
        invariant negative <==> exists r :: r in m.Keys - todo && m[r] < 0
        decreases todo
      {
        var r :| r in todo;
        negative := negative || m[r] < 0;
        todo := todo - {r};
      }
    }

    /** _check: in strict mode, the first clause that fails, and none exactly when all hold. */
    method Check() returns (violation: Violation)
      ensures violation == if strict then FirstViolation(View(), cap) else NoViolation
      ensures violation == NoViolation <==> !strict || StrictCheckPasses(View(), cap)
      ensures Valid() ==> violation == NoViolation
    {
      if Valid() {
        StrictNeverRaises(shares, trace);
      }
      if !strict {
        return NoViolation;
      }
      var totalSpent := SumOf(spent);
      var totalEscrow := SumOf(escrow);
      var inFlight := InFlight();
      if totalSpent + totalEscrow + inFlight != cap {
        return ConservedBroken;
      }
      if totalSpent > cap {
        return SafetyBroken;
      }
      var negativeEscrow := AnyNegative(escrow);
      if negativeEscrow {
        return NegativeEscrow;
      }
      var negativeSpent := AnyNegative(spent);
      if negativeSpent {
        return NegativeSpent;
      }
      return NoViolation;
    }

    /** The end of every call that changed something: check, then answer. The check never fails. */
    method CheckAndReturn() returns (outcome: Outcome)
      requires Valid()
      ensures outcome == Normal(Returned(true))
    {
      var violation := Check();
      if violation != NoViolation {
        return InvariantViolation(violation);
      }
      return Normal(Returned(true));
    }

    // ---- operations ----

    method Charge(replica: Name, amount: int, opid: Opid) returns (outcome: Outcome)
      requires Valid()
      modifies this
      ensures Did(D.Charge(replica, amount, opid), outcome)
      ensures ChargeEffect(old(View()), replica, amount, opid, View(), outcome.reply)
    {
      trace := D.Then(trace, D.Charge(replica, amount, opid));
      var reply := Returned(false);
      if amount < 0 {
        reply := Raised;
      } else if opid in applied {
        reply := Returned(true);
      } else if replica !in escrow || replica !in spent {
        reply := Raised;
      } else if amount <= escrow[replica] {
        escrow := escrow[replica := escrow[replica] - amount];
        spent := spent[replica := spent[replica] + amount];
        applied := applied[opid := amount];
        chargeCount := chargeCount[opid := D.CountOf(chargeCount, opid) + 1];
        Happened(D.Charge(replica, amount, opid), Returned(true));
        outcome := CheckAndReturn();
        return;
      }
      Happened(D.Charge(replica, amount, opid), reply);
      return Normal(reply);
    }

    method SendTransfer(src: Name, dst: Name, amount: int, tid: Tid) returns (outcome: Outcome)
      requires Valid()
      modifies this
      ensures Did(D.Issue(src, dst, amount, tid), outcome)
      ensures IssueEffect(old(View()), src, dst, amount, tid, View(), outcome.reply)
    {
      trace := D.Then(trace, D.Issue(src, dst, amount, tid));
      var reply := Returned(false);
      if amount < 0 {
        reply := Raised;
      } else if tid in sent {
        reply := Returned(false);
      } else if src !in escrow {
        reply := Raised;
      } else if amount <= escrow[src] {
        escrow := escrow[src := escrow[src] - amount];
        sent := sent[tid := Transfer(dst, amount)];
        net := net + [Message(dst, amount, tid)];
        Happened(D.Issue(src, dst, amount, tid), Returned(true));
        outcome := CheckAndReturn();
        return;
      }
      Happened(D.Issue(src, dst, amount, tid), reply);
      return Normal(reply);
    }

    /** The message that the index names is delivered, and kept. */
    method Deliver(idx: int) returns (outcome: Outcome)
      requires Valid()
      modifies this
      ensures Did(D.Deliver(idx), outcome)
      ensures DeliverEffect(old(View()), idx, View(), outcome.reply)
    {
      trace := D.Then(trace, D.Deliver(idx));
      PositionIndexes(idx, |net|);
      var reply := Raised;
      if InRange(idx, |net|) {
        var msg := net[Position(idx, |net|)];
        if msg.tid in recvd {
          reply := Returned(false);
        } else if msg.dst in escrow {
          escrow := escrow[msg.dst := escrow[msg.dst] + msg.amount];
          recvd := recvd + {msg.tid};
          assert MessageEffect(old(View()), msg, View(), Returned(true));
          Happened(D.Deliver(idx), Returned(true));
          outcome := CheckAndReturn();
          return;
        }
      }
      Happened(D.Deliver(idx), reply);
      return Normal(reply);
    }

    /** The message that the index names is removed; the others keep their order. */
    method Drop(idx: int) returns (outcome: Outcome)
      requires Valid()
      modifies this
      ensures Did(D.Drop(idx), outcome)
      ensures DropEffect(old(View()), idx, View(), outcome.reply)
    {
      trace := D.Then(trace, D.Drop(idx));
      PositionIndexes(idx, |net|);
      if !InRange(idx, |net|) {
        Happened(D.Drop(idx), Raised);
        return Normal(Raised);
      }
      var i := Position(idx, |net|);
      net := Without(net, i);
      PoppedIsWithout(old(net), net, i);
      Happened(D.Drop(idx), Returned(true));
      outcome := CheckAndReturn();
    }
  }
}
