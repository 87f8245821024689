/**
 Delivery is confluent: any sequence of deliver() calls, in any order and with any repetition, leaves
 the cluster, volatile and durable state alike, where the set of messages delivered alone determines.
 This holds in every state and under every discipline. Drops keep the other messages in their order.
 */
module DurableConfluence {
  import opened Lists
  import opened Names
  import opened Sums
  import opened DurableModel

  function DeliverAll(d: Discipline, s: ClusterState, idxs: seq<int>): ClusterState {
    if idxs == [] then s
    else Step(d, DeliverAll(d, s, idxs[..|idxs| - 1]), Deliver(idxs[|idxs| - 1])).0
  }

  /** The messages a sequence of delivery attempts names. */
  function Named(s: ClusterState, idxs: seq<int>): set<Message> {
    set i | i in idxs && InRange(i, |s.sent|) :: s.sent[Position(i, |s.sent|)]
  }

  /** The transfers among these messages that replica r can still credit. */
  function Fresh(s: ClusterState, messages: set<Message>, r: Name): set<Tid>
    requires r in s.reps
  {
    set m | m in messages && m.dst == r && m.tid in s.amtOf && m.tid !in s.reps[r].recvd :: m.tid
  }

  ghost function AbsorbAt(d: Discipline, q: ReplicaState, tids: set<Tid>, amtOf: map<Tid, int>): ReplicaState {
    if tids == {} then q
    else
      var more := q.escrow + Sum(tids, amtOf);
      var seen := q.recvd + tids;
      q.(escrow := more, recvd := seen, dEscrow := more, dRecvd := if d.recvdDurable then seen else q.dRecvd)
  }

  /** The state after a set of messages has arrived, all at once. */
  ghost function Absorb(d: Discipline, s: ClusterState, messages: set<Message>): ClusterState {
    s.(reps := map r | r in s.reps :: AbsorbAt(d, s.reps[r], Fresh(s, messages, r), s.amtOf))
  }

  lemma FreshOneMore(s: ClusterState, messages: set<Message>, m: Message, r: Name)
    requires r in s.reps
    ensures Fresh(s, messages + {m}, r) ==
            Fresh(s, messages, r) +
            if m.dst == r && m.tid in s.amtOf && m.tid !in s.reps[r].recvd then {m.tid} else {}
  {
  }

  lemma AbsorbAtOneMore(d: Discipline, q: ReplicaState, had: set<Tid>, t: Tid, amtOf: map<Tid, int>)
    requires t in amtOf && t !in q.recvd
    ensures var before := AbsorbAt(d, q, had, amtOf);
            AbsorbAt(d, q, had + {t}, amtOf) ==
            if t in before.recvd then before else before.Credit(d, t, amtOf[t])
  {
    if t in had {
      assert had + {t} == had;
    } else {
      SumInsert(had, amtOf, t);
      assert q.recvd + (had + {t}) == q.recvd + had + {t};
    }
  }

  lemma AbsorbOneMore(d: Discipline, s: ClusterState, messages: set<Message>, idx: int)
    requires InRange(idx, |s.sent|)
    ensures Step(d, Absorb(d, s, messages), Deliver(idx)).0 ==
            Absorb(d, s, messages + {s.sent[Position(idx, |s.sent|)]})
  {
    var m := s.sent[Position(idx, |s.sent|)];
    var before, after := Absorb(d, s, messages), Absorb(d, s, messages + {m});
    var stepped := Step(d, before, Deliver(idx)).0;
    forall r | r in s.reps
      ensures stepped.reps[r] == after.reps[r]
    {
      FreshOneMore(s, messages, m, r);
      var had := Fresh(s, messages, r);
      if m.dst == r && m.tid in s.amtOf && m.tid !in s.reps[r].recvd {
        AbsorbAtOneMore(d, s.reps[r], had, m.tid, s.amtOf);
      } else {
        assert had + {} == had;
      }
    }
    assert stepped.reps == after.reps;
  }

  /** Delivering one by one is the same as absorbing the set of messages named. */
  lemma {:induction false} DeliverIsAbsorb(d: Discipline, s: ClusterState, idxs: seq<int>)
    ensures DeliverAll(d, s, idxs) == Absorb(d, s, Named(s, idxs))
  {
    if idxs == [] {
      assert Absorb(d, s, {}).reps == s.reps by {
        assert forall r :: r in s.reps ==> Fresh(s, {}, r) == {};
      }
      assert Named(s, idxs) == {};
    } else {
      var front, last := idxs[..|idxs| - 1], idxs[|idxs| - 1];
      DeliverIsAbsorb(d, s, front);
      assert idxs == front + [last];
      if InRange(last, |s.sent|) {
        AbsorbOneMore(d, s, Named(s, front), last);
        assert Named(s, idxs) == Named(s, front) + {s.sent[Position(last, |s.sent|)]};
      } else {
        assert Named(s, idxs) == Named(s, front);
      }
    }
  }

  /** Two schedules that deliver the same set of messages end in the same state. */
  lemma DeliveryConfluence(d: Discipline, s: ClusterState, a: seq<int>, b: seq<int>)
    requires Named(s, a) == Named(s, b)
    ensures DeliverAll(d, s, a) == DeliverAll(d, s, b)
  {
    DeliverIsAbsorb(d, s, a);
    DeliverIsAbsorb(d, s, b);
  }

  // ---- the order of the messages ----

  /** Dropping message i and then delivering by index is delivering the same message first, by its index
      before the drop, and then dropping message i. */
  lemma DropThenDeliver(d: Discipline, s: ClusterState, i: nat, j: nat)
    requires i < |s.sent| && j < |s.sent| - 1
    ensures var before := if j < i then j else j + 1;
            && Step(d, Step(d, s, Drop(i)).0, Deliver(j)).1 == Step(d, s, Deliver(before)).1
            && Step(d, Step(d, s, Drop(i)).0, Deliver(j)).0 == Step(d, Step(d, s, Deliver(before)).0, Drop(i)).0
  {
    assert Without(s.sent, i)[j] == s.sent[if j < i then j else j + 1];
  }
}
