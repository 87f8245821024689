/**
 The independent transition function of impl/spec_model.py, for any finite parameters: the relation it
 enumerates, the loops that enumerate it, and the conservation law that makes the state space finite.

 The source keeps tuples indexed by the position of a name in REPLICAS or TIDS; here they are maps from
 the names themselves.
 */
module SpecModel {
  import opened Lists
  import opened Names
  import opened Sums

  datatype Params = Params(
    replicas: seq<Name>, genesis: Name, cap: int, cids: seq<Opid>, tids: seq<Tid>, amounts: seq<int>)

  /** What the TLA+ specification assumes of its constants, amounts of zero allowed. */
  predicate Assumptions(p: Params) {
    && p.genesis in p.replicas && p.cap >= 0
    && (forall a :: a in p.amounts ==> a >= 0)
  }

  datatype Msg = Msg(to: Name, tid: Tid)

  datatype State = State(
    escrow: map<Name, int>, spent: map<Name, int>, net: set<Msg>,
    applied: set<Opid>, sentT: set<Tid>, recvd: set<Tid>, amtOf: map<Tid, int>)

  function InitState(p: Params): State {
    State(map r | r in p.replicas :: if r == p.genesis then p.cap else 0,
          map r | r in p.replicas :: 0,
          {}, {}, {}, {},
          map t | t in p.tids :: 0)
  }

  // ---- the transition relation ----

  predicate CanCharge(p: Params, s: State, r: Name, c: Opid, a: int) {
    && r in p.replicas && c in p.cids && a in p.amounts
    && r in s.escrow && r in s.spent
    && c !in s.applied && a <= s.escrow[r]
  }

  function AfterCharge(s: State, r: Name, c: Opid, a: int): State
    requires r in s.escrow && r in s.spent
  {
    s.(escrow := s.escrow[r := s.escrow[r] - a], spent := s.spent[r := s.spent[r] + a], applied := s.applied + {c})
  }

  predicate CanSend(p: Params, s: State, i: Name, j: Name, t: Tid, a: int) {
    && i in p.replicas && j in p.replicas && t in p.tids && a in p.amounts
    && i in s.escrow
    && t !in s.sentT && a <= s.escrow[i]
  }

  function AfterSend(s: State, i: Name, j: Name, t: Tid, a: int): State
    requires i in s.escrow
  {
    s.(escrow := s.escrow[i := s.escrow[i] - a], net := s.net + {Msg(j, t)},
       sentT := s.sentT + {t}, amtOf := s.amtOf[t := a])
  }

  predicate CanRecv(s: State, m: Msg) {
    m in s.net && m.tid !in s.recvd && m.to in s.escrow && m.tid in s.amtOf
  }

  function AfterRecv(s: State, m: Msg): State
    requires m.to in s.escrow && m.tid in s.amtOf
  {
    s.(escrow := s.escrow[m.to := s.escrow[m.to] + s.amtOf[m.tid]], recvd := s.recvd + {m.tid})
  }

  function AfterDrop(s: State, m: Msg): State {
    s.(net := s.net - {m})
  }

  ghost predicate Charged(p: Params, s: State, x: State) {
    exists r, c, a :: CanCharge(p, s, r, c, a) && x == AfterCharge(s, r, c, a)
  }

  ghost predicate SentFirst(p: Params, s: State, x: State) {
    exists i, j, t, a :: CanSend(p, s, i, j, t, a) && x == AfterSend(s, i, j, t, a)
  }

  ghost predicate Received(s: State, x: State) {
    exists m :: CanRecv(s, m) && x == AfterRecv(s, m)
  }

  ghost predicate Dropped(s: State, x: State) {
    exists m :: m in s.net && x == AfterDrop(s, m)
  }

  ghost predicate Next(p: Params, s: State, x: State) {
    Charged(p, s, x) || SentFirst(p, s, x) || Received(s, x) || Dropped(s, x)
  }

  // ---- the quantity ----

  ghost function InFlight(s: State): int {
    Sum(s.sentT - s.recvd, s.amtOf)
  }

  ghost function Quantity(s: State): int {
    Total(s.spent) + Total(s.escrow) + InFlight(s)
  }

  // ---- conservation ----

  ghost predicate Typed(p: Params, s: State) {
    && s.escrow.Keys == s.spent.Keys == Elements(p.replicas)
    && s.amtOf.Keys == Elements(p.tids)
    && (forall m :: m in s.net ==> m.to in p.replicas && m.tid in s.sentT)
    && s.applied <= Elements(p.cids)
    && s.recvd <= s.sentT <= s.amtOf.Keys
  }

  ghost predicate Sane(p: Params, s: State) {
    && Typed(p, s)
    && (forall r :: r in s.escrow ==> s.escrow[r] >= 0 && s.spent[r] >= 0)
    && (forall t :: t in s.amtOf ==> s.amtOf[t] in p.amounts + [0])
  }

  lemma InitSane(p: Params)
    requires Assumptions(p)
    ensures Sane(p, InitState(p)) && Quantity(InitState(p)) == p.cap
  {
    var s := InitState(p);
    SumPick(s.escrow.Keys, s.escrow, p.genesis);
    SumZero(s.escrow.Keys - {p.genesis}, s.escrow);
    SumZero(s.spent.Keys, s.spent);
    assert s.sentT - s.recvd == {};
  }

  lemma ChargeSane(p: Params, s: State, r: Name, c: Opid, a: int)
    requires Assumptions(p) && Sane(p, s) && CanCharge(p, s, r, c, a)
    ensures var x := AfterCharge(s, r, c, a); Sane(p, x) && Quantity(x) == Quantity(s)
  {
    TotalUpdate(s.escrow, r, s.escrow[r] - a);
    TotalUpdate(s.spent, r, s.spent[r] + a);
  }

  lemma SendSane(p: Params, s: State, i: Name, j: Name, t: Tid, a: int)
    requires Assumptions(p) && Sane(p, s) && CanSend(p, s, i, j, t, a)
    ensures var x := AfterSend(s, i, j, t, a); Sane(p, x) && Quantity(x) == Quantity(s)
  {
    var x, open := AfterSend(s, i, j, t, a), s.sentT - s.recvd;
    TotalUpdate(s.escrow, i, s.escrow[i] - a);
    assert x.sentT - x.recvd == open + {t};
    SumInsert(open, x.amtOf, t);
    SumAgree(open, s.amtOf, x.amtOf);
  }

  lemma RecvSane(p: Params, s: State, m: Msg)
    requires Assumptions(p) && Sane(p, s) && CanRecv(s, m)
    ensures var x := AfterRecv(s, m); Sane(p, x) && Quantity(x) == Quantity(s)
  {
    var x, open := AfterRecv(s, m), s.sentT - s.recvd;
    TotalUpdate(s.escrow, m.to, x.escrow[m.to]);
    assert x.sentT - x.recvd == open - {m.tid};
    SumPick(open, s.amtOf, m.tid);
  }

  lemma NextSane(p: Params, s: State, x: State)
    requires Assumptions(p) && Sane(p, s) && Next(p, s, x)
    ensures Sane(p, x) && Quantity(x) == Quantity(s)
  {
    if r, c, a :| CanCharge(p, s, r, c, a) && x == AfterCharge(s, r, c, a) {
      ChargeSane(p, s, r, c, a);
    } else if i, j, t, a :| CanSend(p, s, i, j, t, a) && x == AfterSend(s, i, j, t, a) {
      SendSane(p, s, i, j, t, a);
    } else if m :| CanRecv(s, m) && x == AfterRecv(s, m) {
      RecvSane(p, s, m);
    } else {
      var m :| m in s.net && x == AfterDrop(s, m);
    }
  }

  // ---- reachability ----

  ghost predicate ReachedIn(p: Params, n: nat, s: State) {
    if n == 0 then s == InitState(p) else exists s0 :: ReachedIn(p, n - 1, s0) && Next(p, s0, s)
  }

  ghost predicate Reachable(p: Params, s: State) {
    exists n: nat :: ReachedIn(p, n, s)
  }

  lemma ReachableNext(p: Params, s: State, x: State)
    requires Reachable(p, s) && Next(p, s, x)
    ensures Reachable(p, x)
  {
    var n: nat :| ReachedIn(p, n, s);
    assert ReachedIn(p, n + 1, x);
  }

  lemma {:induction false} ReachedSane(p: Params, n: nat, s: State)
    requires Assumptions(p) && ReachedIn(p, n, s)
    ensures Sane(p, s) && Quantity(s) == p.cap
  {
    if n == 0 {
      InitSane(p);
    } else {
      var s0 :| ReachedIn(p, n - 1, s0) && Next(p, s0, s);
      ReachedSane(p, n - 1, s0);
      NextSane(p, s0, s);
    }
  }

  /** Every reachable state conserves the cap, and so satisfies all three properties explore checks. */
  lemma ReachableConserves(p: Params, s: State)
    requires Assumptions(p) && Reachable(p, s)
    ensures Sane(p, s) && Quantity(s) == p.cap && Total(s.spent) <= p.cap
  {
    var n: nat :| ReachedIn(p, n, s);
    ReachedSane(p, n, s);
    SumNonNegative(s.escrow.Keys, s.escrow);
    SumNonNegative(s.sentT - s.recvd, s.amtOf);
  }

  // ---- the enumeration ----

  /** The successors of a state, in the order the source's nested loops append them. */
  method Successors(p: Params, s: State) returns (out: seq<State>)
    requires Typed(p, s)
    ensures forall x :: x in out <==> Next(p, s, x)
  {
    var charged := ChargeSuccessors(p, s);
    var sent := SendSuccessors(p, s);
    var received := RecvSuccessors(p, s);
    var dropped := DropSuccessors(s);
    out := charged + sent + received + dropped;
  }

  method ChargeSuccessors(p: Params, s: State) returns (out: seq<State>)
    requires Typed(p, s)
    ensures forall x :: x in out <==> Charged(p, s, x)
  {
    out := [];
    for ri := 0 to |p.replicas|
      invariant forall x :: x in out ==> Charged(p, s, x)
      invariant forall r, c, a :: r in p.replicas[..ri] && CanCharge(p, s, r, c, a) ==> AfterCharge(s, r, c, a) in out
    {
      var r := p.replicas[ri];
      for ci := 0 to |p.cids|
        invariant forall x :: x in out ==> Charged(p, s, x)
        invariant forall r', c, a :: r' in p.replicas[..ri] && CanCharge(p, s, r', c, a) ==>
                    AfterCharge(s, r', c, a) in out
        invariant forall c, a :: c in p.cids[..ci] && CanCharge(p, s, r, c, a) ==> AfterCharge(s, r, c, a) in out
      {
        var c := p.cids[ci];
        if c in s.applied {
          continue;
        }
        for ai := 0 to |p.amounts|
          invariant forall x :: x in out ==> Charged(p, s, x)
          invariant forall r', c', a :: r' in p.replicas[..ri] && CanCharge(p, s, r', c', a) ==>
                      AfterCharge(s, r', c', a) in out
          invariant forall c', a :: c' in p.cids[..ci] && CanCharge(p, s, r, c', a) ==> AfterCharge(s, r, c', a) in out
          invariant forall a :: a in p.amounts[..ai] && CanCharge(p, s, r, c, a) ==> AfterCharge(s, r, c, a) in out
        {
          var a := p.amounts[ai];
          if a <= s.escrow[r] {
            assert CanCharge(p, s, r, c, a);
            out := out + [AfterCharge(s, r, c, a)];
          }
        }
      }
    }
  }

  method SendSuccessors(p: Params, s: State) returns (out: seq<State>)
    requires Typed(p, s)
    ensures forall x :: x in out <==> SentFirst(p, s, x)
  {
    out := [];
    for ii := 0 to |p.replicas|
      invariant forall x :: x in out ==> SentFirst(p, s, x)
      invariant forall i, j, t, a :: i in p.replicas[..ii] && CanSend(p, s, i, j, t, a) ==>
                  AfterSend(s, i, j, t, a) in out
    {
      var i := p.replicas[ii];
      for ji := 0 to |p.replicas|
        invariant forall x :: x in out ==> SentFirst(p, s, x)
        invariant forall i', j, t, a :: i' in p.replicas[..ii] && CanSend(p, s, i', j, t, a) ==>
                    AfterSend(s, i', j, t, a) in out
        invariant forall j, t, a :: j in p.replicas[..ji] && CanSend(p, s, i, j, t, a) ==>
                    AfterSend(s, i, j, t, a) in out
      {
        var more := SendsFromTo(p, s, i, p.replicas[ji]);
        out := out + more;
      }
    }
  }

  /** The two inner loops of the sends: all ids and amounts from i to j. */
  method SendsFromTo(p: Params, s: State, i: Name, j: Name) returns (out: seq<State>)
    requires Typed(p, s) && i in p.replicas && j in p.replicas
    ensures forall x :: x in out ==> SentFirst(p, s, x)
    ensures forall t, a :: CanSend(p, s, i, j, t, a) ==> AfterSend(s, i, j, t, a) in out
  {
    out := [];
    for ti := 0 to |p.tids|
      invariant forall x :: x in out ==> SentFirst(p, s, x)
      invariant forall t, a :: t in p.tids[..ti] && CanSend(p, s, i, j, t, a) ==> AfterSend(s, i, j, t, a) in out
    {
      var t := p.tids[ti];
      if t in s.sentT {
        continue;
      }
      for ai := 0 to |p.amounts|
        invariant forall x :: x in out ==> SentFirst(p, s, x)
        invariant forall t', a :: t' in p.tids[..ti] && CanSend(p, s, i, j, t', a) ==> AfterSend(s, i, j, t', a) in out
        invariant forall a :: a in p.amounts[..ai] && CanSend(p, s, i, j, t, a) ==> AfterSend(s, i, j, t, a) in out
      {
        var a := p.amounts[ai];
        if a <= s.escrow[i] {
          assert CanSend(p, s, i, j, t, a);
          out := out + [AfterSend(s, i, j, t, a)];
        }
      }
    }
  }

  method RecvSuccessors(p: Params, s: State) returns (out: seq<State>)
    requires Typed(p, s)
    ensures forall x :: x in out <==> Received(s, x)
  {
    out := [];
    var todo := s.net;
    while todo != {}
      invariant todo <= s.net
      invariant forall x :: x in out ==> Received(s, x)
      invariant forall m :: m in s.net - todo && CanRecv(s, m) ==> AfterRecv(s, m) in out
      decreases todo
    {
      var m :| m in todo;
      todo := todo - {m};
      if m.tid in s.recvd {
        continue;
      }
      assert CanRecv(s, m);
      out := out + [AfterRecv(s, m)];
    }
  }

  method DropSuccessors(s: State) returns (out: seq<State>)
    ensures forall x :: x in out <==> Dropped(s, x)
  {
    out := [];
    var todo := s.net;
    while todo != {}
      invariant todo <= s.net
      invariant forall x :: x in out ==> Dropped(s, x)
      invariant forall m :: m in s.net - todo ==> AfterDrop(s, m) in out
      decreases todo
    {
      var m :| m in todo;
      todo := todo - {m};
      out := out + [AfterDrop(s, m)];
    }
  }
}
