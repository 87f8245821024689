/**
 The exploration of impl/spec_model.py: a worklist search that terminates, for any finite parameters,
 because conservation confines the reachable states to a finite universe; and that returns exactly the
 number of reachable states, with no violation.
 */
module Explore {
  import opened Lists
  import opened Names
  import opened Sums
  import opened SpecModel

  // ---- a finite universe ----

  /** All maps from these keys to these values. */
  ghost function Maps<K(!new), V(!new)>(keys: set<K>, values: set<V>): set<map<K, V>> {
    if keys == {} then {map[]}
    else
      var k :| k in keys;
      set m, v | m in Maps(keys - {k}, values) && v in values :: m[k := v]
  }

  lemma {:induction false} InMaps<K(!new), V(!new)>(keys: set<K>, values: set<V>, m: map<K, V>)
    requires m.Keys == keys && forall k :: k in keys ==> m[k] in values
    ensures m in Maps(keys, values)
    decreases keys
  {
    if keys == {} {
      assert m == map[];
    } else {
      var k :| k in keys && Maps(keys, values) ==
                            set n, v | n in Maps(keys - {k}, values) && v in values :: n[k := v];
      var rest := m - {k};
      InMaps(keys - {k}, values, rest);
      assert m == rest[k := m[k]];
    }
  }

  ghost function Subsets<T(!new)>(s: set<T>): set<set<T>> {
    set x | x <= s
  }

  ghost function UpTo(n: int): (s: set<int>)
    ensures forall i :: i in s <==> 0 <= i <= n
    decreases if n < 0 then 0 else n + 1
  {
    if n < 0 then {} else UpTo(n - 1) + {n}
  }

  ghost function Balances(p: Params): set<map<Name, int>> {
    Maps(Elements(p.replicas), UpTo(p.cap))
  }

  ghost function Messages(p: Params): set<Msg> {
    set r, t | r in p.replicas && t in p.tids :: Msg(r, t)
  }

  /** The states a conserving run could possibly visit. */
  ghost function Universe(p: Params): set<State> {
    set escrow, spent, net, applied, sentT, recvd, amtOf |
      && escrow in Balances(p) && spent in Balances(p)
      && net in Subsets(Messages(p))
      && applied in Subsets(Elements(p.cids))
      && sentT in Subsets(Elements(p.tids)) && recvd in Subsets(Elements(p.tids))
      && amtOf in Maps(Elements(p.tids), Elements(p.amounts + [0]))
      :: State(escrow, spent, net, applied, sentT, recvd, amtOf)
  }

  /** No balance can exceed the cap: the others are not negative, and together they conserve it. */
  lemma BalancesBounded(p: Params, s: State)
    requires Sane(p, s) && Assumptions(p) && Quantity(s) == p.cap
    ensures s.escrow in Balances(p) && s.spent in Balances(p)
  {
    SumNonNegative(s.escrow.Keys, s.escrow);
    SumNonNegative(s.spent.Keys, s.spent);
    SumNonNegative(s.sentT - s.recvd, s.amtOf);
    forall r | r in s.escrow
      ensures s.escrow[r] <= p.cap && s.spent[r] <= p.cap
    {
      SumAtLeast(s.escrow.Keys, s.escrow, r);
      SumAtLeast(s.spent.Keys, s.spent, r);
    }
    InMaps(Elements(p.replicas), UpTo(p.cap), s.escrow);
    InMaps(Elements(p.replicas), UpTo(p.cap), s.spent);
  }

  lemma ReachableInUniverse(p: Params, s: State)
    requires Assumptions(p) && Reachable(p, s)
    ensures s in Universe(p)
  {
    ReachableConserves(p, s);
    BalancesBounded(p, s);
    InMaps(Elements(p.tids), Elements(p.amounts + [0]), s.amtOf);
    assert s == State(s.escrow, s.spent, s.net, s.applied, s.sentT, s.recvd, s.amtOf);
  }

  ghost function ReachableStates(p: Params): (states: set<State>)
    requires Assumptions(p)
    ensures forall s :: s in states <==> Reachable(p, s)
  {
    assert forall s :: Reachable(p, s) ==> s in Universe(p) by {
      forall s | Reachable(p, s)
        ensures s in Universe(p)
      {
        ReachableInUniverse(p, s);
      }
    }
    set s | s in Universe(p) && Reachable(p, s)
  }

  // ---- the quantity, computed ----

  method QuantityOf(s: State) returns (sum: int)
    requires s.sentT <= s.amtOf.Keys
    ensures sum == Quantity(s)
  {
    var spent := SumOf(s.spent);
    var escrow := SumOf(s.escrow);
    sum := spent + escrow;
    var todo := s.sentT - s.recvd;
    while todo != {}
      invariant todo <= s.sentT
      invariant sum + Sum(todo, s.amtOf) == Quantity(s)
      decreases todo
    {
      var t :| t in todo;
      SumPick(todo, s.amtOf, t);
      sum := sum + s.amtOf[t];
      todo := todo - {t};
    }
  }

  // ---- the search ----

  datatype Violation = Safety(s: State) | SafetyLe(s: State) | Conserved(s: State)

  /** Everything seen and no longer queued has had its successors seen. */
  ghost predicate Closed(p: Params, seen: set<State>, q: seq<State>) {
    forall s, x :: s in seen && s !in q && Next(p, s, x) ==> x in seen
  }

  lemma {:induction false} ClosedReaches(p: Params, seen: set<State>, n: nat, s: State)
    requires InitState(p) in seen && Closed(p, seen, []) && ReachedIn(p, n, s)
    ensures s in seen
  {
    if n > 0 {
      var s0 :| ReachedIn(p, n - 1, s0) && Next(p, s0, s);
      ClosedReaches(p, seen, n - 1, s0);
    }
  }

  /** The violations a state shows; none, if it is reachable. */
  method Violations(p: Params, s: State) returns (found: seq<Violation>)
    requires Typed(p, s)
    ensures Safety(s) in found <==> Total(s.spent) > p.cap
    ensures SafetyLe(s) in found <==> Quantity(s) > p.cap
    ensures Conserved(s) in found <==> Quantity(s) != p.cap
    ensures found == [] <==> Total(s.spent) <= p.cap && Quantity(s) == p.cap
  {
    found := [];
    var quantity := QuantityOf(s);
    var spent := SumOf(s.spent);
    if !(spent <= p.cap) {
      found := found + [Safety(s)];
    }
    if !(quantity <= p.cap) {
      found := found + [SafetyLe(s)];
    }
    if quantity != p.cap {
      found := found + [Conserved(s)];
    }
  }

  /** The inner loop: successors not seen before are marked and queued. */
  method Enqueue(seen: set<State>, q: seq<State>, successors: seq<State>) returns (seen': set<State>, q': seq<State>)
    ensures seen' == seen + Elements(successors)
    ensures forall x :: x in q' <==> x in q || x in seen' - seen
    ensures seen' == seen ==> q' == q
  {
    seen', q' := seen, q;
    for i := 0 to |successors|
      invariant seen' == seen + Elements(successors[..i])
      invariant forall x :: x in q' <==> x in q || x in seen' - seen
      invariant seen' == seen ==> q' == q
    {
      var x := successors[i];
      assert Elements(successors[..i + 1]) == Elements(successors[..i]) + {x};
      if x !in seen' {
        seen' := seen' + {x};
        q' := q' + [x];
      }
    }
    assert successors[..|successors|] == successors;
  }

  /** A closed set of reachable states that contains the initial one is all of them. */
  lemma ClosedIsAll(p: Params, seen: set<State>)
    requires Assumptions(p) && InitState(p) in seen && Closed(p, seen, []) && seen <= ReachableStates(p)
    ensures seen == ReachableStates(p)
  {
    forall s | Reachable(p, s)
      ensures s in seen
    {
      var n: nat :| ReachedIn(p, n, s);
      ClosedReaches(p, seen, n, s);
    }
  }

  /** One round of the search keeps the worklist invariant. */
  lemma ClosedAfterRound(
      p: Params, seen: set<State>, q: seq<State>, successors: seq<State>, seen': set<State>, q': seq<State>)
    requires q != [] && Closed(p, seen, q) && (forall s :: s in q ==> s in seen)
    requires forall x :: x in successors <==> Next(p, q[0], x)
    requires seen' == seen + Elements(successors)
    requires forall x :: x in q' <==> x in q[1..] || x in seen' - seen
    ensures Closed(p, seen', q') && (forall s :: s in q' ==> s in seen')
  {
  }

  lemma SuccessorsReachable(p: Params, s: State, successors: seq<State>)
    requires Assumptions(p) && s in ReachableStates(p)
    requires forall x :: x in successors <==> Next(p, s, x)
    ensures Elements(successors) <= ReachableStates(p)
  {
    forall x | x in successors
      ensures x in ReachableStates(p)
    {
      ReachableNext(p, s, x);
    }
  }

  /** Seeing more leaves less to see. */
  lemma Progress<T(!new)>(seen: set<T>, seen': set<T>, all: set<T>)
    requires seen <= seen' <= all
    ensures seen' == seen || all - seen' < all - seen
  {
  }

  /** explore(): the number of reachable states, exactly, and no violation. */
  method Explore(p: Params) returns (count: nat, violations: seq<Violation>)
    requires Assumptions(p)
    ensures count == |ReachableStates(p)|
    ensures violations == []
  {
    var start := InitState(p);
    assert ReachedIn(p, 0, start);
    var seen := {start};
    var q := [start];
    violations := [];
    while q != []
      invariant start in seen
      invariant forall s :: s in q ==> s in seen
      invariant seen <= ReachableStates(p)
      invariant Closed(p, seen, q)
      invariant violations == []
      decreases ReachableStates(p) - seen, |q|
    {
      var s := q[0];
      ReachableConserves(p, s);
      var found := Violations(p, s);
      violations := violations + found;
      var successors := Successors(p, s);
      SuccessorsReachable(p, s, successors);
      var seen', q' := Enqueue(seen, q[1..], successors);
      ClosedAfterRound(p, seen, q, successors, seen', q');
      Progress(seen, seen', ReachableStates(p));
      seen, q := seen', q';
    }
    ClosedIsAll(p, seen);
    count := |seen|;
  }
}
