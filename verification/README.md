# Verification of the escrow-budget protocol

One budget is split over replicas. A replica charges against its own share, and moves rights to other
replicas over a network that reorders, duplicates and drops messages. In the crash/recovery version each
replica also has a durable snapshot, which is not a coherent one: a credit and a send write part of it, a
charge none of it, a persist all of it, and a crash installs all of it. This project models the Python
implementation, the TLA+ specification it mirrors, the Lean protocol it is compared with, the centralised
reference service and the independent transition function, and proves what the repository leaves to
bounded checks: everything below holds for every finite set of replicas, every set of ids, all amounts, every cap
and every interleaving.

## How it is built

- `Names.dfy`, `Sums.dfy`: identifiers, list operations, and sums over sets (order does not matter, point
  update, injection bound, double counting).
- `DurableModel.dfy`, `DistributedModel.dfy` and `EscrowOracle.dfy` say what each call does to a state as a
  value and what it returns, twice: as a function (`Step`), and as a relation that spells the outcome out field
  by field and message by message (`Effect`), without the list operations of the function. `StepIsEffect` proves
  that the two agree in every state. A run is the list of calls made.
- `DurableCluster.dfy`, `DistributedCluster.dfy`, `EscrowService.dfy` and `Recovery.dfy` hold the classes with
  the source's fields, updated in place. Each method states its effect and is proved to do to the object what
  the model says (`Did`), and `Valid()` ties the object to the run that led to it, so a theorem about runs is a
  theorem about objects; `Check` uses it directly.
- Crash/recovery: `DurableSafety.dfy` (ledger and cap), `DurableHistory.dfy` (at-most-once credit, per-replica
  books, accepted charges, crash transparency), `DurableDiscipline.dfy` (both disciplines are needed, what
  each buys, what check() does not see), `DurableConfluence.dfy` (delivery order), `DurableLockstep.dfy` (forward
  simulation by the Lean protocol),
  `DurableCertificate.dfy` (the TLA+ specification and its certificate), `DurableMirror.dfy` (cluster and
  specification simulate each other).
- Message passing: `DistributedSafety.dfy`, `DistributedConservation.dfy`, `EscrowOracle.dfy` with
  `OracleRefinement.dfy` (refinement of the reference service), `SpecModel.dfy` with `Explore.dfy` (the
  exploration), `SpecSimulation.dfy` (cluster and transition function simulate each other).
- `Recovery.dfy`: overdraft against creation.

Every modelled call is total. Where the source raises (unknown replica, index out of range, negative amount
where it is asserted), it does so before changing anything, and the model replies `Raised` and keeps the
state. Negative list indices count from the end, as they do in the source.

What the theorems assume is stated in each: a good genesis (no negative share, shares adding up to the cap;
SCOPE.md:33-34), non-negative amounts where `impl/durable.py` does not check them (SCOPE.md:69), and the
disciplines or flags by name. Nothing else is assumed of a run.

## Where the code and its documentation differ

- `impl/durable.py:15-16` says check() may assert that the total spent is within the cap in every
  configuration. It holds in the disciplined one, or when the cap is 0, and in no other:
  `DurableDiscipline.DisciplineIsExactlyNeeded`.
- `MODEL-CORRESPONDENCE.md:29` says a dropped message keeps its right. In `impl/durable.py` a drop lowers
  inflight(): the amount is destroyed (`DurableSafety.DropDestroysUnless`), and is a term of `DurableSafety.Ledger`. In
  `impl/distributed.py` the amount does stay in flight.
- `RecvdOnlyAddressed`, one of the conjuncts certified for the TLA+ specification, is not an invariant of
  `impl/durable.py`, because drop() can remove the message of a credited transfer.
  `DurableHistory.AddressedIff` says exactly when it holds. The proofs use the issued destination of each
  id instead, which is never forgotten.
- README.md:4-6 speaks of the spending authorised. The cap bounds the spending a cluster remembers, not the
  charges it accepted: a crash may forget a charge after its caller was told yes
  (`DurableDiscipline.AcceptedChargesUnbounded`). Exactly: the accepted charges stay within the cap if and only
  if what crashes gave back is still unspent (`DurableHistory.AcceptedWithinCapIff`), and counted with all that
  can still be charged they do if and only if every crash finds its replica's escrow equal to the durable copy
  (`DurableHistory.ClaimsWithinCapIff`).
- SCOPE.md:195 reports, for the crash-free protocol, that no step creates budget. In `impl/distributed.py` that
  is so as long as ids are reused for retries only (`DistributedConservation.NeverCreates`); on colliding ids a
  delivery can create, after more was destroyed (`DistributedConservation.CollisionMovesQuantity`).

## Model

| member | source | states |
|---|---|---|
| `DurableCluster.DurableReplica.constructor` | impl/durable.py:30-35 | a new replica has spent and received nothing, and its durable state equals its volatile one |
| `DurableCluster.DurableReplica.Charge` | impl/durable.py:37-41 | accepts exactly the amounts the volatile escrow covers, and then moves them to spent, leaving the durable triple alone |
| `DurableCluster.DurableReplica.DebitForSend` | impl/durable.py:43-49 | accepts exactly what the escrow covers; an accepted debit is durable at once if writing ahead is on, whatever the other discipline, and leaves the durable escrow alone otherwise |
| `DurableCluster.DurableReplica.Credit` | impl/durable.py:51-58 | refuses a transfer already in the volatile dedup set; otherwise the new balance is durable, and the dedup set too if that discipline is on |
| `DurableCluster.DurableReplica.Persist` | impl/durable.py:60-63 | the durable balance becomes the volatile one; the dedup set as well, when durable |
| `DurableCluster.DurableReplica.Crash` | impl/durable.py:65-67 | the volatile state becomes the durable one, which stays; a dedup set that is not durable becomes empty |
| `DurableCluster.DurableCluster.constructor` | impl/durable.py:71-80 | distinct fresh replicas, one per share, no messages, and the empty run |
| `DurableCluster.DurableCluster.TotalEscrow` | impl/durable.py:83 | the loop over the replicas, in any order, computes the sum over the roster |
| `DurableCluster.DurableCluster.TotalSpent` | impl/durable.py:84 | likewise for spent |
| `DurableCluster.DurableCluster.CreditedTids` | impl/durable.py:87 | the union of all dedup sets |
| `DurableCluster.DurableCluster.InFlight` | impl/durable.py:86-89 | the amounts of the ids that still have a message and that nobody has credited, each id once; no lookup can miss |
| `DurableCluster.DurableCluster.Quantity` | impl/durable.py:91 | spent, escrow and in-flight together |
| `DurableCluster.DurableCluster.Check` | impl/durable.py:95-98 | passes exactly when its assertions hold, and says which fails first; the bound on the quantity is asserted of a disciplined cluster only; always passes on a disciplined cluster with a good genesis and non-negative amounts, after any calls whatever |
| `DurableCluster.DurableCluster.Charge` | impl/durable.py:101-102 | accepted exactly when the escrow of that replica covers it, and then moves the amount from its escrow to its spending and changes nothing else |
| `DurableCluster.DurableCluster.Issue` | impl/durable.py:104-111 | a known id is answered False, before the source is looked up, and so is an uncovered amount; neither changes anything; an accepted issue debits, durably if written ahead, records the amount and emits one message last |
| `DurableCluster.DurableCluster.Deliver` | impl/durable.py:113-115 | index i, or i minus the length, delivers element i and keeps it, any other index raises; the destination is credited exactly if it does not know the id |
| `DurableCluster.DurableCluster.Drop` | impl/durable.py:117-118 | index i, or i minus the length, returns element i and removes it, the others keeping their order; any other index raises; nothing else changes |
| `DurableCluster.DurableCluster.Persist` | impl/durable.py:120 | copies the volatile triple of that replica, the dedup set only if it is durable, and changes nothing else |
| `DurableCluster.DurableCluster.Crash` | impl/durable.py:121 | installs the durable triple of that replica, with an empty dedup set if it is not durable; the messages survive |
| `Lists.PositionIndexes` | impl/durable.py:113-118 | an index in range names the one element it counts to, from the front or from the end; any other names none |
| `Lists.PoppedIsWithout` | impl/durable.py:117-118 | cutting out an element leaves every element before it in place and moves every one after it up by one, and no other list does |
| `DurableModel.StepIsEffect` | impl/durable.py:37-121 | in every state and under any disciplines, each call has the effect spelled out field by field and message by message, and no other outcome does |
| `DurableSafety.ShapeHolds` | impl/durable.py:51-67 | with a durable dedup set, on every run: a transfer is credited only where it was sent, durable and volatile dedup sets agree, no two messages share an id |
| `DurableSafety.Ledger` | impl/durable.py:86-91 | on every run, what is left plus what crashes and drops of uncredited messages destroyed is exactly the initial budget; needs the durable dedup set only |
| `DurableSafety.SolventHolds` | impl/durable.py:43-67 | on every disciplined run no escrow is negative, none exceeds its durable copy, and the durable pair never holds more than the volatile pair |
| `DurableSafety.DropDestroysUnless` | impl/durable.py:117-118 | a drop leaves the quantity alone if and only if its transfer is credited already or empty |
| `DurableSafety.DropDestroys` | impl/durable.py:86-89 | issuing one unit and dropping its message leaves one unit less |
| `DurableSafety.DestroyedBounds` | impl/durable.py:60-67 | every term of the ledger is non-negative, so no step creates budget, and a crash destroys at most the un-persisted charges of its replica |
| `DurableSafety.Safety` | impl/durable.py:95-98 | the cap theorem for the disciplined cluster: on every run no escrow is negative, and quantity and total spent are within the cap |
| `DurableHistory.CreditedOnce` | impl/durable.py:51-58 | over a whole run deliver answers True exactly once for a transfer that is credited and never for another, across all crashes and retransmissions |
| `DurableHistory.CreditIsForever` | impl/durable.py:51-67 | a credit is never lost by any continuation of the run |
| `DurableHistory.AddressedIff` | impl/durable.py:117-118 | every credited transfer still has its message if and only if the run never dropped the message of a credited one |
| `DurableHistory.DropBreaksAddressed` | impl/durable.py:117-118 | issuing, delivering and dropping one unit gives a state with a credited transfer and no message for it |
| `DurableHistory.ReplicaLedger` | impl/durable.py:37-67 | per replica, on every run: escrow, spent and crash losses equal the share plus credits to it minus issues by it |
| `DurableHistory.BooksAddUp` | impl/durable.py:104-115 | summed over the replicas, with each id counted once as issued and once as credited |
| `DurableHistory.UncreditedUnits` | impl/durable.py:86-89 | every unit issued and not credited is in a message or was dropped, derived from the two ledgers |
| `DurableHistory.AcceptedChargesAccounted` | impl/durable.py:37-41 | under any discipline, the charges accepted over a run are the total spent plus what crashes undid |
| `DurableHistory.ClaimsLedger` | impl/durable.py:60-67 | accepted charges, escrow, transfers in the network and dropped ones together exceed the initial budget by exactly the escrow that crashes gave back |
| `DurableHistory.ClaimsWithinCapIff` | README.md:4-6 | on a disciplined run those claims stay within the cap if and only if every crash finds its replica's escrow equal to the durable copy |
| `DurableHistory.AcceptedWithinCapIff` | README.md:4-6 | the accepted charges stay within the cap if and only if what crashes gave back is at most the escrow, the transfers in the network and the dropped ones |
| `DurableHistory.UnrestoredAcceptedWithinCap` | README.md:4-6 | if no crash gives escrow back, the accepted charges stay within the cap |
| `DurableHistory.QuietAcceptedWithinCap` | impl/durable.py:60-67 | in particular if every crash finds its replica's charges persisted |
| `DurableHistory.NoisyCrashMayRestoreNothing` | impl/durable.py:43-49 | which is not necessary: a run whose crash undoes a charge and gives nothing back |
| `DurableHistory.CrashChangesNothingIff` | impl/durable.py:65-67 | in a reachable disciplined state a crash changes nothing if and only if spent equals its durable copy |
| `DurableHistory.PersistThenCrash` | impl/durable.py:60-67 | from a persist until the next charge of that replica, whatever other calls come between, a crash of it changes nothing; and the persist itself leaves the volatile state as it was |
| `DurableHistory.QuietCrashesAreInvisible` | impl/durable.py:37-67 | a run whose crashes are all quiet ends in the same state, with the same replies, as the run without them |
| `DurableDiscipline.UndisciplinedSpending` | impl/durable.py:43-67 | with either discipline off and any positive budget, for every n some run spends at least n |
| `DurableDiscipline.DisciplineIsExactlyNeeded` | impl/durable.py:11-17 | the cap holds on all runs if and only if both disciplines are on or the cap is 0; otherwise no bound holds |
| `DurableDiscipline.AcceptedChargesUnbounded` | impl/durable.py:95-98 | for every n, some disciplined run accepts charges of at least n while check() passes after every call |
| `DurableDiscipline.IssueThenCrash` | impl/test_durable.py:68-76 | in any state: after an accepted issue and a crash of its source, the message is out, and the debit has survived if and only if writing ahead is on, whatever the other discipline |
| `DurableDiscipline.CreditThenCrash` | impl/test_durable.py:80-88 | in any state: after a credit and a crash of its destination, the credit has survived, and the same message is credited again if and only if the dedup set is not durable |
| `DurableDiscipline.CreationUnseenIff` | impl/durable.py:95-98 | some run creates budget while check() passes after every call if and only if a discipline is off and there is a budget at all, and then any amount can be created |
| `DurableConfluence.DeliverIsAbsorb` | impl/durable.py:113-115 | any sequence of deliveries equals absorbing, at once, the set of messages it names |
| `DurableConfluence.DeliveryConfluence` | impl/fault_harness.py:89-94 | two schedules naming the same messages end in the same volatile and durable state, from any state, under any discipline |
| `DurableConfluence.DropThenDeliver` | impl/durable.py:113-118 | dropping message i and then delivering by index is delivering the same message first, by its index before the drop, and then dropping |
| `DurableLockstep.AbstractConserves` | lean/Escrow/DurableProtocol.lean:21-54 | with persist and crash made per replica, every abstract run conserves the budget exactly, and each replica's durable and current pairs have equal totals |
| `DurableLockstep.SimulationStep` | MODEL-CORRESPONDENCE.md:40-41 | one call that snaps the durable balance is answered by one enabled lockstep action, and the relation is kept |
| `DurableLockstep.Simulation` | impl/durable.py:37-67 | the lockstep protocol answers every disciplined run call by call, with equal spending, dedup sets and transfers and at least the escrows |
| `DurableLockstep.BoundTransfers` | lean/Escrow/DurableProtocol.lean:21-49 | hence the implementation holds at most the conserved abstract authority, crashes of single replicas included |
| `DurableCertificate.CertificateInit` | spec/EscrowBudgetD.tla:47-55 | the initial state satisfies the five-conjunct certificate |
| `DurableCertificate.CertificateStep` | spec/EscrowBudgetD.tla:57-109 | the certificate is inductive, at every size |
| `DurableCertificate.CertificateHolds` | spec/EscrowBudgetD.tla:111-122 | it holds in every reachable state |
| `DurableCertificate.CertificateImplies` | spec/apalache/EscrowBudgetDInd.tla:10-33 | it implies the bound on the durable side, the order of spent, the addresses, and the cap |
| `DurableCertificate.EveryConjunctNeeded` | FLOORD-CTI.md:9-13 | leaving out any one of the five gives a predicate that is not inductive |
| `DurableMirror.CallIsAction` | impl/durable.py:101-121 | under any disciplines, each call but a drop, within the constants, stutters or takes an action of the specification |
| `DurableMirror.ActionIsCall` | spec/EscrowBudgetD.tla:57-109 | each action the specification allows is taken by some call |
| `DurableMirror.SameReachableStates` | impl/durable.py:15 | under any disciplines, the reachable states of the specification are exactly those that runs without a drop lead to |
| `DurableMirror.CertificateOfRuns` | spec/EscrowBudgetD.tla:111-122 | hence the certificate holds of the implementation on disciplined runs without a drop |
| `DistributedCluster.Replica.constructor` | impl/distributed.py:29-38 | a new replica holds its share and remembers nothing |
| `DistributedCluster.Replica.Charge` | impl/distributed.py:40-50 | an applied charge id is answered True without charging again; otherwise the local escrow decides, and an accepted charge is recorded and counted |
| `DistributedCluster.Replica.Issue` | impl/distributed.py:52-62 | an idempotent sender refuses an id it has issued; otherwise an accepted issue debits and yields the message |
| `DistributedCluster.Replica.Receive` | impl/distributed.py:64-70 | an idempotent receiver credits an id once |
| `DistributedCluster.Cluster.constructor` | impl/distributed.py:81-91 | distinct fresh replicas, an empty network, and the empty run |
| `DistributedCluster.Cluster.TotalEscrow` | impl/distributed.py:94-95 | the loop computes the sum over the roster |
| `DistributedCluster.Cluster.TotalSpent` | impl/distributed.py:97-98 | likewise for spent |
| `DistributedCluster.Cluster.InFlight` | impl/distributed.py:100-102 | going through all ids and skipping received ones sums the unreceived ones, at their first amount |
| `DistributedCluster.Cluster.Quantity` | impl/distributed.py:104-105 | spent, escrow and in-flight together |
| `DistributedCluster.Cluster.Check` | impl/distributed.py:116-122 | which assertion fails first, exactly; passes always within what the configuration promises |
| `DistributedCluster.Cluster.Charge` | impl/distributed.py:125-126 | the answer and the whole new state, spelled out: only the named replica changes, and only if it applies a new id |
| `DistributedCluster.Cluster.Issue` | impl/distributed.py:128-133 | the answer and the whole new state: the message is appended last, and the nominal amount of an id is fixed at its first issue |
| `DistributedCluster.Cluster.Deliver` | impl/distributed.py:135-140 | index i, or i minus the length, delivers element i and keeps it, any other index raises; the id is received only if the replica credited it |
| `DistributedCluster.Cluster.Drop` | impl/distributed.py:142-143 | index i, or i minus the length, returns element i and removes it, the others keeping their order; its amount stays in flight |
| `DistributedModel.StepIsEffect` | impl/distributed.py:40-143 | in every state and under any flags, each call has the effect spelled out field by field and message by message, and no other outcome does |
| `DistributedSafety.HeldIsConstant` | impl/distributed.py:52-70 | under any flags, replica balances plus what is owed per id and destination is constant |
| `DistributedSafety.InFlightIsOwed` | impl/distributed.py:100-102 | the in-flight total is at most what is owed: uncredited ids inject into the pairs they are owed to |
| `DistributedSafety.Safety` | impl/distributed.py:9-14 | with idempotent receivers, for either sender flag and any reuse of ids, quantity and total spent are within the cap on every run |
| `DistributedSafety.ReceiverIdempotencyIsExactlyNeeded` | impl/distributed.py:9-14 | the cap, and the bound, hold on all runs if and only if receivers are idempotent or the cap is 0; otherwise no bound holds |
| `DistributedSafety.ChargedOnce` | impl/distributed.py:72-73 | on every run, under any flags, no replica debits a charge id twice, and it has spent exactly the amounts on record |
| `DistributedSafety.DropThenDeliver` | impl/distributed.py:135-143 | dropping message i and then delivering by index is delivering the same message first, by its index before the drop, and then dropping |
| `DistributedConservation.QuantityMoves` | impl/distributed.py:104-105 | under any flags and in any state: the amount by which each call moves the quantity |
| `DistributedConservation.CreatesIff` | impl/distributed.py:135-140 | a call creates budget if and only if it is a successful delivery of more than is in flight for its id |
| `DistributedConservation.OneTransferHolds` | impl/distributed.py:128-140 | with both sides idempotent and no colliding issue, an id stands for one transfer: one message at most, one amount, credited at its destination only |
| `DistributedConservation.CoherentIsCollisionFree` | impl/distributed.py:52-62 | if no two replicas issue the same id, no issue collides |
| `DistributedConservation.ConservedStepIff` | impl/distributed.py:128-133 | with one transfer per id so far, a call keeps the quantity if and only if it does not issue, for a positive amount, an id that another replica has issued |
| `DistributedConservation.Conserved` | impl/distributed.py:110-111 | on every run without a collision the quantity equals the initial budget |
| `DistributedConservation.CheckNeverFails` | impl/distributed.py:116-122 | check() passes on every run with idempotent receivers and, if senders are idempotent too, no collision |
| `DistributedConservation.ConservedIff` | impl/distributed.py:110-122 | under any flags the quantity is the cap if and only if all that is owed is in flight; with both sides idempotent check() passes exactly then |
| `DistributedConservation.NeverCreates` | spec/EscrowBudgetC.tla:114 | with idempotent receivers, for either sender flag, no call raises the quantity on a run whose ids are reused for retries only |
| `DistributedConservation.CollisionMovesQuantity` | impl/test_distributed.py:115-127 | two issues under one id leave two units less than the cap, so check() fails, and delivering the second message raises the quantity by one |
| `DistributedConservation.BothSidesExactlyNeeded` | SCOPE.md:56-62 | conservation holds on all runs with unique ids if and only if both sides are idempotent or the cap is 0 |
| `DistributedConservation.OwnedTidsAreCoherent` | impl/test_distributed.py:26-31 | if every id has an owner and only the owner issues it, the run has unique ids |
| `EscrowOracle.StrictNeverRaises` | impl/escrow.py:70-80 | on every run, whatever the ids and amounts, the strict check passes |
| `EscrowOracle.GenesisSharesTotal` | impl/escrow.py:46-47 | giving the cap to one replica is a partition of it |
| `EscrowOracle.StepIsEffect` | impl/escrow.py:83-129 | in every state, each call has the effect spelled out field by field and message by message, and no other outcome does |
| `EscrowOracle.ChargedOnce` | impl/escrow.py:132-134 | on every run no charge id is debited twice, whichever replicas present it, and what has been spent is exactly what is on record |
| `EscrowService.EscrowService.constructor` | impl/escrow.py:40-55 | the genesis replica holds the cap, the others and all records are empty, and the first check passes |
| `EscrowService.EscrowService.InFlight` | impl/escrow.py:58-59 | going through all sent ids and skipping received ones sums the unreceived ones |
| `EscrowService.EscrowService.Check` | impl/escrow.py:70-80 | in strict mode, the first clause that fails; none if and only if all hold, and never one on a service reached by its own calls |
| `EscrowService.EscrowService.Charge` | impl/escrow.py:83-97 | a known id is answered True and changes nothing, whoever presents it; otherwise the local escrow decides; no exception |
| `EscrowService.EscrowService.SendTransfer` | impl/escrow.py:99-111 | a known id is refused, whoever presents it; an accepted transfer debits, is recorded, and its message is appended last; no exception |
| `EscrowService.EscrowService.Deliver` | impl/escrow.py:113-122 | index i, or i minus the length, delivers element i and keeps it, any other index raises; a known id is refused; no failed check |
| `EscrowService.EscrowService.Drop` | impl/escrow.py:124-129 | index i, or i minus the length, removes element i, the others keeping their order; any other index raises; no failed check |
| `OracleRefinement.RefineStep` | impl/escrow.py:83-129 | a call gets the same answer from cluster and service, and leaves them related, if and only if it does not diverge: a guard on the id, the replica and the amount that a caller can check |
| `OracleRefinement.Refinement` | impl/distributed.py:125-143 | both stay in step throughout a run if and only if none of its calls diverges |
| `OracleRefinement.SameAnswers` | impl/escrow.py:12-13 | on such runs both give the same answers and hold the same balances, and the strict service never raises |
| `OracleRefinement.ChargeIdReusedParts` | impl/escrow.py:88-89 | one charge id presented at two replicas parts them |
| `OracleRefinement.CoherentNeverDiverges` | impl/distributed.py:40-62 | a call whose id no other replica has handled does not diverge |
| `OracleRefinement.OwnedIdsAreCoherent` | impl/test_distributed.py:26-31 | runs in which every charge and transfer id is used by its owner only are coherent |
| `SpecModel.NextSane` | impl/spec_model.py:46-77 | every transition keeps types and signs and conserves the quantity |
| `SpecModel.ReachableConserves` | impl/spec_model.py:41-43 | every reachable state conserves the cap |
| `SpecModel.Successors` | impl/spec_model.py:46-77 | the nested loops list exactly the states one transition away |
| `SpecModel.ChargeSuccessors` | impl/spec_model.py:50-57 | the charges, all and only |
| `SpecModel.SendSuccessors` | impl/spec_model.py:59-67 | the first sends, all and only |
| `SpecModel.RecvSuccessors` | impl/spec_model.py:69-73 | the receipts, all and only |
| `SpecModel.DropSuccessors` | impl/spec_model.py:75-76 | the drops, all and only |
| `Explore.ReachableInUniverse` | impl/spec_model.py:80-97 | conservation confines the reachable states to a finite universe |
| `Explore.Violations` | impl/spec_model.py:88-93 | records exactly the properties a state breaks |
| `Explore.Explore` | impl/spec_model.py:80-97 | terminates, returns exactly the number of reachable states, and finds no violation |
| `SpecSimulation.CallIsTransition` | impl/distributed.py:125-143 | each conforming call of the cluster stutters or takes a listed transition |
| `SpecSimulation.TransitionIsCall` | impl/spec_model.py:46-77 | each listed transition is taken by some conforming call |
| `SpecSimulation.SameReachableStates` | impl/spec_model.py:10-12 | the reachable states of the transition function are exactly the abstractions of the cluster's |
| `Recovery.AuthorityLedger` | impl/recovery.py:5-7 | on every run, overdrafts included, circulating plus stranded authority is the initial one plus what unsafe reclaims invented |
| `Recovery.FlooredIsSignedPlusDebt` | impl/recovery.py:30-31 | flooring hides exactly the total debt |
| `Recovery.BreachCharacterised` | impl/recovery.py:15-16 | with safe reclaims, the cap is breached exactly when the debt exceeds what is stranded plus what solvent replicas hold, and the floored bound fails exactly when it exceeds what is stranded |
| `Recovery.ReclaimUndoesLoss` | impl/recovery.py:43-55 | a safe reclaim of what was just lost is granted, and undoes the loss, if and only if nothing negative was stranded before |
| `Recovery.SignedBoundCertifiesNothing` | impl/test_recovery.py:75-85 | one overdraft keeps the signed authority at the cap and spends more than the cap; the floored bound and the sign of the escrow catch it |
| `Recovery.SafetyCertificate` | impl/recovery.py:32-35 | without overdraft and with safe reclaims, solvency, both bounds and the cap hold on every run |
| `Recovery.RecoveryLedger.Safety` | impl/recovery.py:33 | true exactly when the debt is covered |
| `Recovery.RecoveryLedger.BoundSigned` | impl/recovery.py:34 | with safe reclaims, says only that nothing negative is stranded, whatever the debt |
| `Recovery.RecoveryLedger.BoundFloored` | impl/recovery.py:35 | with safe reclaims, true exactly when the debt is at most what is stranded |
| `Recovery.RecoveryLedger.Charge` | impl/recovery.py:37-41 | accepted exactly if an overdraft is allowed or the escrow covers it; then escrow falls and spending rises by the amount; a refusal changes nothing |
| `Recovery.RecoveryLedger.Lose` | impl/recovery.py:43-47 | accepted exactly if the escrow covers it; then the amount moves to what is stranded; a refusal changes nothing |
| `Recovery.RecoveryLedger.Reclaim` | impl/recovery.py:49-55 | refused exactly if it is safe and exceeds what is stranded; a granted one raises the escrow, and lowers what is stranded if it is safe |

## Left out

- The tuples of `impl/spec_model.py`, indexed by the position of a name, are maps from the names; the order in which successors are listed is not stated.
- Dictionaries are maps without an order; loops over them pick keys in an unspecified order.
- Names and ids are strings compared for equality only.
- The exceptions of unknown names, bad indices and negative amounts are one reply, without their type or text.
- The global persist and crash of the Lean protocol, and its theorem, are special cases of the per-replica ones.
- In the abstract protocol of `DurableLockstep` a transfer's amount and destination are kept once, not on both sides, since no step changes them; a send to a destination outside the roster is allowed, as in the implementation, and can never be received.
- In `DurableCertificate` the six functions on replicas of the TLA+ specification are one function to their six values, and the CHOOSE of a genesis replica is a parameter.
- The conjunct AmtOfSentOnly of the TLA+ certificate is not needed by the others and is not carried.
- Floor A, with unit amounts and one replica set, is a special case of the reference service.
- The calls `per_request_ok()`, which never answer False (`DistributedSafety.ChargedOnce`, `EscrowOracle.ChargedOnce`), and `wf()`, `signed_A()` and `floored_A()`, whose values are the functions the theorems are about.
- `DurableMirror` leaves drop() out, because the TLA+ specification has no such action.
- `impl/spec_model.py:run` and the constant 66 are one instance of `Explore`.
- The Hypothesis machines, mutation scripts, printing and timing, shell scripts and model-checker configurations.
- Liveness, fairness, availability, changing membership and faulty replicas, which the repository disclaims (README.md:34-52).
