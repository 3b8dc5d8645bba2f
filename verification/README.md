# Whisper: verified model

Whisper is a cluster of nodes that share a task ledger over gossip. A node claims a task by
writing a lease, runs it, and completes or releases it; payloads may be sealed so that half
of the nodes must cooperate to open them. This project models two coupled cores and
proves what they promise.

**Threshold sharing.** `Gf256`, `PolynomialProduct` and `GfInverse` are the byte field;
`Integers` and `GfLoops` are the program's loops on integers of any size and what the field
sees of them. `Polynomials` is interpolation, `Shamir` splitting and reconstruction,
`LargeClusters` what happens beyond 256 nodes, `ThresholdCipher` sealed payloads,
`Cooperation` which groups can open them, `ShareExchange` the gathering of shares across
the running cluster, and `ShareGathering` what one collection ends up with, from the
submission to the plain text.

**The replicated lease ledger.** `Tasks` is what each operation does to one copy of a task;
`Ledger` (in `TaskLedger.dfy`) is the ledger object. `Cluster` is the whole cluster as a state
machine: all ledgers, all executor threads, and a network that may deliver any copy ever
written at any later time, any number of times, or never. `ClusterInvariant` and
`ExecutorDiscipline` prove its invariant, `ClusterSafety` draws the consequences for all runs,
and `Provenance` traces every copy to its submission and every result to a call.
`Convergence` treats the merge alone, `LeaseTiming` adds time for one lease, and
`LeaseInCluster` carries the result over to timed runs of the whole cluster. `Runtime` and
`Executor` are the scan, the executor threads and the ledger's part in them, each step shown
to be a step of `Cluster`. `NodeServices` ties sealing, collecting and lease convergence to
the rest.

**Membership.** `PeerViews` is what an event does to a node's view of its peers, `Membership`
the membership object, `FailureDetection` the cluster of views, `Quorum` the quorum test,
`LeaseConvergence` the agreement on a lease duration, and `Gossip` the hop-limited fanout. `Lists` and `Arithmetic` hold what several of these use.

## Assumptions

- Submitted task ids are fresh, and each `task_submit` is delivered once. Without this the
  completion of a task can be undone, and `ClusterSafety.SubmitKeepsCompletedExactly` says exactly when.
- Nodes follow the program. Signatures, hashes and encryption are ideal: a commitment or hash
  is the value it was made from, and a ciphertext opens with its key and with no other.
- The clock is shared by all nodes where time matters.
- The scan's check, claim and mark of one task (`whisper/runtime.py:160-168`) is one atomic
  step, as is every method body that runs under a lock; each reads the clock once.
- The ledger file equals the ledger after every step; a crash loses executor threads,
  membership and nothing else.
- An update carries the copy as it was written under the lock. The program serialises the
  live task object just after the lock is released (`whisper/ledger.py:290`), so a second
  write in between could be sent in its place; what is said about copies in flight assumes
  that none is. Objects handed out by getters are copies for the same reason.
- Randomness is an arbitrary argument: the field coefficients, the message key, the order in
  which peers are tried.

## Where the code and its documentation differ

The model follows the code.

- The threshold is described as a majority (`whisper/node.py:474-488`), but it is half of the
  keys, rounded up, so that with an even number of keys it is no majority
  (`ThresholdCipher.ThresholdIsHalf`). Up to 255 keys a group of holders is sure to open a
  payload exactly if it has that many members, and with 256 keys also if it has holder 256
  (`Cooperation.GroupOpensExactly`). Up to 255 keys two groups
  without a common member can each be sure exactly when the number of keys is even;
  `Cooperation.TwoGroupsOpenExactly` gives the condition for any number.
- The ledger's docstring (`whisper/ledger.py:9-12`) says that the later lease expiry wins
  between two claims. The merge (`whisper/ledger.py:436-461`) never looks at the expiry and
  keeps the copy that came first: `Convergence.ExpiryBreaksNoTies`. The later expiry wins in
  both orders exactly when its copy also has the higher version:
  `Convergence.LaterExpiryWinsExactly`.
- The executor methods `release_lease` and `complete_task` do not look at the status, so a
  completed copy is not protected by them; completion is sticky because of how executors
  behave. `ClusterSafety.ReleaseKeepsCompletedExactly` and
  `ClusterSafety.CompleteKeepsCompletedExactly` say when one such call alone would destroy a
  result, `ClusterSafety.CompletionIsSticky` that no run gets there.
- Leases are exclusive exactly when the gap between scans and the delivery delay together fit
  in the renewal threshold (`LeaseTiming.ExclusiveExactly`,
  `LeaseInCluster.ClusterExclusiveExactly`). The default threshold of 15 s with
  scans every 5 s leaves 10 s for delivery. The convergence loop sets the threshold to 0.4 of
  the adopted duration (`whisper/node.py:302`), which fits exactly from 12.5 s plus 2.5 delays
  on; the 5 s leases of the repository's fast mode, with a 2 s threshold, do not fit.
- `has_quorum` subtracts dead peers and is described as a strict majority. Two divided nodes
  can both have quorum as soon as two members across the divide are wrongly discounted, and
  not before: `Quorum.ExclusiveExactly`. With a configured cluster size the discounted are
  the dead; with an inferred size they are the dead and the unknown, so two nodes that know
  nobody both have quorum (`Quorum.StrangersBothHaveQuorum`).
- Heartbeats from a peer that still looks alive do not clear reports against it
  (`whisper/membership.py:421-428`), so only the report that completes a death verdict is
  newer than the last heartbeat: `PeerViews.OldReportStillCounts`,
  `FailureDetection.VerdictIsFresh`. `PeerViews.HeartbeatClearsExactly` says when they are
  cleared.
- The membership docstring speaks of 6 s of silence (`whisper/membership.py:6`), the constant
  is 10 s; the limit is a parameter here.
- `shamir_split` promises that any t shares reconstruct. The field sees labels modulo 256, so
  that holds for all picks exactly up to 256 shares, or up to 511 when all are needed
  (`LargeClusters.RecoversExactly`), and from 256 on a share equals the secret
  (`Shamir.SomeShareIsTheSecret`).

## Model

| member | source | states |
|---|---|---|
| GfLoops.GfMul | whisper/crypto.py:169-180 | on integers of any size, the shift-and-xor loop computes the field product of the low bytes, and exactly what it leaves above them |
| Gf256.MulCommutes | whisper/crypto.py:169-180 | the product does not depend on the order of its factors |
| Gf256.MulAssociates | whisper/crypto.py:169-180 | the product is associative |
| Gf256.MulDistributes | whisper/crypto.py:169-180 | the product distributes over xor in both arguments |
| Gf256.MulUnit | whisper/crypto.py:169-180 | 1 is the unit |
| PolynomialProduct.MulIsProductModulo | whisper/crypto.py:166-180 | a byte is the field product if and only if it is the remainder of the unreduced polynomial product modulo x^8+x^4+x^3+x+1 (section 4.2 of FIPS 197) |
| PolynomialProduct.RemainderUnique | whisper/crypto.py:167-180 | that remainder is unique, so the reference is a definition |
| GfLoops.GfInv | whisper/crypto.py:183-193 | raises exactly on 0; otherwise the loop returns the byte a^254, which multiplies with a to 1 unless a is a multiple of 256 |
| GfInverse.Fermat | whisper/crypto.py:184-184 | a times a^254 is 1 for every nonzero byte |
| GfInverse.InverseUnique | whisper/crypto.py:183-193 | whatever multiplies with a to 1 is that inverse, and a is not 0 |
| GfInverse.NoZeroDivisors | whisper/crypto.py:169-193 | nonzero bytes are closed under the product, so they form a group |
| GfInverse.DivisionUnique | whisper/crypto.py:234-234 | b times x is c if and only if x is c times the inverse of b |
| Polynomials.DivideByRoot | whisper/crypto.py:203-214 | every polynomial is its quotient by (x - r) times that factor plus its value at r |
| Polynomials.UniqueThroughPoints | whisper/crypto.py:219-237 | two polynomials with n coefficients that agree at n different points are equal |
| Polynomials.LagrangePasses | whisper/crypto.py:230-235 | the interpolation polynomial passes through its points |
| Polynomials.LagrangeRecovers | whisper/crypto.py:230-235 | at every point z, the Lagrange sum over enough points of a polynomial is its value at z |
| Polynomials.ConstantIsFree | whisper/crypto.py:206-212 | through any points away from 0 and with any constant term passes exactly one polynomial of one more coefficient |
| Shamir.HornerLoop | whisper/crypto.py:209-212 | Horner's loop evaluates the polynomial at the label modulo 256 and stays a byte |
| Shamir.ShamirSplit | whisper/crypto.py:196-216 | share i is labelled i and holds, for every secret byte, the value at i of the polynomial with that byte as constant term |
| Shamir.LagrangeWeight | whisper/crypto.py:230-234 | the weight of a share at 0, a byte; it inverts 0 exactly when another share has its label |
| Shamir.ShamirReconstruct | whisper/crypto.py:219-237 | for labels of any size, the Lagrange sums at 0, byte by byte, and exactly which inputs make it raise |
| Shamir.AnyEnoughSharesRecover | whisper/crypto.py:196-237 | any t or more different shares, in any order and whatever the coefficients, give back exactly the secret without error; beyond 256 shares if their labels differ modulo 256 |
| LargeClusters.RecoversExactly | whisper/crypto.py:196-237 | every pick of t or more of n shares gives back every secret if and only if n is at most 256, or n is at most 511 and t is n |
| LargeClusters.ZeroLabelRecovers | whisper/crypto.py:230-235 | a pick with exactly one label that is 0 modulo 256 gives back the secret, whatever the threshold |
| Shamir.FewSharesFitEverySecret | whisper/crypto.py:198-216 | any t-1 shares are explained by every secret, each by exactly one choice of coefficients |
| Shamir.SomeShareIsTheSecret | whisper/crypto.py:208-214 | some share always equals the secret if and only if there are 256 shares or more, or the threshold is at most 1 and there is a share |
| ThresholdCipher.ThresholdIsHalf | whisper/node.py:472-489 | the threshold is half of the distinct known keys rounded up, our own among them, and a majority exactly when their number is odd |
| ThresholdCipher.ThreeKeysExactly | whisper/node.py:472-489 | payloads are split into shares if and only if the node has a key and knows two others, different from it and from each other |
| ThresholdCipher.Encrypt | whisper/crypto.py:277-307 | the text under a fresh key, and share i of that key sealed to the i-th node |
| ThresholdCipher.DecryptOwnShare | whisper/crypto.py:309-334 | finds the first share sealed to our key, or none |
| ThresholdCipher.OwnShareIsGenuine | whisper/crypto.py:309-334 | exactly the nodes sealed to find a share, and it is a share of the payload's key |
| ThresholdCipher.ReconstructAndDecrypt | whisper/crypto.py:336-342 | opens the payload exactly when the shares recombine to its key |
| ThresholdCipher.EnoughGenuineSharesOpen | whisper/crypto.py:240-342 | t different genuine shares open the payload to the text that was sealed; beyond 256 keys if their labels differ modulo 256 |
| Cooperation.PoolIsPick | whisper/crypto.py:309-334 | what a group of key holders finds in a payload is one share of the key each, that of its position |
| Cooperation.GroupOpensExactly | whisper/node.py:472-489 | up to 256 keys, a group of key holders is sure to open every payload if and only if it has t members or has holder 256 |
| Cooperation.TwoGroupsOpenExactly | whisper/node.py:472-489 | with the program's threshold, two groups without a common member can each be sure to open every payload if and only if the number of keys is even, or at least 256 and not 511 |
| ShareExchange.ExchangeKeeps | whisper/node.py:491-581 | in every run of the cluster and its share traffic, every open or finished collection holds different labels and only genuine shares |
| ShareExchange.GatheredSharesOpen | whisper/node.py:491-581 | whatever list a collection returns holds different genuine shares of the payload submitted, no copy of the task opens to anything but the submitted text, and t shares open it; beyond 256 keys if their labels differ modulo 256 |
| ShareGathering.AddShareExactly | whisper/node.py:573-581 | an answer with a new label is kept at the end of the list, one with a label already there is dropped |
| ShareGathering.CollectionLabels | whisper/node.py:491-581 | at any moment the labels in an open collection are our own and those of all answers that arrived since it began |
| ShareGathering.ClosedListIsComplete | whisper/node.py:491-581 | closing returns one share for our own label and one for each label answered, and nothing else |
| ShareGathering.SubmissionSeals | whisper/ledger.py:191-243 | in every state after the submission of a sealed payload, every copy counts as submitted sealed |
| ShareGathering.AnsweredCollectionOpens | whisper/node.py:491-581 | in every run with a submission, a collection and answers with t-1 other labels, closing gives a list that opens every copy to the text submitted; beyond 256 keys if the labels differ modulo 256 |
| NodeServices.SealForSubmit | whisper/ledger.py:191-223 | sealed to half of the known keys when there are three, else to the home node when its key is known, else plain |
| NodeServices.SubmitText | whisper/ledger.py:191-247 | the task stored is pending, in version 1, and carries the text sealed in that way with the submitter, shard and time given; it is the machine's submit step |
| NodeServices.ShareCollector.Open | whisper/node.py:491-517 | the collection starts with our own share; nothing is collected without one or when one is enough |
| NodeServices.ShareCollector.HandleShareResponse | whisper/node.py:561-581 | a share with a new label is appended, any other and any for a collection not open changes nothing; the wait ends when as many are there as are needed |
| NodeServices.ShareCollector.Close | whisper/node.py:529-534 | returns what was collected and empties the slot |
| NodeServices.ShareCollector.HandleShareRequest | whisper/node.py:536-559 | answers with our share of our own copy's payload, or not at all |
| NodeServices.CollectorFollowsExchange | whisper/node.py:491-581 | the collector's slots change as the exchange machine says |
| NodeServices.ConvergeLease | whisper/node.py:284-305 | one round adopts the consensus exactly when it is too far off, and keeps ledger and membership at one value |
| Ledger.TaskLedger.SubmitTask | whisper/ledger.py:225-247 | the task is stored with the payload and fields given, pending, in version 1, and gossiped |
| Ledger.TaskLedger.ClaimTask | whisper/ledger.py:264-292 | succeeds exactly on pending and lapsed copies; the new copy, the gossip and the rescue count |
| Ledger.TaskLedger.RenewLease | whisper/ledger.py:294-306 | succeeds exactly on our own running lease; new expiry and version, gossiped |
| Ledger.TaskLedger.ReleaseLease | whisper/ledger.py:249-262 | succeeds exactly when we are the holder, whatever the status; back to pending, gossiped |
| Ledger.TaskLedger.CompleteTask | whisper/ledger.py:308-350 | succeeds exactly when we are the holder, whatever the status; stores the result given, its hash and the time, and notifies the submitter |
| Ledger.TaskLedger.RecoverIdentity | whisper/ledger.py:127-162 | exactly our running leases are refreshed, counted and gossiped once each |
| Ledger.TaskLedger.ReleaseAllLeases | whisper/ledger.py:164-189 | exactly our running leases go back to pending, counted and gossiped once each |
| Ledger.TaskLedger.GetClaimableTasks | whisper/ledger.py:352-364 | exactly the pending tasks and the lapsed ones that are not ours, each once |
| Ledger.TaskLedger.GetTasksNeedingRenewal | whisper/ledger.py:371-377 | exactly our running leases with less than the threshold left, each once |
| Ledger.TaskLedger.GetMyActiveTasks | whisper/ledger.py:366-369 | exactly our running leases, each once |
| Tasks.ClaimableExactly | whisper/ledger.py:352-364 | a task is listed as claimable if and only if a claim would be accepted and it is not our own running lease |
| Tasks.ClaimLasts | whisper/ledger.py:264-292 | after a claim the next one by anyone is accepted if and only if the full lease has run out |
| Tasks.RenewalLasts | whisper/ledger.py:294-306 | the same after a renewal and after a restart that takes the lease up again |
| Tasks.ReleasedIsFree | whisper/ledger.py:164-189 | a lease given up, alone or at shutdown, can be claimed by anyone at once |
| Tasks.CompletedIsFinal | whisper/ledger.py:308-323 | a completion keeps the result, and nobody can claim the task again |
| Ledger.TaskLedger.HandleLedgerUpdate | whisper/ledger.py:417-474 | duplicates and updates with a forged signature change nothing and are not passed on; unsigned and genuine ones are merged, and passed on exactly when they changed the copy and hops remain |
| Ledger.HandlerForwards | whisper/ledger.py:470-504 | what the handler passes on is at most three packets of one hop less, as the bound on sends requires |
| Ledger.PassedOnExactly | whisper/ledger.py:470-504 | something is passed on if and only if the copy held changed, hops remain and there are peers, and it is the update itself with one hop less, its signature and sender kept |
| Ledger.GossipedTells | whisper/ledger.py:483-504 | gossip about a copy brings that copy, in the node's name and not forged, to three peers or to all |
| Ledger.GossipedAllTells | whisper/ledger.py:127-189 | gossip about several copies brings each of them to somebody, and nothing else, unless there are no peers |
| Ledger.TaskLedger.FanoutRaw | whisper/ledger.py:494-504 | sends to three different peers or all of them, leaving out no mesh peer for another |
| Convergence.ReceiveByRank | whisper/ledger.py:434-461 | the handler's branches replace a copy exactly by one of higher rank, completed on top and otherwise by version |
| Convergence.MergeIdempotent | whisper/ledger.py:434-461 | merging a copy with itself changes nothing |
| Convergence.MergeAssociates | whisper/ledger.py:434-461 | merging is associative |
| Convergence.FoldKeepsTop | whisper/ledger.py:434-461 | after any updates in any order with repeats, the copy held has the highest rank seen |
| Convergence.SameUpdatesSameRank | whisper/ledger.py:434-461 | replicas that saw the same updates hold copies of equal rank |
| Convergence.OrderIrrelevantExactly | whisper/ledger.py:434-461 | delivery order is irrelevant for a set of updates if and only if a single copy has the top rank |
| Convergence.ExpiryBreaksNoTies | whisper/ledger.py:9-12 | of two claims with equal version the first to arrive stays, even if the other expires later |
| Convergence.LaterExpiryWinsExactly | whisper/ledger.py:9-12 | of two running leases the one that expires later wins in both orders if and only if it has the higher version |
| Convergence.OutranksTransitive | whisper/ledger.py:436-461 | ranks order the copies, so a highest one is meaningful |
| ClusterInvariant.ActionIsEntryStep | whisper/ledger.py:127-323 | every action changes a ledger entry to a well-formed newer copy of the node's own, to a received copy of higher rank, or not at all |
| ExecutorDiscipline.ActionKeepsGated | whisper/runtime.py:159-212 | each executing mark belongs to one thread past the gate and the other way round, through every action |
| ExecutorDiscipline.OwnCompletionIsCall | whisper/runtime.py:214-269 | a node's own completed copy comes only from a completion call of one of its running threads on a task it holds, and carries that call's result and time and the task's fields |
| ExecutorDiscipline.KeepsNotDone | whisper/runtime.py:177-212 | a task that a running thread executes stays not completed by its own node until that thread's call |
| ExecutorDiscipline.RunKeepsInvariant | whisper/runtime.py:159-269 | the copy invariant and executor discipline hold in every state of every run, through crashes, releases and lapses |
| ClusterSafety.RankNeverFalls | whisper/ledger.py:127-468 | a node's copy of a task changes only to a copy of higher rank, over whole runs |
| ClusterSafety.CompletionIsSticky | whisper/ledger.py:436-443 | once a node's copy is completed, that copy never changes again |
| ClusterSafety.WritesRise | whisper/ledger.py:127-323 | a node's writes to one task have strictly rising versions, and none follows its own completion |
| ClusterSafety.VersionAndWriterDetermineCopy | whisper/ledger.py:127-323 | task, version and writer determine the copy |
| ClusterSafety.CompletedCopiesAgree | whisper/ledger.py:308-323 | two completed copies of a task with the same holder are identical, wherever they are |
| ClusterSafety.CopiesWellFormed | whisper/ledger.py:37-54 | every copy anywhere has consistent status, holder, expiry, version, commitment, result and hash, and all copies of a task share payload, shard, submitter and creation time |
| ClusterSafety.ForwardedOnce | whisper/ledger.py:470-474 | a node passes on a given copy at most once in a run, without relying on the cache of seen ids |
| ClusterSafety.NeverForwardsOwn | whisper/ledger.py:436-474 | a node never passes on a copy it wrote itself, so it gossips each copy at most once in a run, its own first gossip included |
| ClusterSafety.OneExecutor | whisper/runtime.py:159-212 | at most one thread per task and node is past the gate |
| ClusterSafety.CalledOnce | whisper/runtime.py:214-269 | each thread makes at most one completion or release call |
| Provenance.SubmissionIsStored | whisper/ledger.py:225-243 | a submission stores and sends the task with exactly the payload and fields given |
| Provenance.SubmissionPersists | whisper/ledger.py:37-54 | in every later state every copy of the task anywhere has exactly the payload and fields submitted |
| Provenance.CopiesWereSubmitted | whisper/ledger.py:225-243 | in every run every copy anywhere goes back to an earlier submission of its task with its payload and fields |
| Provenance.ResultsComeFromCalls | whisper/ledger.py:308-323 | in every run every completed copy anywhere carries the result and time of an earlier completion call by a running thread of its holder for that task |
| ClusterSafety.SubmitKeepsCompletedExactly | whisper/ledger.py:225-243 | submitting spares completed copies if and only if the id is not one of a completed copy |
| ClusterSafety.ReleaseKeepsCompletedExactly | whisper/ledger.py:249-260 | a release call spares completed copies if and only if the copy is not one the node itself completed |
| ClusterSafety.CompleteKeepsCompletedExactly | whisper/ledger.py:308-323 | a completion call spares completed copies under the same condition |
| LeaseTiming.SuitableBoundsExclude | whisper/ledger.py:264-306 | if scan gap and delay fit in the renewal threshold, no claim by anyone succeeds while the holder keeps running |
| LeaseTiming.ExclusiveExactly | whisper/runtime.py:113-116 | and if they do not fit, some run lets a claim succeed: the bound is exact |
| LeaseInCluster.WatchedRunIsSafe | whisper/ledger.py:264-306 | in timed runs of the whole cluster every ledger keeps the holder's lease or one of its renewals, and every copy in flight is one of these or does not outrank them |
| LeaseInCluster.ClusterLeaseExclusive | whisper/ledger.py:264-306 | in timed runs of the whole cluster in which the holder keeps running and neither completes nor releases, no node's scan or award claims the task |
| LeaseInCluster.ClusterExclusiveExactly | whisper/runtime.py:113-116 | in timed runs of the whole cluster no scan ever claims the task if and only if scan gap and delay fit in the renewal threshold |
| Runtime.OneBackupPerShard | whisper/runtime.py:99-101 | each shard is backed up by exactly one node, the next shard's, and not by itself unless there is one shard |
| Runtime.CandidatesExactly | whisper/runtime.py:118-150 | the scan takes exactly the claimable tasks of its own shard, and with quorum those whose home is dead under the backup and capability rules, each once, in that order |
| Runtime.EligibleExactly | whisper/runtime.py:128-150 | tasks of other shards are taken exactly with quorum, nobody alive at their home, and for shards not backed up nobody alive who has all our capabilities |
| Runtime.HeartbeatEndsRescue | whisper/runtime.py:128-150 | a heartbeat from a node of the shard, or from one with our capabilities, ends the rescue, whatever was believed before |
| Runtime.RescueOnOneSideOnly | whisper/runtime.py:128-150 | with at most one member wrongly discounted across a divide, only one of two divided nodes takes tasks of other shards |
| Runtime.SealedTaskRunsOrRetries | whisper/runtime.py:214-243 | on a sealed task the executor gives the lease back exactly when it has fewer than t shares, never runs on anything but the submitted text, and with t shares runs on it; beyond 256 keys if the labels differ modulo 256 |
| Runtime.AnsweredTaskRuns | whisper/runtime.py:214-243 | from submission to inference: with answers from t-1 others the executor runs on the text submitted; beyond 256 keys if the labels differ modulo 256 |
| Runtime.SealedTextRunsAtHomeExactly | whisper/runtime.py:244-256 | a text sealed to one node runs if and only if the executor has that node's key; otherwise a note says why not |
| Runtime.UnopenedTaskEnds | whisper/runtime.py:214-243 | without a collector, or with t shares that do not fit, the task ends in a note and is not retried |
| Runtime.DidIsStep | whisper/runtime.py:113-269 | whatever a node does to its ledger and its executors is a step of the cluster machine |
| Executor.AgentRuntime.Dispatch | whisper/runtime.py:159-175 | check, claim and mark of one task as one step, and the claim gossiped |
| Executor.AgentRuntime.HandleTaskAward | whisper/node.py:434-448 | an award to us claims the task, gossips the claim and starts a thread before the gate |
| Executor.AgentRuntime.PassGate | whisper/runtime.py:192-201 | an awarded thread goes on exactly when the task is not executing |
| Executor.AgentRuntime.CheckActive | whisper/runtime.py:177-190 | after the pause the thread runs the task exactly when its lease is still ours |
| Executor.AgentRuntime.Inspect | whisper/runtime.py:214-256 | which payloads are run, which end in a fixed note, and when the lease is given back |
| Executor.AgentRuntime.ExecuteOne | whisper/runtime.py:214-269 | one completion call with the answer, or one release call, gossiped exactly when we still hold the task |
| Executor.AgentRuntime.LeaveThread | whisper/runtime.py:188-190 | the thread ends and clears its mark on every path |
| Executor.AgentRuntime.Submit | whisper/ledger.py:225-247 | submitting is the machine's submit step, and the task is gossiped |
| Executor.AgentRuntime.Renew | whisper/ledger.py:294-306 | renewing is the machine's renewal step, gossiped exactly when the lease is ours |
| Executor.AgentRuntime.Receive | whisper/ledger.py:417-474 | an accepted update is the machine's delivery of that copy, passed on exactly when it changed something and hops remain; any other is no step |
| Executor.AgentRuntime.ShutDown | whisper/ledger.py:164-189 | a graceful shutdown is the machine's release of all leases |
| Executor.AgentRuntime.Recover | whisper/ledger.py:127-162 | a restart is the machine's restart: no threads, and the node's leases taken up again |
| Executor.AgentRuntime.Scan | whisper/runtime.py:113-175 | undisturbed, a scan renews exactly the due leases and starts exactly the eligible tasks that a claim would accept, that are not our own lease and not executing, with one new thread and a full lease each, own shard first; it gossips every renewal and then every claim once and is that series of steps of the cluster machine |
| Gossip.TargetsChosen | whisper/membership.py:352-363 | however the peers are shuffled, the targets are three different peers or all, mesh peers first |
| Gossip.CacheHoldsLatest | whisper/ledger.py:417-421 | after any messages the cache of seen ids holds exactly the latest thousand |
| Gossip.DeliveryLowersWeight | whisper/membership.py:386-390 | every delivery strictly lowers the weight of what is in flight and pays for what it sends |
| Gossip.FreshMessagesDieOut | whisper/ledger.py:483-504 | a fresh message to three peers causes at most 9840 sends, a heartbeat to n peers at most 3280 n; something can happen exactly while something is in flight, and after that many events nothing is |
| PeerViews.ReportKillsExactly | whisper/membership.py:441-467 | a report kills if and only if the peer was not heard since and another reporter is on record |
| PeerViews.HeartbeatClearsExactly | whisper/membership.py:421-428 | a heartbeat forgets reports against its sender if and only if the sender was suspected or dead |
| PeerViews.JoinClearsExactly | whisper/membership.py:365-378 | and so does a join |
| PeerViews.HeartbeatExactly | whisper/membership.py:392-434 | whatever was believed of the sender, it is alive and just seen with what it announced; nobody else changes, and the unknown peers it names are met |
| PeerViews.JoinExactly | whisper/membership.py:365-387 | a join does the same without tasks, duration and other peers |
| PeerViews.ReportExactly | whisper/membership.py:441-459 | a report on another node that is not out of date is recorded under its reporter and changes only its suspect; any other is dropped |
| PeerViews.TwoReportsKill | whisper/membership.py:455-467 | two fresh reports from different reporters make a known peer dead |
| PeerViews.CheckExactly | whisper/membership.py:322-337 | exactly the live peers silent for longer than the limit become suspects |
| PeerViews.SyncExactly | whisper/membership.py:181-222 | exactly the live peers that left the mesh and were silent for longer than half the limit become suspects, and newcomers become peers |
| PeerViews.OldReportStillCounts | whisper/membership.py:421-428 | a report older than the last heartbeat can still be half of a death verdict |
| Membership.MembershipLayer.OnHeartbeat | whisper/membership.py:392-439 | the new view and the relay |
| Membership.MembershipLayer.OnNodeJoin | whisper/membership.py:365-390 | the new view and the relay |
| Membership.MembershipLayer.OnSuspicion | whisper/membership.py:441-476 | the new view, the report recorded under its originator, the relay, and the death callback exactly for the peer that turned dead |
| Membership.MembershipLayer.HandleMessage | whisper/membership.py:273-285 | a message whose id is not in the cache changes the view, is relayed and runs the death callback as its kind demands; any other changes nothing |
| Membership.MembershipLayer.DetectFailures | whisper/membership.py:322-350 | exactly the live peers silent for longer than the limit become suspects; reports in the node's own name are sent on each of them and on nobody else |
| Membership.MembershipLayer.AxlSync | whisper/membership.py:181-229 | newcomers become peers and are greeted; exactly the live peers that left the mesh and were silent for longer than half the limit become suspects and are reported; nothing else is sent |
| Membership.MembershipLayer.AddPeer | whisper/membership.py:94-100 | an unknown key other than ours becomes a peer |
| Membership.MembershipLayer.GetAlivePeers | whisper/membership.py:102-104 | exactly the peers not dead, each once |
| Membership.MembershipLayer.GetEffectiveClusterSize | whisper/membership.py:113-124 | the configured size, or all known nodes |
| Membership.MembershipLayer.HasQuorumNow | whisper/membership.py:126-144 | decides the quorum test |
| Membership.MembershipLayer.GetPeerForShard | whisper/membership.py:146-152 | a live peer of the shard, or none if there is none |
| Membership.MembershipLayer.GetConsensusLeaseDuration | whisper/membership.py:160-175 | the smallest of our own and all durations reported by peers not dead |
| Membership.MembershipLayer.Fanout | whisper/membership.py:352-363 | sends to three different peers that are not dead, or all of them, leaving out no mesh peer for another |
| Membership.HandlerForwards | whisper/membership.py:352-363 | what a handler passes on is at most three packets of one hop less, as the bound on sends requires |
| Membership.PassedOnExactly | whisper/membership.py:365-476 | a handler passes a message on if and only if it is news of another node, hops remain and some peer is not dead, and it is the message itself with one hop less |
| Membership.SuspectsAreTold | whisper/membership.py:338-350 | reporting the silent peers sends a report on each of them and nothing else |
| Membership.EchoesCountOnce | whisper/membership.py:441-459 | a suspicion heard again through another relay changes nothing |
| Membership.HandledSound | whisper/membership.py:273-285 | handling any message keeps the node out of its own table and every dead peer backed by two reporters |
| Membership.HeartbeatIsNoted | whisper/membership.py:414-415 | for lease agreement, handling a heartbeat is the agreement machine's step |
| FailureDetection.RunKeepsInvariant | whisper/membership.py:205-229 | in every run each recorded or travelling report goes back to a node that itself moved the peer from alive to suspected |
| FailureDetection.NewReporter | whisper/membership.py:441-476 | only a report adds a reporter, and it adds its originator, however often it was relayed |
| FailureDetection.DeadHasTwoWitnesses | whisper/membership.py:322-350 | a dead peer has two different recorded reporters, neither the peer itself, that each earlier suspected it after more than half the limit of silence |
| FailureDetection.VerdictIsFresh | whisper/membership.py:449-462 | the report that completes a verdict is not older than the last time the peer was heard, and comes from such a witness |
| FailureDetection.CheckSuspectsExactly | whisper/membership.py:322-337 | in the cluster of views a check suspects a live peer, and means to report it, if and only if it was silent for longer than the limit |
| FailureDetection.SyncSuspectsExactly | whisper/membership.py:205-222 | a look at the mesh does so if and only if the peer left the mesh and was silent for longer than half the limit |
| FailureDetection.SilenceCanBeConfirmed | whisper/membership.py:322-467 | from every state in which two nodes have not heard a peer for longer than their limits, their checks and reports alone can lead to its death verdict at any third node that knows it |
| Quorum.OneVerdictIsNotEnough | whisper/membership.py:113-144 | configured or inferred size, two nodes with disjoint sides never both have quorum with at most one member of the other side wrongly discounted |
| Quorum.SplitBrain | whisper/membership.py:130-136 | every cluster has a division with two wrong verdicts where both have quorum |
| Quorum.ExclusiveExactly | whisper/membership.py:113-144 | so quorum excludes the other side if and only if at most one member is wrongly discounted |
| Quorum.StrangersBothHaveQuorum | whisper/membership.py:113-144 | with an inferred size two nodes that know nobody both have quorum, each discounting the other |
| Quorum.InferredSize | whisper/membership.py:113-124 | without a configured size, knowing every member gives the true size |
| LeaseConvergence.ValuesAreInitial | whisper/node.py:284-305 | every duration in use or in a message is some node's initial one |
| LeaseConvergence.DeadHaveNoSay | whisper/membership.py:160-175 | the consensus is the same with and without a peer held dead |
| LeaseConvergence.LiveHaveASay | whisper/membership.py:160-175 | a live peer's report is the consensus if it is smaller than the consensus of the others |
| LeaseConvergence.ValuesNeverRise | whisper/node.py:284-305 | a node's duration never rises |
| LeaseConvergence.MinimumStays | whisper/membership.py:160-175 | none falls below the initial minimum, and the node that has it keeps it |
| LeaseConvergence.ChangesBounded | whisper/node.py:295-303 | a node adopts at most once for each initial value below its own |
| LeaseConvergence.SettledExactly | whisper/node.py:295-303 | with current reports and nobody dead, nothing is left to adopt if and only if every value is within a tenth of the minimum |
| LeaseConvergence.RunsSettleNearMinimum | whisper/node.py:284-305 | a settled run has every value of at least 0.1 at most at the initial minimum over 0.9 |
| LeaseConvergence.AdoptedLeaseExclusiveExactly | whisper/node.py:301-302 | an adopted duration keeps leases exclusive if and only if it is at least 2.5 times scan gap plus delay |

## Left out

- Cooperation.GroupOpensExactly: up to 256 keys; beyond that members whose numbers agree modulo 256 cancel each other out, and `Cooperation.TwoGroupsOpenExactly` says what follows for two groups.
- Shamir.ShamirSplit: the uniform distribution of coefficients is not modelled; secrecy is stated by counting the choices that explain what is seen.
- LeaseTiming.ExclusiveExactly: with renewals arriving within a fixed delay and a threshold no longer than the lease.
- LeaseConvergence.ValuesNeverRise: nodes do not restart within a run; a restart returns a node to its configured duration.
- Executor.AgentRuntime.Scan: describes a scan that nothing interleaves with; interleavings are those of the cluster machine, whose steps `Executor.AgentRuntime.Dispatch` and the ledger's methods are.
- Ledger.TaskLedger.SubmitTask: takes the sealed payload as an input; the choice of encryption is `NodeServices.SealForSubmit`.
- Task objects are values in the ledger's map, so aliasing between the ledger, getters and messages is not modelled.
- One result per task across the cluster: two nodes cut off from each other may both complete a task and each keeps its own result.
- Progress: that recovered tasks finish (`recover_identity` refreshes the lease but starts no thread), that gossip reaches everyone, that shares arrive in time.
- The auction before the award (bids, prices, waiting times) and the payment prices: any node may be awarded any task at any time here.
- Signing, key agreement and ciphers, transport, HTTP, logging, events, metrics, persistence format and malformed messages.
- The heartbeat broadcast and the start-up join broadcast, which only send a node's own fields to its peers.
- Inference, the name service, `pyens` and the demo: remote services and display.
