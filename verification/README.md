# Task discovery service: a verified model

Services register under a task name, and clients ask for a service that performs a task. This project models the four
parts of the system that carry its guarantees, and proves them:

1. **Placement in the DHT.** Nodes sit on a 256-bit ring, each task belongs to the k nodes clockwise closest to its hash,
   and every node decides responsibility from the part of the network it happens to know. A STORE that reaches the wrong
   node is answered with suggestions, which the sender follows. (`ring`, `dht_*`)
2. **The store-backed registry.** An in-memory cache in front of a database table, with marks for writes that the database
   has not accepted yet, admission after repeated misses, and a warm cycle that rebuilds and swaps the cache.
   (`selection`, `memory_registry`, `service_store`, `store_backed*`, `warm_outcomes`, `registry_outcomes`,
   `pending_marks`, `registry_objects`)
3. **The firewall.** A linear rule list, and an index of the same rules grouped by printed source prefix. Prefixes follow
   section 3.1 of RFC 4632 and section 2.3 of RFC 4291; IPv4-mapped addresses (section 2.5.5.2 of RFC 4291) count as IPv4.
   (`firewall`)
4. **The fare ledger of the simulation.** Batching of taps with put-back, idempotent insertion, pairing into journeys inside
   database transactions, card debits, and debts reported to the payment authority. (`batcher`, `journeys`, `delivery`,
   `pairing`, `card_ledger`, `debts`, `ledger_objects`)

Each part has the same layout. A datatype holds the state as a value and functions say what every operation does to it. The
theorems are lemmas about those functions and about whole runs: sequences of events in any order, with any failures. Where
the program works by updating objects, a class has the same fields and the same loops, and each method is proved to
compute the function of the specification. `sorting`, `strings` and `options` hold what the others share.

The main results:

- a node among the true k closest never rejects a STORE and never drops the task before it expires, whatever part of the
  network it knows (`DhtPlacement.TrueHolderStores`, `DhtLife.TrueHolderKeeps`);
- Store terminates, contacts nobody twice, and if one fully informed node redirects it, reaches every true holder
  (`DhtStore.Store`, `DhtPlacement.RedirectCompleteness`); it succeeds if and only if some attempted node answers and is one
  of the k holders of what it knows (`DhtStore.StoreSucceedsIff`);
- Find succeeds after Store on agreed views, whatever the nodes have been through since (`DhtAgreement.StoreThenFind`),
  and `DhtFind.FindServesIff` and `DhtFind.LookupServesIff` say exactly when Find and a lookup return something;
- started on any table of trimmed names, no run with store failures loses a registration, if and only if no registered pair
  that is not yet active shares its pending key with another registered pair or an active row
  (`PendingMarks.NoLossIffMarksApart`), and the first warm cycle that can write it stores it (`PendingMarks.EventuallyStored`);
- exactly when a query is served, over cache, store, firewall, admission and failures (`RegistryOutcomes.QueryDecision`), and
  both rotations are fair (`StoreBackedFair.ReachableQueriesAreFair`, `RegistryOutcomes.FallbackIsFair`);
- the firewall holds through every cache swap (`StoreBackedRuns.FirewallSafety`), the warm cycle keeps the busiest tasks
  and is invisible to the rotation (`StoreBackedWarm.WarmKeepsBusiest`, `StoreBackedWarm.WarmIsInvisible`);
- the linear firewall decides by exactly the bits its rules give (`Firewall.AllowedRuleByRule`, `Firewall.ContainsIffInside`),
  and the indexed one decides like it except in exactly one stated case (`Firewall.IndexAgrees`);
- taps are conserved from the gates to the table, which has every delivered tap once and no other, whatever replies are
  lost (`Batcher.RunConserves`, `Delivery.EveryTapOnceAndNoOther`);
- journeys and debts are confluent, the ledger balances and debts are reported at least once (`CardLedger.Confluence`,
  `Debts.Confluence`, `CardLedger.RunBalances`, `Debts.RunSurplus`).

What each main operation comes to is also said without its own functions: `DhtOutcomes`, `RegistryOutcomes` and
`WarmOutcomes` state it in terms of views, distances, links, rows, entries and rules.

The theorems about runs of Store speak of every run that `DhtStore.StoreRun` describes; the method `DhtStore.Store` has no
other precondition than a well-formed network, so such a run exists for each one.

What is kept abstract is a parameter, so every theorem holds for all its values: SHA-256 (`hashAddr`, `hashTask`), address and CIDR
parsing, the database's sort order, the iteration order of Go maps, clocks, whether each message is answered, and whether each
database access succeeds.

Where the code and its comments or apparent intent differ, the model follows the code:

- A sender learns every suggested address, its own included (pkg/dht/network.go:556-557), so a node can come to list itself as a
  peer. Its second ring entry then takes a place among the k closest (pkg/dht/distributed_hash_table.go:141-150).
  `DhtPlacement.RedirectListsSender` says how this comes about, `DhtSelfListing.StoreCrowdsOut` is a call of Store after which a
  holder is lost, and `DhtNode.NearestAreHolders` says exactly when that happens.
- A lookup on a responsible node that has no registration of its own returns nothing without asking the other responsible
  nodes (pkg/dht/distributed_hash_table.go:285-303), while Find asks them. `DhtFind.ResponsibleDoesNotAsk` is a network of two
  nodes where they differ, and `DhtFind.LookupServesIff` says exactly when a lookup serves.
- For an unknown card, the statement that would mark its taps runs after the rollback (Simulation/carddb/cs.go:172-176), so
  nothing changes and they are selected again at every turn, as in `CardLedger.UnknownCardWaits`.
  `CardLedger.SettledIffKnown` says that a turn settles the taps if and only if the card is known or has no pair, and
  `CardLedger.UnknownNeverProcessed` that no run ever processes them.
- `MarkDebtsReported` receives the ids of the reported debts and ignores them (Simulation/carddb/pctr.go:236-242).
  `Debts.LateDebtsUnposted` says exactly what that would cost if debts could be written between the sum and the marking.
- The pending key joins task and address with a colon, so it is ambiguous for task names with colons
  (pkg/registry/store_backed.go:38-40). `PendingMarks.CollisionLoses` and `PendingMarks.StoredRowLoses` are losing runs.
- A rule that the database provider leaves without a source address (pkg/firewall/database_provider.go:63-76) matches an absent
  source address in the linear scan and not in the index. `Firewall.AbsentSourceDisagrees` is the input.
- Two batches in flight can be delivered or put back out of order. `Batcher.ArriveKeepsOrderIff` and
  `Batcher.PutBackKeepsOrderIff` say when the order survives.

`dafny verify dfyconfig.toml` checks the whole project.

## Model

| member | source | states |
|---|---|---|
| Ring.DistanceLands | pkg/dht/distributed_hash_table.go:426-438 | among all distances below 2^256, walking d clockwise from a ends at b if and only if d is the computed distance |
| Ring.RankMonotone | pkg/dht/distributed_hash_table.go:232-240 | knowing fewer identifiers can only lower the number of closer ones |
| Ring.RankStrict | pkg/dht/distributed_hash_table.go:426-438 | of two different members, the farther one has strictly more closer members |
| Ring.RankAttained | pkg/dht/distributed_hash_table.go:185-227 | with more than k identifiers, some member has exactly the k holders closer than itself |
| Ring.HoldersCount | pkg/dht/distributed_hash_table.go:185-227 | there are exactly k holders, or all identifiers when there are fewer |
| Ring.JoinDisruption | pkg/dht/distributed_hash_table.go:112-129 | a newcomer makes nobody else a holder, and pushes out exactly one holder when it becomes one and the ring was full, otherwise none |
| Ring.LeaveDisruption | pkg/dht/distributed_hash_table.go:132-138 | when a member leaves the other holders stay, and exactly one new holder is admitted if the leaver held and somebody is left |
| Ring.TopKByRank | pkg/dht/distributed_hash_table.go:215-226 | the first k entries of a list sorted by distance are exactly the entries that fewer than k list members beat |
| DhtNode.RingUnique | pkg/dht/distributed_hash_table.go:141-150 | a ring is determined by the node's own identifier and its peers, whatever order they were collected in |
| DhtNode.RingMembers | pkg/dht/distributed_hash_table.go:141-150 | the ring has exactly the known identifiers, one entry more than there are peers |
| DhtNode.AddPeerValid | pkg/dht/distributed_hash_table.go:112-129 | adding a peer keeps the ring sorted and complete and every peer under its own hash |
| DhtNode.RemovePeerValid | pkg/dht/distributed_hash_table.go:132-138 | removing a peer keeps that too and forgets exactly that identifier, never the node itself |
| DhtNode.RingRank | pkg/dht/distributed_hash_table.go:204-213 | the ring entries closer than x are the closer peers, and the node itself if it is closer |
| DhtNode.NearestByRank | pkg/dht/distributed_hash_table.go:189-227 | sorting the ring by distance and taking k returns exactly the known identifiers that fewer than k ring entries beat |
| DhtNode.KClosestInOrder | pkg/dht/distributed_hash_table.go:189-227 | the k closest are as many as asked for or as there are ring entries, nearest first, each a node the view knows |
| DhtNode.SelfAmongNearest | pkg/dht/distributed_hash_table.go:232-240 | a node finds itself among its k closest if and only if fewer than k known peers are strictly closer, even when it lists itself as a peer |
| DhtNode.NearestAreHolders | pkg/dht/distributed_hash_table.go:189-227 | the k closest by sorting are the k closest by rank of everything the node knows, if and only if not (the node lists itself as a peer, has fewer than k - 1 closer peers, and k is at most the number of peers); otherwise exactly the farthest holder is missing |
| DhtNode.OwnAddressCrowdsOut | pkg/dht/distributed_hash_table.go:112-129 | a new node that is told its own address and then a farther one loses that one, though two nodes are known and two are asked for |
| DhtNode.AddPeerDisruption | pkg/dht/distributed_hash_table.go:112-129 | adding any address, the node's own included, gives k closest within the old ones plus that peer and drops at most one |
| DhtNode.RemovePeerDisruption | pkg/dht/distributed_hash_table.go:132-138 | removing any peer from any valid view keeps the other k closest and admits at most one new one |
| DhtNode.AcceptsByRank | pkg/dht/network.go:252-273 | the shortcut for small rings never changes the decision: a node accepts if and only if it is one of the k holders of what it knows |
| DhtNode.TrueHolderAccepts | pkg/dht/network.go:252-273 | anti-monotonicity: one of the k closest of a larger population accepts whatever part of it the node knows |
| DhtNode.RejectionIsFarther | pkg/dht/network.go:275-289 | a node that rejects is strictly farther from the task than every node it suggests |
| DhtNode.RejectionSuggestsHolders | pkg/dht/network.go:275-289 | a node that rejects suggests exactly the k holders of what it knows |
| DhtNode.ActiveIff | pkg/dht/distributed_hash_table.go:273-283 | an address is looked up locally if and only if one of its entries is unexpired |
| DhtNode.RefreshMembers | pkg/dht/distributed_hash_table.go:251-269 | registering leaves exactly one entry for the address, with the new heartbeat, keeps all others and never lists an address twice |
| DhtNode.StoreTaskFrame | pkg/dht/distributed_hash_table.go:251-269 | storing touches only that task: a known address stays in its place and a new one goes to the end |
| DhtNode.LookedUpUntilTimeout | pkg/dht/distributed_hash_table.go:555-570 | a registration is looked up for exactly the heartbeat timeout after it was stored, or for ever when there is none |
| DhtNode.UnexpiredConcat | pkg/dht/distributed_hash_table.go:555-570 | what is unexpired is decided entry by entry and stays in order |
| DhtNode.ExpirySweepRemoves | pkg/dht/distributed_hash_table.go:459-486 | the expiry sweep removes exactly the entries whose timeout has passed, and the tasks left without any |
| DhtNode.StaleSweepKeepsHeld | pkg/dht/distributed_hash_table.go:442-455 | the stale sweep keeps a task, with its entries, if and only if the node is one of the k holders of what it knows |
| DhtNode.SweepInvisible | pkg/dht/distributed_hash_table.go:459-486 | the sweep of expired registrations does not change any lookup at the same moment |
| DhtProtocol.GreetValid | pkg/dht/network.go:214-217 | learning the sender of a message keeps the view valid and adds the sender, unless it is unnamed or the node itself, and nobody else |
| DhtProtocol.HandleFrame | pkg/dht/network.go:213-330 | beyond learning its sender a message changes the node only if it is a STORE the node accepts, and then only by that registration |
| DhtProtocol.HandleValid | pkg/dht/network.go:213-330 | every message leaves the node valid and itself, knowing what it knew after the greeting |
| DhtProtocol.ReceiverLearnsSender | pkg/dht/network.go:213-217 | after any message the receiver has the sender among its peers under its hash, and otherwise exactly the peers it had |
| DhtProtocol.AcceptsIffResponsible | pkg/dht/network.go:252-273 | the receiver accepts if and only if it is one of the k holders of its view and the sender |
| DhtProtocol.JoinAndPingReplies | pkg/dht/network.go:219-238 | a join is answered with the addresses of exactly the peers the receiver then has, a ping with a pong, what cannot be read not at all |
| DhtProtocol.StoreOutcome | pkg/dht/network.go:240-289 | a STORE is acknowledged if and only if the receiver is one of the k holders of what it knows; otherwise nothing is stored, and no other task is ever touched |
| DhtProtocol.StoreReplaces | pkg/dht/network.go:240-273 | an acknowledged registration takes the place of the address's old one and the others stay |
| DhtProtocol.StoreSuggests | pkg/dht/network.go:275-289 | a rejecting receiver names exactly the addresses of the k holders of its view and the sender |
| DhtProtocol.FindOutcome | pkg/dht/network.go:291-326 | a FIND is answered with the unexpired addresses if and only if the receiver is one of the k holders of what it knows and has any |
| DhtProtocol.FindNeverForwards | pkg/dht/network.go:291-326 | handling a message never makes the node send a FIND of its own |
| DhtProtocol.FindReplies | pkg/dht/network.go:291-326 | a FIND is answered with exactly the unexpired addresses if the node is responsible and has any, and otherwise with not found |
| DhtProtocol.SuggestionsAreHolders | pkg/dht/network.go:275-289 | the suggested addresses are exactly the addresses of the k holders the rejecting node knows, all strictly closer than itself |
| DhtStore.SuggestionsAreCloser | pkg/dht/network.go:553-568 | the only-if-closer filter never discards a suggestion of a node that rejected: it is strictly closer than that node, which was tried |
| DhtStore.StoreReplies | pkg/dht/network.go:547-573 | a node that answers a STORE acknowledges or redirects, and acknowledges if and only if it finds itself responsible |
| DhtStore.FarthestDistance | pkg/dht/network.go:588-601 | the maximum distance over the attempted addresses, or 2^256 when there are none |
| DhtStore.FollowSuggestions | pkg/dht/network.go:556-569 | every suggested node becomes a peer, and exactly the unattempted ones closer than the farthest attempt are queued |
| DhtStore.Redirect | pkg/dht/network.go:550-570 | every suggestion is afterwards attempted or queued, and nothing else is queued |
| DhtStore.Contact | pkg/dht/network.go:523-573 | one attempt stores locally, counts exactly an answering node that is one of the k holders of what it knows, notes a node it does not hear from, or follows a redirect |
| DhtStore.AttemptKeeps | pkg/dht/network.go:514-574 | after each attempt the queue still covers every candidate and suggestion that is due, and holds nothing without such a reason |
| DhtStore.AttemptedUnderway | pkg/dht/network.go:514-574 | one round keeps the whole bookkeeping: no address twice, coverage, every node's state, the sender's learned peers, the replica count and the last error |
| DhtStore.AttemptedShrinks | pkg/dht/network.go:514-574 | every attempt uses up one of the finitely many addresses that can ever be suggested |
| DhtStore.Drain | pkg/dht/network.go:514-574 | the loop terminates for every network and every pattern of failures, by (unattempted addresses, queue length) |
| DhtStore.Store | pkg/dht/network.go:497-585 | a run attempts each candidate and each suggestion it receives exactly once and nobody else, leaves every node as those attempts make it, and reports the number of acknowledging replicas, or the last send failure, or that none accepted |
| DhtPlacement.TrueHolderStores | pkg/dht/network.go:240-273 | a true holder acknowledges and stores a STORE from any member, whatever part of the population it knows |
| DhtPlacement.FullViewSuggestsHolders | pkg/dht/network.go:275-289 | a node that rejects and knows everyone, the greeted sender included, suggests every true holder |
| DhtPlacement.RedirectCompleteness | pkg/dht/network.go:497-585 | if any contacted node that has the full view once it has greeted the sender rejects, every true holder is attempted by the end of the run and every one that could be reached has stored the registration |
| DhtPlacement.StoreKeepsPopulation | pkg/dht/network.go:497-585 | a run of Store leaves every node valid and knowing only members, whatever the views were |
| DhtPlacement.RedirectCompletenessInTurn | pkg/dht/network.go:497-585 | redirect completeness holds for every call of a sequence of calls by any members, each on the views the last one left |
| DhtPlacement.RedirectListsSender | pkg/dht/network.go:553-558 | a node whose STORE is rejected by one that counts it among the k closest lists itself as a peer afterwards |
| DhtSelfListing.ViewsArise | pkg/dht/distributed_hash_table.go:112-129 | the views from which the run of the next row starts come about by learning addresses |
| DhtSelfListing.StoreCrowdsOut | pkg/dht/network.go:497-585 | every run of Store by a node that knows only a node which rejects and names the sender and another ends with the sender listing itself and no longer finding that other holder |
| DhtPlacement.AttemptedHolderStores | pkg/dht/network.go:514-574 | a true holder that was attempted and reached has stored the registration, even if its reply was lost |
| DhtPlacement.AttemptsStayClose | pkg/dht/network.go:550-570 | every attempted address is no farther from the task than one of the starting candidates |
| DhtPlacement.SucceedsIffAcknowledged | pkg/dht/network.go:576-584 | Store succeeds if and only if it attempted itself or a node that answers and is one of the k holders of what it knows |
| DhtPlacement.AcknowledgedIsStored | pkg/dht/network.go:523-549 | whoever counted as a replica holds the registration at the end of the run |
| DhtPlacement.ListsSelf | pkg/dht/network.go:605-617 | the scan for itself in the k closest decides responsibility |
| DhtPlacement.AgreedCandidates | pkg/dht/network.go:502-509 | a node with the full view looks up exactly the true holders |
| DhtPlacement.AgreedAttempts | pkg/dht/network.go:497-585 | on agreed views Store attempts the true holders and nobody else |
| DhtPlacement.AgreedStoreOnlyStores | pkg/dht/network.go:497-585 | on agreed views a run of Store changes no view, and no storage beyond the one registration |
| DhtPlacement.StoreKeepsAgreed | pkg/dht/network.go:497-585 | views stay agreed over a run of Store |
| DhtStore.StoreSucceedsIff | pkg/dht/network.go:576-584 | Store succeeds if and only if it attempted itself or, candidate or suggested, a node that answers and is one of the k holders of what it knows, and reports the number of those |
| DhtStore.StoreFailureNames | pkg/dht/network.go:576-584 | a Store that fails names the last attempted node it did not hear from, and none if and only if it heard from all |
| DhtOutcomes.CandidatesIff | pkg/dht/network.go:497-512 | the sender starts with exactly the known nodes that fewer than k ring entries beat |
| DhtOutcomes.SuggestionsIff | pkg/dht/network.go:550-570 | the suggestions are exactly the k holders of what an answering, not responsible node knows |
| DhtOutcomes.StoreLeavesOthers | pkg/dht/network.go:497-585 | exactly the attempted and reached nodes know the sender afterwards, and of them exactly the responsible ones have stored the registration, reply or no reply |
| DhtOutcomes.StoreTeachesSender | pkg/dht/network.go:553-558 | the sender's new peers are exactly the suggested nodes |
| DhtOutcomes.StoreLeavesSender | pkg/dht/network.go:523-535 | the sender stores the registration if and only if it attempted itself, and nothing else |
| DhtFind.Find | pkg/dht/network.go:604-653 | the result is the local answer or the first non-empty one in distance order, and exactly the asked nodes that the question reached have learned the asker |
| DhtFind.Lookup | pkg/dht/distributed_hash_table.go:273-319 | a lookup answers locally, responsible or not, and only a node that is not responsible forwards, to the k closest in order until one answers |
| DhtFind.AskInOrder | pkg/dht/network.go:627-649 | the loop skips the asker, stops at the first non-empty reply, and changes exactly the nodes asked until then that could hear |
| DhtFind.FindLooksHomeFirst | pkg/dht/network.go:604-653 | a node that is one of the k holders of what it knows and has unexpired registrations returns these and asks nobody; otherwise Find asks the k closest |
| DhtOutcomes.AnswerIs | pkg/dht/network.go:627-649 | a node contributes its unexpired addresses if and only if the link holds and it is one of the k holders of what it knows |
| DhtOutcomes.AskingStops | pkg/dht/network.go:627-652 | asking ends at the first node other than the asker that answers something, which is the result, and exactly the nodes up to there are asked |
| DhtOutcomes.AskingTeaches | pkg/dht/network.go:214-217 | exactly the nodes asked and reached have learned the asker, and nobody's storage changes |
| DhtOutcomes.LookupLooksHomeFirst | pkg/dht/distributed_hash_table.go:273-319 | a lookup returns the node's own unexpired registrations if there are any, and asks only from a node that is not responsible |
| DhtOutcomes.LookupTaskCases | pkg/dht/distributed_hash_table.go:273-305 | on one node: local registrations, else the nodes to ask if it is online and not responsible, else nothing |
| DhtFind.FindSound | pkg/dht/network.go:604-653 | in any network a non-empty result is the complete list of unexpired addresses of some node for the task |
| DhtFind.HolderAnswers | pkg/dht/network.go:291-326 | a true holder with an unexpired registration answers any member, whatever it knows |
| DhtFind.AskingFindsHolder | pkg/dht/network.go:627-652 | on agreed views asking the k closest yields something if and only if a true holder other than the asker answers and has an unexpired registration |
| DhtFind.FindServesIff | pkg/dht/network.go:604-653 | on agreed views Find from any node returns something if and only if a true holder that is the asker itself or answers has an unexpired registration |
| DhtFind.LookupSound | pkg/dht/distributed_hash_table.go:273-319 | a non-empty lookup is the complete list of unexpired addresses of some node for the task |
| DhtFind.LookupServesIff | pkg/dht/distributed_hash_table.go:273-319 | on agreed views a lookup returns something if and only if the node has an unexpired registration itself, or is no true holder and one that answers has one |
| DhtFind.ResponsibleDoesNotAsk | pkg/dht/distributed_hash_table.go:285-303 | with two nodes, both responsible, the lookup of the one without the registration returns nothing although the other answers and Find succeeds |
| DhtFind.FindKeepsPopulation | pkg/dht/network.go:604-653 | Find leaves every node valid and knowing only members |
| DhtFind.FindKeepsAgreed | pkg/dht/network.go:604-653 | on agreed views Find changes nothing |
| DhtAgreement.StoreThenFind | pkg/dht/network.go:497-653 | after Store on agreed views and any later life of the nodes, Find from any node returns a non-empty list registered for the task, while one node that the STORE reached, acknowledged or not, answers and the registration has not expired |
| DhtAgreement.ReplicaStillActive | pkg/dht/network.go:497-585 | every node that the STORE reached is a true holder and keeps the registration active through any events until it expires |
| DhtAgreement.SuccessReachesReplica | pkg/dht/network.go:576-584 | a Store that succeeds has reached such a node |
| DhtLife.StepValid | pkg/dht/network.go:426-469 | messages, joins, failed pings and both sweeps keep a node valid |
| DhtOutcomes.StepPeers | pkg/dht/network.go:426-469 | the peers after each event: messages add their sender, a name heard is added, a failed ping removes exactly that peer |
| DhtOutcomes.StepEntries | pkg/dht/distributed_hash_table.go:442-486 | the registrations after each event: a STORE to a responsible node replaces one, each sweep removes exactly what it should, and nothing else changes them |
| DhtLife.TrueHolderKeeps | pkg/dht/distributed_hash_table.go:442-486 | over every sequence of messages, local stores, joins, failures and sweeps a true holder keeps an unexpired registration |
| DhtLife.RunKeepsOnce | pkg/dht/distributed_hash_table.go:251-269 | over the whole life of a node no task lists an address twice |
| DhtLife.RegistersOnce | pkg/dht/distributed_hash_table.go:251-269 | in every state a new node can reach, registering leaves exactly one entry for the address and keeps all others |
| DhtObject.CopiesAgree | pkg/dht/distributed_hash_table.go:198-218 | sorting nodes with distances, identifiers with distances or the ring itself gives the same order, so the three copies of this code agree |
| DhtObject.AnySortAgrees | pkg/dht/distributed_hash_table.go:215-218 | any sorting algorithm gives this order, because distance from a fixed task tells identifiers apart |
| DhtObject.FirstAtOrAfterIsNearest | pkg/dht/distributed_hash_table.go:164-174 | the first ring entry at or after the task, wrapping to the start, is the one that sorting by distance puts first |
| DhtObject.SearchRing | pkg/dht/distributed_hash_table.go:164-167 | binary search finds the boundary between smaller and not smaller identifiers |
| DhtObject.RefreshEntries | pkg/dht/distributed_hash_table.go:255-268 | the scan-or-append loop computes the refreshed entry list |
| DhtObject.SweepExpired | pkg/dht/distributed_hash_table.go:467-483 | the sweep keeps exactly the unexpired entries, in order, drops tasks left without any, and counts every entry it drops |
| DhtObject.Dht.constructor | pkg/dht/distributed_hash_table.go:65-90 | a new node is valid, knows only itself and stores nothing |
| DhtObject.Dht.RebuildRing | pkg/dht/distributed_hash_table.go:141-150 | the ring is sorted and has the node and each peer once |
| DhtObject.Dht.AddPeer | pkg/dht/distributed_hash_table.go:112-129 | rebuilding from scratch equals inserting one identifier; a known peer changes nothing |
| DhtObject.Dht.RemovePeer | pkg/dht/distributed_hash_table.go:132-138 | rebuilding from scratch equals removing one identifier |
| DhtObject.Dht.FindClosestNode | pkg/dht/distributed_hash_table.go:155-183 | the wrapped binary search returns the first of the k closest |
| DhtObject.Dht.FindKClosestNodes | pkg/dht/distributed_hash_table.go:189-227 | the result is the k closest known nodes in order of distance |
| DhtObject.Dht.AmIInKClosest | pkg/dht/distributed_hash_table.go:232-240 | true if and only if fewer than k known peers are strictly closer |
| DhtObject.Dht.AmIInKClosestLocked | pkg/dht/distributed_hash_table.go:489-519 | the copy on identifiers decides the same |
| DhtObject.Dht.StoreTask | pkg/dht/distributed_hash_table.go:251-269 | refreshes or appends the one registration and changes nothing else |
| DhtObject.Dht.FindStale | pkg/dht/distributed_hash_table.go:446-453 | finds exactly the stored tasks the node is not among the k closest for |
| DhtObject.Dht.CleanupStaleData | pkg/dht/distributed_hash_table.go:442-455 | drops exactly those tasks and counts them |
| DhtObject.Dht.CleanupExpiredRegistrations | pkg/dht/distributed_hash_table.go:459-486 | drops exactly the expired registrations and returns how many, and nothing when there is no timeout |
| DhtObject.Dht.LookupTask | pkg/dht/distributed_hash_table.go:273-304 | decides between answering locally, forwarding to the k closest and finding nothing as the specification does |
| DhtObject.Dht.HandleMessage | pkg/dht/network.go:213-330 | state and reply are those of the specification, the sender has become a peer, and the node stays valid |
| DhtObject.Dht.HandleStore | pkg/dht/network.go:240-289 | the small-ring shortcut, the k-closest test and the rejection give the specified state and reply |
| DhtObject.Dht.HandleFind | pkg/dht/network.go:291-326 | the reply of the specification, without a change of state |
| Firewall.SingletonNetwork | pkg/firewall/indexed_firewall.go:91-102 | the network of one address contains exactly the addresses equal to it, mapped forms included |
| Firewall.MaskedContainsSame | pkg/firewall/indexed_firewall.go:140-147 | clearing the host bits, as printing and parsing does, changes no membership |
| Firewall.ContainsIffInside | pkg/firewall/firewall.go:181-193 | a network contains an address if and only if both are IPv4, mapped or not, or both are not, and they agree in exactly the bits of the mask |
| Firewall.PrefixComparesBits | pkg/firewall/firewall.go:181-193 | a prefix holds exactly the addresses of its family that are the same once the bits after the prefix are dropped one by one |
| Firewall.EqualSameBytes | pkg/firewall/firewall.go:181-193 | two addresses are equal if and only if they are the same 16 bytes, IPv4 ones in mapped form |
| Firewall.MaskedIsFirst | pkg/firewall/indexed_firewall.go:140-147 | clearing the host bits gives the first address of the prefix |
| Firewall.AllowedRuleByRule | pkg/firewall/firewall.go:133-147 | without rules all is allowed; the first rule forbids all but what it fits bit by bit, and each further rule allows what it fits |
| Firewall.PermittedEach | pkg/firewall/firewall.go:152-179 | filtering decides about each address by itself, in order, and drops unreadable ones only when there are rules |
| Firewall.LinearFirewall.IsAllowed | pkg/firewall/firewall.go:133-147 | the scan allows if and only if there are no rules or both ends of some rule fit bit by bit |
| Firewall.LinearFirewall.FilterAddresses | pkg/firewall/firewall.go:152-179 | exactly the readable, reachable addresses in order; the list untouched when there are no rules |
| Firewall.KeyMatches | pkg/firewall/indexed_firewall.go:83-88 | finding a rule by its printed source decides like the rule, except for a void source and an absent address |
| Firewall.AddRuleMatches | pkg/firewall/indexed_firewall.go:61-75 | adding a rule to the index adds exactly its own matches |
| Firewall.IndexMatches | pkg/firewall/indexed_firewall.go:53-79 | the index matches if and only if some rule with a proper source does, and is empty if and only if there are no rules |
| Firewall.IndexAgrees | pkg/firewall/indexed_firewall.go:53-137 | index and linear scan agree if and only if not (the source address is absent and a rule without a source matches the destination) |
| Firewall.AbsentSourceDisagrees | pkg/firewall/database_provider.go:63-76 | one rule without a source on which the two differ |
| Firewall.FiltersAgree | pkg/firewall/indexed_firewall.go:151-195 | for every rule list and source both filters return the same list if and only if no listed readable address is reached by an absent source through a rule without a source |
| Firewall.FilteredLess | pkg/firewall/indexed_firewall.go:151-195 | a filter that lets less through returns a strictly shorter list as soon as one listed address differs, and otherwise the same list |
| Firewall.IndexedFirewall.RebuildIndex | pkg/firewall/indexed_firewall.go:53-79 | the index afterwards is the one built from the given rules |
| Firewall.IndexedFirewall.ScanGroups | pkg/firewall/indexed_firewall.go:120-132 | visiting the groups in any order finds a match if and only if there is one |
| Firewall.IndexedFirewall.IsAllowed | pkg/firewall/indexed_firewall.go:106-137 | decides by the index, agrees with the rules except in the one stated case, and checks stay the sum of allowed and blocked |
| Firewall.IndexedFirewall.FilterAddresses | pkg/firewall/indexed_firewall.go:151-195 | filters by the index, equals the linear filter exactly under the stated condition, and leaves the statistics alone |
| Selection.TotalServiceWeight | pkg/registry/memory.go:193-199 | the running sum is the size of the expanded pool |
| Selection.SelectWeightedAddress | pkg/registry/memory.go:201-210 | the running sum picks what indexing the expanded pool would, and fails exactly beyond it |
| Selection.PoolAt | pkg/registry/memory.go:193-218 | the pool has the first entry's address as often as its capacity, then the second one's, and so on |
| Selection.SharesAreCapacities | pkg/registry/memory.go:193-218 | a full turn gives out each address as often as its capacity, and once for a capacity that is not positive |
| Selection.FullTurn | pkg/registry/memory.go:146-149 | as many consecutive slots as the pool is large pick every pool position exactly once, from any cursor |
| Selection.PoolCounts | pkg/registry/memory.go:193-218 | each address occupies exactly its weight in the pool |
| Selection.RoundIsFair | pkg/registry/memory.go:139-149 | one full turn hands out each address exactly its capacity times |
| Selection.StorePicksAreWindow | pkg/store/postgres/postgres.go:149-159 | the wrapped cursor of the store and the growing counter give out the same addresses forever |
| MemoryRegistry.UpsertEffect | pkg/registry/memory.go:79-95 | registering replaces or appends the one entry, keeps all others and never lists an address twice |
| Strings.TrimRemovesSpace | pkg/registry/memory.go:66-71 | trimming a name removes white space from its ends and nothing else |
| MemoryRegistry.RegisterEntry | pkg/registry/memory.go:66-98 | a registration is kept with its time and capacity, in its place in the rotation; blank names are ignored and nothing else changes |
| MemoryRegistry.PopulateEntry | pkg/registry/store_backed.go:236-274 | a loaded entry is kept as the store has it, with the store's count, and nothing else changes |
| MemoryRegistry.PutLists | pkg/registry/memory.go:66-98 | exactly the registered pair becomes listed |
| MemoryRegistry.PermitMembers | pkg/registry/memory.go:124-137 | the filter keeps exactly the entries whose destination is readable and allowed |
| MemoryRegistry.PermitConcat | pkg/registry/memory.go:124-137 | the filter keeps the order of the entries |
| MemoryRegistry.GetSafe | pkg/registry/memory.go:104-164 | a served address is registered for the task and, when the firewall applies, reachable |
| MemoryRegistry.GetServesIff | pkg/registry/memory.go:104-137 | a query is served if and only if the task is named and lists an address the requestor may be given, and nothing-allowed is told apart from not-found |
| MemoryRegistry.GetCountsQuery | pkg/registry/memory.go:139-164 | a served query moves its task's cursor on by one and counts once, for the address served; any other changes nothing |
| MemoryRegistry.CountsFollowAnswers | pkg/registry/memory.go:139-164 | over any run of queries each address's count grows by the number of times it was given out |
| MemoryRegistry.AnswersAreWindow | pkg/registry/memory.go:104-164 | consecutive queries walk the pool of permitted entries in order |
| MemoryRegistry.QueriesAreFair | pkg/registry/memory.go:104-164 | as many consecutive queries as the permitted entries weigh give out each permitted address exactly its weight times, wherever the cursor stands |
| ServiceStore.ListTaskMembers | pkg/store/postgres/postgres.go:210-238 | a task's listing has exactly its active addresses |
| ServiceStore.ListedRows | pkg/store/postgres/postgres.go:210-238 | a task's listing has one entry per active address, with its row's time, capacity and count |
| ServiceStore.RegisteredRow | pkg/store/postgres/postgres.go:51-85 | a registered row is active with its time and capacity, keeps its count while active unless one is written, and no other row changes |
| ServiceStore.IncrementRaisesTotal | pkg/store/postgres/postgres.go:88-108 | a counted query raises exactly its task's combined count, by one |
| ServiceStore.RegisterTotals | pkg/store/postgres/postgres.go:51-85 | registering any service, new, reactivated or active, changes only its task's combined count, by the count written less the one stored, and not at all without a count |
| ServiceStore.TopTasksAreBusiest | pkg/store/postgres/postgres.go:242-275 | the top tasks are active, as many as the limit or as there are, and nothing left out has a larger total |
| StoreBacked.AdmittedAtThreshold | pkg/registry/store_backed.go:370-380 | a task is admitted from the miss whose number is the threshold, and no earlier |
| StoreBacked.PickIsActive | pkg/registry/store_backed.go:382-430 | what the fallback picks is active in the store and reachable when the firewall applies |
| StoreBacked.ListingIsActive | pkg/registry/store_backed.go:342-349 | everything the store lists for a miss is active |
| StoreBackedRuns.FreshCacheLists | pkg/registry/store_backed.go:155-198 | the new cache lists a pair if and only if it is active, and of one of the busiest tasks when the cache is bounded, or cached and still pending, and keeps the old firewall |
| WarmOutcomes.UnboundedWarmLoadsAll | pkg/registry/store_backed.go:161-198 | after a warm without a bound exactly the active pairs and those still pending are cached |
| WarmOutcomes.UnboundedWarmTasks | pkg/registry/store_backed.go:161-198 | after a warm without a bound the cached tasks are exactly the active ones and those with pending entries |
| WarmOutcomes.FreshCacheEntry | pkg/registry/store_backed.go:155-198 | the new cache has a pending pair as the old cache had it, and every other as its row says, time and capacity |
| WarmOutcomes.FreshCacheCount | pkg/registry/store_backed.go:155-198 | unless keys collide, a pending pair keeps its count and every other starts from the store's |
| WarmOutcomes.FreshCacheOrder | pkg/registry/store_backed.go:155-198 | a loaded task without pending entries lists its active addresses in the store's order |
| WarmOutcomes.WarmLeaves | pkg/registry/store_backed.go:146-206 | a warm that cannot list the store keeps the cache, and no warm touches misses or fallback cursors |
| WarmOutcomes.SyncedRow | pkg/registry/store_backed.go:55-142 | exactly the written rows have the time, capacity and count of the cached entry, and every other row is as it was |
| WarmOutcomes.RetrySettles | pkg/registry/store_backed.go:55-77 | a pair cached under a mark of its own is stored after a warm whose retry of it succeeds |
| StoreBackedRuns.WarmKeeps | pkg/registry/store_backed.go:146-206 | a warm cycle loses no registration that is stored, or cached under a mark of its own, whichever writes fail |
| StoreBackedRuns.QueryEffect | pkg/registry/store_backed.go:323-368 | a query keeps every cached pair, every mark and every active row, and caches only what is active |
| RegistryOutcomes.QueryDecision | pkg/registry/store_backed.go:323-430 | exactly when a query is served, and exactly when it is told invalid, not found, nothing allowed or store failure, from cache, rows, rules, threshold and store failures |
| RegistryOutcomes.FallbackMoves | pkg/registry/store_backed.go:382-430 | a miss served from the store gives the address under the fallback cursor, moves that cursor by one and counts that row once, and changes no other row, cursor, mark or entry |
| RegistryOutcomes.UncountedFallbackMoves | pkg/registry/store_backed.go:382-430 | a miss whose count fails has moved the fallback cursor and nothing else |
| RegistryOutcomes.AdmissionMoves | pkg/registry/store_backed.go:342-380 | admission caches exactly the task's active services besides what was cached, and forgets its misses |
| RegistryOutcomes.FallbackWalksPool | pkg/registry/store_backed.go:382-430 | misses before admission walk the store's pool, one slot each, although every one of them changes the table |
| RegistryOutcomes.FallbackIsFair | pkg/registry/store_backed.go:382-430 | as many misses as the allowed services weigh give out each exactly its capacity times, from any fallback cursor |
| StoreBackedRuns.RegisterEffect | pkg/registry/store_backed.go:281-314 | a registration is cached at once, and stored or marked |
| RegistryOutcomes.RegistrationLeaves | pkg/registry/store_backed.go:281-314 | the cache has the registration with its time and capacity; the row says the same and the mark is gone, or the table is as it was and the pair is marked |
| StoreBackedRuns.NoLostRegistration | pkg/registry/store_backed.go:281-314 | over every run of registrations, queries, warm cycles and firewall changes with arbitrary store failures, each registered pair whose mark no other pair shares is active in the store or cached and marked |
| PendingMarks.ColonFreeKeysDistinct | pkg/registry/store_backed.go:38-40 | task names without a colon make pending keys unambiguous |
| PendingMarks.EqualLengthsApart | pkg/registry/store_backed.go:38-40 | pairs of one task, or of tasks of one length, never share a key |
| PendingMarks.KeysCollideIff | pkg/registry/store_backed.go:38-40 | two keys are equal if and only if the longer task continues the shorter with a colon and the beginning of the other address |
| PendingMarks.CollisionLoses | pkg/registry/store_backed.go:306-313 | for any two pairs with the same key, a failed and then a successful registration lose the first |
| PendingMarks.StoredRowLoses | pkg/registry/store_backed.go:55-77 | an active row with the key of a pair that is not active loses that pair's registration once lookups have cached the row and a retry writes it |
| PendingMarks.NoLossIffMarksApart | pkg/registry/store_backed.go:281-314 | started on any table of trimmed names, no run that registers only the given pairs loses one if and only if none that is not yet active shares its key with another of them or with an active row |
| PendingMarks.EventuallyStored | pkg/registry/store_backed.go:281-314 | whatever failed in a run, a registration whose mark is its own is stored after the first warm cycle that can write it |
| StoreBackedRuns.RunKeepsFirewall | pkg/registry/store_backed.go:155-159 | the rules survive every admission and cache swap |
| StoreBackedRuns.QueryRespectsFirewall | pkg/registry/store_backed.go:323-430 | every path of a query serves a known requestor only what the rules allow, as that path reads the address |
| StoreBackedRuns.FirewallSafety | pkg/registry/store_backed.go:323-430 | once set, the rules bind every later query of a known requestor, through any run |
| StoreBackedRuns.FirewallSafetyFromChange | pkg/registry/store_backed.go:433-438 | the rules of a change bind every query from that change on until the next, through any run |
| StoreBackedWarm.WarmKeepsBusiest | pkg/registry/store_backed.go:146-206 | after a bounded warm the cached tasks are exactly the top ones plus those with pending entries, and no active task left out has a larger total, counted after write-back |
| StoreBackedWarm.SyncedMark | pkg/registry/store_backed.go:55-142 | the write-back passes clear a mark if and only if the count of a pair of that key is written or the retry of one succeeds |
| StoreBackedWarm.CountsWrittenBack | pkg/registry/store_backed.go:55-153 | after both write-back passes the store counts a pair as the cache does if the cache has a count and either its count write succeeds or its retry does, first among its key and with the mark still there; else it counts as before |
| StoreBackedWarm.TotalsAreCurrent | pkg/registry/store_backed.go:146-175 | the total that ranks a task is, whichever writes fail, the sum over its active services of the cached counts that were written and the stored counts of the others |
| StoreBackedWarm.WarmKeepsCursors | pkg/registry/store_backed.go:208-232 | every task of the new cache goes on from its old cursor |
| StoreBackedWarm.SameAnswers | pkg/registry/memory.go:104-164 | two caches alike on the asked tasks answer every sequence of queries alike |
| StoreBackedWarm.QueriesHit | pkg/registry/store_backed.go:329-335 | queries for which the cache lists an address the requestor may be given are answered by walking the cache, whatever the store does |
| StoreBackedWarm.WarmIsInvisible | pkg/registry/store_backed.go:194-232 | if the warm loads the asked tasks with the same weights in the same order, every later sequence of queries that the cache can serve is answered by the registry as without the warm |
| StoreBackedFair.RunListsOnce | pkg/registry/store_backed.go:236-274 | over every run no cached task lists an address twice |
| StoreBackedFair.ReachableQueriesAreFair | pkg/registry/memory.go:104-164 | in every reachable cache a full turn of queries gives out each permitted address exactly its weight times |
| RegistryObjects.UpsertEntry | pkg/registry/memory.go:79-95 | the scan-or-append loop computes the upsert and says whether the address was there |
| RegistryObjects.FilterEntries | pkg/registry/memory.go:127-133 | the loop keeps the permitted entries in order |
| RegistryObjects.PickSlot | pkg/registry/memory.go:139-149 | picks the pool position under the cursor |
| RegistryObjects.Cache.RegisterWithCapacity | pkg/registry/memory.go:66-98 | the new state is the specified one: exactly the named pair becomes listed, and empty names change nothing |
| RegistryObjects.Cache.PopulateEntry | pkg/registry/store_backed.go:236-274 | exactly the entry becomes listed, with the given count |
| RegistryObjects.Cache.GetServiceForRequestor | pkg/registry/memory.go:104-164 | answer, cursor and counters are the specified ones |
| RegistryObjects.StoreBackedRegistry.RegisterWithCapacity | pkg/registry/store_backed.go:281-314 | cache, store row and mark are the specified ones for both outcomes of the write, and the registration is stored, or cached and marked |
| RegistryObjects.StoreBackedRegistry.SelectFromStoreEntries | pkg/registry/store_backed.go:382-430 | serves a miss from the store under the firewall with the fallback cursor |
| RegistryObjects.StoreBackedRegistry.GetServiceForRequestor | pkg/registry/store_backed.go:323-368 | cache hit, store failure, unknown task, fallback and admission give the specified state and answer |
| RegistryObjects.StoreBackedRegistry.SyncQueryCountsToDB | pkg/registry/store_backed.go:116-142 | writes back the queried entries whose writes succeed |
| RegistryObjects.StoreBackedRegistry.SyncPendingRegistrations | pkg/registry/store_backed.go:55-77 | retries the marked entries and clears the marks of those that succeed |
| RegistryObjects.StoreBackedRegistry.PreservePendingEntries | pkg/registry/store_backed.go:79-89 | carries exactly the marked entries over |
| RegistryObjects.StoreBackedRegistry.CopyRoundRobinState | pkg/registry/store_backed.go:208-232 | copies the cursors of the tasks the new cache has, in any order |
| RegistryObjects.StoreBackedRegistry.WarmCacheFromDB | pkg/registry/store_backed.go:146-206 | the whole cycle is the specified one, and a new cache object is swapped in if and only if the store could be listed |
| RegistryObjects.PostgresStore.GetService | pkg/store/postgres/postgres.go:112-175 | picks the pool position under the wrapped cursor, moves it on modulo the total weight, and counts the query, raising exactly the task's total by one, unless that last write fails |
| Batcher.Add | Simulation/station_computer/main.go:60-75 | nothing is added or lost between buffer and batch, and a batch is full or empty |
| Batcher.BatchHasOneType | Simulation/station_computer/main.go:60-75 | every tap of a batch in flight has the batch's card type |
| Batcher.RunConserves | Simulation/station_computer/main.go:297-331 | over every interleaving of taps, deliveries and failures, accepted is buffered plus in flight plus delivered, as multisets, and every batch in flight is full |
| Batcher.EventMoves | Simulation/station_computer/main.go:297-331 | a tap is taken in at the end, an acknowledged batch is delivered and gone, a failed one is back in front, other card types untouched |
| Batcher.ArriveKeepsOrderIff | Simulation/station_computer/main.go:309-331 | a delivery keeps the arrival order if and only if it is the oldest batch in flight |
| Batcher.PutBackKeepsOrderIff | Simulation/station_computer/main.go:313-328 | a put-back keeps the arrival order if and only if it is the youngest batch in flight |
| Batcher.RunKeepsOrder | Simulation/station_computer/main.go:297-331 | arrival order is kept over every run with at most one batch of the card type in flight |
| Batcher.PerTypeBatcher.AddTransaction | Simulation/station_computer/main.go:60-75 | buffer, batch and remaining count are the specified ones and other card types are untouched |
| Batcher.PerTypeBatcher.Restore | Simulation/station_computer/main.go:313-316 | the failed batch goes in front of what was buffered meanwhile |
| Journeys.InsertEffect | Simulation/carddb/cs.go:76-92 | inserting changes no existing row, leaves every complete tap in and adds only rows of the batch |
| Journeys.RedeliveryHarmless | Simulation/carddb/cs.go:76-92 | delivering a batch again changes nothing, whatever happened to the table in between |
| Journeys.ResumeAfterPartial | Simulation/carddb/cs.go:83-91 | repeating a batch that stopped part-way gives what one complete insertion would have given |
| Journeys.FirstTapWins | Simulation/carddb/cs.go:76-92 | a row that a batch adds is that of the first tap with its id that has all five fields |
| Journeys.IncompleteIgnored | Simulation/carddb/cs.go:83-86 | a tap that lacks any of the five fields adds nothing |
| Delivery.MarkKeepsTaps | Simulation/carddb/cs.go:210-246 | constructing journeys is a change that the runs below allow: it alters no tap's id, holder, station or time |
| Delivery.RunConsistent | Simulation/station_computer/main.go:297-331 | every run of taps, batches inserted in part, lost replies and constructions keeps the lanes conserved, every delivered tap in the table and every row traceable to a tap handed in |
| Delivery.BatchSettles | Simulation/station_computer/main.go:309-331 | a batch inserted completely and answered leaves for good, delivered; any other is back in front of the buffer |
| Delivery.TapsAreTakenIn | Simulation/station_computer/main.go:297-301 | every tap handed in anywhere in a run is among the accepted ones at its end |
| Delivery.EveryTapOnceAndNoOther | Simulation/pctrbo/main.go:224-277 | over every run from empty, the table has a row for every delivered tap, the tap's own if ids are unique, and none that no gate handed in; with nothing buffered or in flight it has exactly the complete taps handed in |
| Journeys.MarkFrame | Simulation/carddb/cs.go:210-246 | pairing changes only the processing columns of the paired taps |
| Journeys.PairedTaps | Simulation/carddb/cs.go:210-246 | both taps of every processed pair record the cost between their stations, or that there is none |
| Journeys.MarkRecords | Simulation/carddb/cs.go:210-246 | what the taps record grows by exactly twice what is charged |
| Pairing.TurnLeaves | Simulation/carddb/cs.go:182-246 | a turn that goes through n pairs leaves exactly the other selected taps unprocessed, whatever the times |
| CardLedger.ConstructLeaves | Simulation/carddb/cs.go:156-251 | a committed turn leaves at most one tap of a known card, and a turn that is rolled back or of an unknown card leaves all |
| CardLedger.SettledIffKnown | Simulation/carddb/cs.go:165-180 | a committed turn leaves fewer than two taps if and only if the card is known or had fewer than two |
| CardLedger.UnknownCardWaits | Simulation/carddb/cs.go:165-180 | the two taps of an unknown card are selected again after a committed turn |
| CardLedger.UnknownNeverProcessed | Simulation/carddb/cs.go:165-180 | over every run no tap of an unknown card is ever processed |
| CardLedger.ConstructBalances | Simulation/carddb/cs.go:156-251 | one card's turn, committed or not, keeps every card's ledger balanced |
| CardLedger.RunBalances | Simulation/carddb/cs.go:128-253 | over every run of arrivals and constructions with any rollbacks, twice what was debited from a card equals the journey costs its taps record |
| CardLedger.ProcessedOnce | Simulation/carddb/cs.go:182-246 | once processed, a tap's row never changes again |
| Pairing.SelectionIsRest | Simulation/carddb/cs.go:182-204 | with strictly increasing times the selection is exactly the unpaired taps in arrival order |
| Pairing.TurnTracks | Simulation/carddb/cs.go:182-246 | a holder's turn processes every complete pair there is and charges exactly the new ones, in order |
| Pairing.TurnRecords | Simulation/carddb/cs.go:210-246 | a holder's turn adds twice its charges to what its rows record and nothing to anybody else's |
| Pairing.InsertTracks | Simulation/carddb/cs.go:76-92 | inserting taps extends the holder's rows in arrival order and pairs nothing |
| CardLedger.RunTracks | Simulation/carddb/cs.go:128-253 | after any run the card's rows are its arrivals in order with some leading pairs processed, and the balance is what those journeys leave |
| CardLedger.Confluence | Simulation/carddb/cs.go:125-253 | from any chronologically paired table, constructing at any moments, with any rollbacks, and once at the end gives a card, known or not, the same rows and balance as inserting all taps and constructing once |
| Debts.StatementTotal | Simulation/carddb/pctr.go:194-218 | the reported list owes each token exactly its unreported debts |
| Debts.MarkReportedTotal | Simulation/carddb/pctr.go:236-242 | marking moves every unreported amount to reported and loses none |
| Debts.InsertDebtsTotal | Simulation/carddb/pa.go:100-111 | skipping empty tokens and zero amounts changes no proper token's total |
| Debts.ReportSurplus | Simulation/pctrbo/main.go:182-214 | a reporting cycle raises received minus reported by exactly what it left behind unmarked, and by nothing when it goes through |
| Debts.ReportOutcome | Simulation/pctrbo/main.go:182-214 | a cycle that goes through brings every unreported amount to the authority and leaves none unreported; any other marks nothing and brings the inserted rows |
| Debts.RunSurplus | Simulation/pctrbo/main.go:171-216 | over every run, received minus reported for a token is exactly what failed or unmarked cycles left at the authority |
| Debts.AtLeastOnce | Simulation/pctrbo/main.go:171-216 | over every run with failed and partial posts, lost replies and failed marks, the authority has received at least what is marked reported |
| Debts.ExactlyOnce | Simulation/pctrbo/main.go:171-216 | if every post is processed once and every mark succeeds, received and reported are equal |
| Debts.LateDebtsUnposted | Simulation/carddb/pctr.go:236-242 | debts written between the sum and the marking would be marked without being posted, exactly their sum |
| Debts.BuildLeaves | Simulation/carddb/pctr.go:115-190 | a committed turn leaves at most one tap of the token, and one that is rolled back leaves all |
| Debts.BuildBalances | Simulation/carddb/pctr.go:115-190 | one token's turn, committed or not, keeps every token's debts equal to half of what its taps record |
| Debts.RunBalancesDebts | Simulation/carddb/pctr.go:88-242 | over every run of arrivals, constructions and reports, twice a token's debts equals what its taps record |
| Debts.RunTracks | Simulation/carddb/pctr.go:88-242 | after any run a token's rows are its arrivals with some leading pairs processed, and its debts are those pairs' fares in order |
| Debts.Confluence | Simulation/carddb/pctr.go:88-192 | constructing at any moments, with any rollbacks and reports in between, and once at the end gives a token the same debts in the same order as inserting all taps and constructing once |
| LedgerObjects.SeedStationCosts | Simulation/carddb/cs.go:56-74 | seeding keeps existing costs, adds the usable ones up to the first failing insert and no others, and leaves a table whose lookups are never negative |
| LedgerObjects.InsertTransactions | Simulation/carddb/cs.go:76-92 | the loop inserts the complete taps up to the first failure, and repeating the batch completes it |
| LedgerObjects.DebitPairs | Simulation/carddb/cs.go:210-246 | the pair loop marks the pairs gone through, debits their priced fares and counts the priced pairs |
| LedgerObjects.OwePairs | Simulation/carddb/pctr.go:148-185 | the pair loop marks the pairs gone through, adds a debt for each priced pair and counts them |
| LedgerObjects.CardStore.ConstructCard | Simulation/carddb/cs.go:156-251 | the transaction takes effect as a whole or not at all; an unknown card and fewer than two taps change nothing and are no failure |
| LedgerObjects.CardStore.RunJourneyConstruction | Simulation/carddb/cs.go:128-253 | the job, with taps arriving between its transactions, is a possible run of arrivals and constructions, one per visited card up to the first failure, and counts their journeys |
| LedgerObjects.InsertDebts | Simulation/carddb/pa.go:100-111 | the loop inserts the rows before the failing one, if any, and reports success exactly when none fails |
| LedgerObjects.DebtStore.ConstructToken | Simulation/carddb/pctr.go:115-190 | debts and processed taps appear together or not at all |
| LedgerObjects.DebtStore.ReportDebts | Simulation/pctrbo/main.go:182-214 | nothing is posted when nothing is owed, and debts are marked only after a complete and answered post |

## Left out

- Sockets, JSON, TLS, timeouts and goroutine lifecycles: a message is one step that may be answered, never arrive, or lose its reply.
- Text parsing of addresses, CIDRs and URLs: `destOf`, `cacheDest`, `storeDest` and `Text` stand for the library calls; `RoundTrips` states what is assumed of printing and parsing a network.
- Canonical spelling of addresses before hashing: part of the hash parameter, so addresses with one spelling may share an identifier; the population theorems assume distinct nodes have distinct identifiers.
- Last-seen times of peers and the default advertise address of a new node: nothing here depends on them.
- Interleavings inside one operation (lock-free counters, a cache swap during a registration): each operation is one step.
- Wrap-around of the 64-bit cursors and counters: they are natural numbers here.
- Cleanup of the memory registry and of the store, and the store's other listings: the claims about registrations are for runs without cleanup.
- The older registration call of the memory registry without a capacity, and the status and statistics calls: they only add easy members.
- The DHT registry wrapper and the single-owner responsibility test: the wrapper's rotation is the one modelled in `Selection`.
- DhtObject.Dht.LookupTask: gives the nodes to forward to; what they answer is in `DhtFind.Lookup`, since one node's object does not hold the network.
- Loading rules from files and from the database: a rule list is given, including rules without a source or destination.
- Restitution, export marks, tickets, manifests and card checks at the gates: outside the ledger claims.
- The station fares table: the lookup returns one of the rows of either direction without an order (Simulation/carddb/cs.go:94-109); with both directions stored at different costs its answer may change between calls, while confluence is for one fixed answer per pair of stations.
- Taps whose time text does not parse, or with a card type other than the lane's: the back office refuses the whole batch, which is a batch of which no row is inserted.
- Taps with equal times: the ledger theorems hold for every order the database may return; confluence is stated for strictly increasing times, as the pairing is otherwise not determined.
- Two back offices on one database: the debt theorems are for one loop that builds and reports in turn.
