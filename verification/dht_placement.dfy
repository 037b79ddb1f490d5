/** What the placement protocol achieves: theorems about whole runs of Store, of Find, and of the
    life of a node. */
module DhtPlacement {
  import opened Ring
  import opened DhtNode
  import opened DhtProtocol
  import opened DhtStore

  // ---------------------------------------------------------------------------
  // The true population
  // ---------------------------------------------------------------------------

  function Ids(c: Config, nodes: set<Address>): set<NodeId> {
    set a | a in nodes :: c.hashAddr(a)
  }

  /** Distinct nodes have distinct identifiers. */
  ghost predicate Collisionless(c: Config, nodes: set<Address>) {
    forall a, b :: a in nodes && b in nodes && c.hashAddr(a) == c.hashAddr(b) ==> a == b
  }

  /** The node is one of `nodes` and knows only members of `nodes`. */
  ghost predicate ViewWithin(s: State, nodes: set<Address>) {
    && s.self.address in nodes
    && forall id :: id in s.peers ==> s.peers[id].address in nodes
  }

  ghost predicate Population(c: Config, net: map<Address, State>, nodes: set<Address>) {
    && Collisionless(c, nodes)
    && forall a :: a in net ==> Valid(c, net[a]) && net[a].self.address == a && ViewWithin(net[a], nodes)
  }

  /** The nodes that should hold the task: the k closest of the whole population. */
  ghost function TrueHolders(c: Config, nodes: set<Address>, task: string): set<Address> {
    set a | a in nodes && c.hashAddr(a) in Holders(Ids(c, nodes), c.hashTask(task), c.k)
  }

  ghost predicate FullView(c: Config, s: State, nodes: set<Address>) {
    Known(s) == Ids(c, nodes)
  }

  lemma KnownWithin(c: Config, s: State, nodes: set<Address>)
    requires Valid(c, s) && ViewWithin(s, nodes)
    ensures Known(s) <= Ids(c, nodes)
  {
    forall id | id in Known(s) ensures id in Ids(c, nodes) {
      if id in s.peers {
        assert s.peers[id].address in nodes && c.hashAddr(s.peers[id].address) == id;
      }
    }
  }

  /** A member the view knows is known under its own address. */
  lemma ResolvesToMember(c: Config, s: State, nodes: set<Address>, a: Address)
    requires Valid(c, s) && ViewWithin(s, nodes) && Collisionless(c, nodes)
    requires a in nodes && c.hashAddr(a) in Known(s)
    ensures NodeOf(s, c.hashAddr(a)).address == a
  {
  }

  lemma GreetWithin(c: Config, s: State, nodes: set<Address>, sender: Address)
    requires Valid(c, s) && ViewWithin(s, nodes) && sender in nodes
    ensures Valid(c, Greet(c, s, sender)) && ViewWithin(Greet(c, s, sender), nodes)
    ensures Greet(c, s, sender).self == s.self
  {
    GreetValid(c, s, sender);
  }

  // ---------------------------------------------------------------------------
  // True holders accept
  // ---------------------------------------------------------------------------

  lemma {:induction false} RefreshHas(entries: seq<Registration>, address: Address, now: int)
    ensures Registration(address, now) in Refresh(entries, address, now)
  {
    if entries == [] || entries[0].address == address {
    } else {
      RefreshHas(entries[1..], address, now);
    }
  }

  /** A node lists itself among its k closest exactly when it finds itself responsible. */
  lemma ListsSelf(c: Config, s: State, task: string)
    requires Valid(c, s)
    ensures InKClosest(c, s, task)
       <==> exists i :: 0 <= i < |KClosest(c, s, task, c.k)| && KClosest(c, s, task, c.k)[i].id == s.self.id
  {
    var ids := NearestIds(s.ring, c.hashTask(task), c.k);
    var closest := KClosest(c, s, task, c.k);
    SelfAmongNearest(s, c.hashTask(task), c.k);
    NearestResolvable(s, c.hashTask(task), c.k);
    assert forall i :: 0 <= i < |closest| ==> closest[i].id == ids[i];
  }

  /** A true holder accepts a STORE from any member, whatever part of the population it knows. */
  lemma TrueHolderStores(c: Config, s: State, nodes: set<Address>, sender: Address, task: string, address: Address,
                         now: int)
    requires Valid(c, s) && ViewWithin(s, nodes) && sender in nodes
    requires s.self.address in TrueHolders(c, nodes, task)
    ensures var outcome := Handle(c, s, StoreRequest(sender, task, address), now);
            && outcome.reply == StoreOk
            && Registration(address, now) in Entries(outcome.state, task)
  {
    var s1 := Greet(c, s, sender);
    GreetWithin(c, s, nodes, sender);
    KnownWithin(c, s1, nodes);
    TrueHolderAccepts(c, s1, task, Ids(c, nodes));
    RefreshHas(Entries(s1, task), address, now);
  }

  // ---------------------------------------------------------------------------
  // Redirect completeness
  // ---------------------------------------------------------------------------

  lemma FullViewRejection(c: Config, s: State, nodes: set<Address>, task: string, address: Address, now: int,
                          h: Address)
    requires Valid(c, s) && ViewWithin(s, nodes) && Collisionless(c, nodes) && FullView(c, s, nodes)
    requires !Accepts(c, s, task)
    requires h in TrueHolders(c, nodes, task)
    ensures h in HandleStore(c, s, task, address, now).reply.closest
  {
    SuggestionsAreHolders(c, s, task, address, now, h);
    assert ViewWithin(s, nodes);
    ResolvesToMember(c, s, nodes, h);
    assert c.hashAddr(h) != s.self.id;
  }

  /** A node that rejects and then knows the whole population, the sender included, suggests every true
      holder. */
  lemma FullViewSuggestsHolders(x: Call, nodes: set<Address>, r: Address, h: Address)
    requires WellFormed(x) && Population(x.c, x.net, nodes)
    requires r in x.net && r != x.me && FullView(x.c, Greet(x.c, x.net[r], x.me), nodes)
    requires ReplyFrom(x, r).NotResponsible?
    requires h in TrueHolders(x.c, nodes, x.task)
    ensures h in Suggestions(x, r)
  {
    var s1 := Greet(x.c, x.net[r], x.me);
    assert ViewWithin(x.net[x.me], nodes);
    assert Valid(x.c, s1) && ViewWithin(s1, nodes) by { GreetWithin(x.c, x.net[r], nodes, x.me); }
    AnsweredStore(x, r);
    assert !Accepts(x.c, s1, x.task);
    FullViewRejection(x.c, s1, nodes, x.task, x.address, x.now, h);
  }

  /** If any contacted node rejects that, having learned the sender, knows everybody, then by the end of the run
      every true holder has been attempted, and every one that could be reached has stored the
      registration. */
  lemma RedirectCompleteness(x: Call, nodes: set<Address>, net: map<Address, State>, result: Result,
                             log: seq<Address>, r: Address, h: Address)
    requires WellFormed(x) && Population(x.c, x.net, nodes)
    requires StoreRun(x, net, result, log)
    requires r in log && r in x.net && r != x.me && FullView(x.c, Greet(x.c, x.net[r], x.me), nodes)
    requires ReplyFrom(x, r).NotResponsible?
    requires h in TrueHolders(x.c, nodes, x.task)
    ensures h in log
    ensures h == x.me || Reached(x, h) ==> Registration(x.address, x.now) in Entries(net[h], x.task)
  {
    FullViewSuggestsHolders(x, nodes, r, h);
    AttemptedHolderStores(x, nodes, net, result, log, h);
  }

  lemma AttemptedHolderStores(x: Call, nodes: set<Address>, net: map<Address, State>, result: Result,
                              log: seq<Address>, h: Address)
    requires WellFormed(x) && Population(x.c, x.net, nodes)
    requires StoreRun(x, net, result, log)
    requires h in log && h in TrueHolders(x.c, nodes, x.task)
    ensures h == x.me || Reached(x, h) ==> Registration(x.address, x.now) in Entries(net[h], x.task)
  {
    if h == x.me {
      var base := StoreTask(x.net[x.me], x.task, x.address, x.now);
      RefreshHas(Entries(x.net[x.me], x.task), x.address, x.now);
      LearnThenStore(x.c, base, Suggested(x, log), x.task, x.address, x.now);
    } else if Reached(x, h) {
      assert ViewWithin(x.net[x.me], nodes);
      TrueHolderStores(x.c, x.net[h], nodes, x.me, x.task, x.address, x.now);
    }
  }

  // ---------------------------------------------------------------------------
  // Attempts stay close, and errors mean what they say
  // ---------------------------------------------------------------------------

  /** Every attempted address is no farther from the task than one of the starting candidates. */
  lemma {:induction false} AttemptsStayClose(x: Call, net: map<Address, State>, result: Result, log: seq<Address>,
                                             a: Address)
      returns (start: Address)
    requires WellFormed(x) && StoreRun(x, net, result, log)
    requires a in log
    ensures start in Candidates(x) && start in log && Dist(x, a) <= Dist(x, start)
    decreases MODULUS - Dist(x, a)
  {
    if a in Candidates(x) {
      start := a;
    } else {
      assert Supported(x, log, a);
      var r :| r in log && a in Suggestions(x, r);
      SuggestionsAreCloser(x, r, a);
      start := AttemptsStayClose(x, net, result, log, r);
    }
  }

  lemma InAppend<T>(init: seq<T>, kept: bool, last: T, a: T)
    ensures a in init + (if kept then [last] else []) <==> a in init || (kept && a == last)
  {
  }

  lemma {:induction false} ReplicasMembers(x: Call, log: seq<Address>, a: Address)
    requires WellFormed(x)
    ensures a in Replicas(x, log) <==> a in log && Acknowledges(x, a)
  {
    if log == [] {
    } else {
      var init, last := log[..|log| - 1], log[|log| - 1];
      ReplicasMembers(x, init, a);
      assert log == init + [last];
      InAppend(init, true, last, a);
      InAppend(Replicas(x, init), Acknowledges(x, last), last, a);
    }
  }

  /** Store succeeds exactly when some attempted node acknowledged: itself, or one that answers and is one of the k
      holders of what it knows. */
  lemma SucceedsIffAcknowledged(x: Call, net: map<Address, State>, result: Result, log: seq<Address>)
    requires WellFormed(x) && StoreRun(x, net, result, log)
    ensures result.Stored? <==> exists a :: a in log && Acknowledges(x, a)
    ensures result.Stored? <==> exists a :: a in log && (a == x.me || TakesStore(x, a))
  {
    if result.Stored? {
      var a := Replicas(x, log)[0];
      assert a in Replicas(x, log);
      ReplicasMembers(x, log, a);
    }
    if a :| a in log && Acknowledges(x, a) {
      ReplicasMembers(x, log, a);
    }
    StoreSucceedsIff(x, net, result, log);
  }

  lemma LocalIsStored(x: Call, log: seq<Address>, mine: State)
    requires WellFormed(x) && x.me in log && SenderAfter(x, log, mine)
    ensures Registration(x.address, x.now) in Entries(mine, x.task)
  {
    var base := StoreTask(x.net[x.me], x.task, x.address, x.now);
    RefreshHas(Entries(x.net[x.me], x.task), x.address, x.now);
    assert mine == Learn(x.c, base, Suggested(x, log));
    LearnThenStore(x.c, base, Suggested(x, log), x.task, x.address, x.now);
  }

  lemma StoreOkIsStored(c: Config, s: State, sender: Address, task: string, address: Address, now: int)
    requires Valid(c, s)
    requires Handle(c, s, StoreRequest(sender, task, address), now).reply.StoreOk?
    ensures Registration(address, now) in Entries(Handle(c, s, StoreRequest(sender, task, address), now).state, task)
  {
    GreetValid(c, s, sender);
    var g := Greet(c, s, sender);
    RefreshHas(Entries(g, task), address, now);
    assert Handle(c, s, StoreRequest(sender, task, address), now) == HandleStore(c, g, task, address, now);
  }

  lemma RemoteIsStored(x: Call, a: Address)
    requires WellFormed(x) && a != x.me && Acknowledges(x, a)
    ensures a in x.net
    ensures Registration(x.address, x.now) in Entries(Handle(x.c, x.net[a], Request(x), x.now).state, x.task)
  {
    StoreOkIsStored(x.c, x.net[a], x.me, x.task, x.address, x.now);
  }

  /** An acknowledgement is never empty: the node holds the registration. */
  lemma AcknowledgedIsStored(x: Call, net: map<Address, State>, result: Result, log: seq<Address>, a: Address)
    requires WellFormed(x) && StoreRun(x, net, result, log)
    requires a in log && Acknowledges(x, a)
    ensures a in net && Registration(x.address, x.now) in Entries(net[a], x.task)
  {
    if a == x.me {
      LocalIsStored(x, log, net[x.me]);
    } else {
      RemoteIsStored(x, a);
    }
  }

  // ---------------------------------------------------------------------------
  // The population survives
  // ---------------------------------------------------------------------------

  lemma SuggestionsWithin(x: Call, nodes: set<Address>, a: Address, y: Address)
    requires WellFormed(x) && Population(x.c, x.net, nodes)
    requires y in Suggestions(x, a)
    ensures y in nodes
  {
    SuggestionsAreCloser(x, a, y);
    AnsweredStore(x, a);
    var s1 := Greet(x.c, x.net[a], x.me);
    assert ViewWithin(x.net[x.me], nodes) && ViewWithin(x.net[a], nodes);
    GreetWithin(x.c, x.net[a], nodes, x.me);
    SuggestionsAreHolders(x.c, s1, x.task, x.address, x.now, y);
  }

  lemma {:induction false} LearnWithin(c: Config, s: State, nodes: set<Address>, addresses: seq<Address>)
    requires ViewWithin(s, nodes) && forall a :: a in addresses ==> a in nodes
    ensures ViewWithin(Learn(c, s, addresses), nodes)
  {
    if addresses == [] {
    } else {
      LearnWithin(c, s, nodes, addresses[..|addresses| - 1]);
      assert addresses[|addresses| - 1] in nodes;
    }
  }

  lemma SenderWithin(x: Call, nodes: set<Address>, log: seq<Address>, mine: State)
    requires WellFormed(x) && Population(x.c, x.net, nodes) && SenderAfter(x, log, mine)
    ensures Valid(x.c, mine) && mine.self.address == x.me && ViewWithin(mine, nodes)
  {
    var s, named := x.net[x.me], Suggested(x, log);
    assert Valid(x.c, s) && ViewWithin(s, nodes);
    StoredWithin(x.c, s, nodes, x.task, x.address, x.now);
    var base := if x.me in log then StoreTask(s, x.task, x.address, x.now) else s;
    forall a | a in named ensures a in nodes {
      var r := SuggestedBy(x, log, a);
      SuggestionsWithin(x, nodes, r, a);
    }
    LearnValid(x.c, base, named);
    LearnWithin(x.c, base, nodes, named);
  }

  lemma OtherWithin(x: Call, nodes: set<Address>, log: seq<Address>, net: map<Address, State>, a: Address)
    requires WellFormed(x) && Population(x.c, x.net, nodes) && OthersAfter(x, log, net)
    requires a in net && a != x.me
    ensures Valid(x.c, net[a]) && net[a].self.address == a && ViewWithin(net[a], nodes)
  {
    var s := x.net[a];
    assert Valid(x.c, s) && ViewWithin(s, nodes) && ViewWithin(x.net[x.me], nodes);
    GreetWithin(x.c, s, nodes, x.me);
    HandleValid(x.c, s, Request(x), x.now);
    HandleFrame(x.c, s, Request(x), x.now);
  }

  /** A run of Store leaves every node valid and knowing only members, whatever anybody knew before. */
  lemma StoreKeepsPopulation(x: Call, nodes: set<Address>, net: map<Address, State>, result: Result, log: seq<Address>)
    requires WellFormed(x) && Population(x.c, x.net, nodes) && StoreRun(x, net, result, log)
    ensures Population(x.c, net, nodes) && net.Keys == x.net.Keys
  {
    forall a | a in net ensures Valid(x.c, net[a]) && net[a].self.address == a && ViewWithin(net[a], nodes) {
      if a == x.me { SenderWithin(x, nodes, log, net[a]); } else { OtherWithin(x, nodes, log, net, a); }
    }
  }

  /** One finished call of Store. */
  datatype Finished = Finished(x: Call, net: map<Address, State>, result: Result, log: seq<Address>)

  ghost predicate RanOn(c: Config, net: map<Address, State>, f: Finished) {
    f.x.c == c && f.x.net == net && WellFormed(f.x) && StoreRun(f.x, f.net, f.result, f.log)
  }

  /** The nodes before the i-th call. */
  function Before(net: map<Address, State>, calls: seq<Finished>, i: nat): map<Address, State>
    requires i <= |calls|
  {
    if i == 0 then net else calls[i - 1].net
  }

  /** Calls of Store one after the other, by any members, each on the nodes the last one left. */
  ghost predicate InTurn(c: Config, net: map<Address, State>, calls: seq<Finished>) {
    forall i: nat | i < |calls| :: RanAt(c, net, calls, i)
  }

  ghost predicate RanAt(c: Config, net: map<Address, State>, calls: seq<Finished>, i: nat) {
    i < |calls| && RanOn(c, Before(net, calls, i), calls[i])
  }

  lemma CallKeepsPopulation(c: Config, net: map<Address, State>, nodes: set<Address>, calls: seq<Finished>, i: nat)
    requires InTurn(c, net, calls) && i < |calls|
    requires Population(c, Before(net, calls, i), nodes)
    ensures Population(c, Before(net, calls, i + 1), nodes)
  {
    assert RanAt(c, net, calls, i);
    var f := calls[i];
    StoreKeepsPopulation(f.x, nodes, f.net, f.result, f.log);
  }

  lemma {:induction false} CallsKeepPopulation(c: Config, net: map<Address, State>, nodes: set<Address>,
                                               calls: seq<Finished>, i: nat)
    requires Population(c, net, nodes) && InTurn(c, net, calls) && i <= |calls|
    ensures Population(c, Before(net, calls, i), nodes)
  {
    if i == 0 {
    } else {
      CallsKeepPopulation(c, net, nodes, calls, i - 1);
      CallKeepsPopulation(c, net, nodes, calls, i - 1);
    }
  }

  /** Redirect completeness for every call of a sequence of calls: however far the views have grown by
      then, a rejection by a node that knows everyone leads to all true holders. */
  lemma RedirectCompletenessInTurn(c: Config, net: map<Address, State>, nodes: set<Address>,
                                   calls: seq<Finished>, i: nat, r: Address, h: Address)
    requires Population(c, net, nodes) && InTurn(c, net, calls) && i < |calls|
    requires WellFormed(calls[i].x)
    requires r in calls[i].log && r in calls[i].x.net && r != calls[i].x.me
    requires FullView(c, Greet(c, calls[i].x.net[r], calls[i].x.me), nodes)
    requires ReplyFrom(calls[i].x, r).NotResponsible?
    requires h in TrueHolders(c, nodes, calls[i].x.task)
    ensures h in calls[i].log
    ensures h == calls[i].x.me || Reached(calls[i].x, h) ==>
              h in calls[i].net
              && Registration(calls[i].x.address, calls[i].x.now) in Entries(calls[i].net[h], calls[i].x.task)
  {
    CallsKeepPopulation(c, net, nodes, calls, i);
    var f := calls[i];
    assert RanAt(c, net, calls, i);
    RedirectCompleteness(f.x, nodes, f.net, f.result, f.log, r, h);
  }

  /** How a node comes to list itself: a node that rejects its STORE and counts the sender among the k
      closest names it, and the sender learns every name. */
  lemma RedirectListsSender(x: Call, net: map<Address, State>, result: Result, log: seq<Address>, r: Address)
    requires WellFormed(x) && StoreRun(x, net, result, log)
    requires r in log && r in x.net && r != x.me && ReplyFrom(x, r).NotResponsible?
    requires var s1 := Greet(x.c, x.net[r], x.me);
             && x.c.hashAddr(x.me) in Holders(Known(s1), x.c.hashTask(x.task), x.c.k)
             && x.c.hashAddr(x.me) in s1.peers && s1.peers[x.c.hashAddr(x.me)].address == x.me
    ensures x.net[x.me].self.id in net[x.me].peers
  {
    var s1 := Greet(x.c, x.net[r], x.me);
    AnsweredStore(x, r);
    SuggestionsAreHolders(x.c, s1, x.task, x.address, x.now, x.me);
    SuggestedHas(x, log, r, x.me);
    var base := if x.me in log then StoreTask(x.net[x.me], x.task, x.address, x.now) else x.net[x.me];
    LearnHas(x.c, base, Suggested(x, log), x.me);
  }

  // ---------------------------------------------------------------------------
  // Agreed views
  // ---------------------------------------------------------------------------

  /** All nodes know the whole population and none lists itself as a peer. */
  ghost predicate Agreed(c: Config, net: map<Address, State>, nodes: set<Address>) {
    && Population(c, net, nodes)
    && net.Keys == nodes
    && forall a :: a in net ==> FullView(c, net[a], nodes) && net[a].self.id !in net[a].peers
  }

  /** A node that agrees on the view looks up exactly the true holders. */
  lemma AgreedCandidates(c: Config, s: State, nodes: set<Address>, task: string, a: Address)
    requires Valid(c, s) && ViewWithin(s, nodes) && Collisionless(c, nodes) && FullView(c, s, nodes)
    requires s.self.id !in s.peers
    ensures a in NodeAddresses(KClosest(c, s, task, c.k)) <==> a in TrueHolders(c, nodes, task)
  {
    var t := c.hashTask(task);
    var ids := NearestIds(s.ring, t, c.k);
    var closest := KClosest(c, s, task, c.k);
    NearestResolvable(s, t, c.k);
    NearestAreHolders(s, t, c.k);
    assert forall x :: x in NearestSet(s, t, c.k) <==> x in ids;
    if a in TrueHolders(c, nodes, task) {
      assert c.hashAddr(a) in ids;
      var i :| 0 <= i < |ids| && ids[i] == c.hashAddr(a);
      ResolvesToMember(c, s, nodes, a);
      assert NodeAddresses(closest)[i] == a;
    }
    if a in NodeAddresses(closest) {
      var i :| 0 <= i < |closest| && closest[i].address == a;
      assert closest[i] == NodeOf(s, ids[i]);
      assert ids[i] in ids && ids[i] in Holders(Known(s), t, c.k);
    }
  }

  lemma AgreedNoSuggestions(x: Call, nodes: set<Address>, h: Address)
    requires WellFormed(x) && Agreed(x.c, x.net, nodes)
    requires h in TrueHolders(x.c, nodes, x.task)
    ensures Suggestions(x, h) == []
  {
    if h in x.net && x.link(h).Answered? {
      assert ViewWithin(x.net[x.me], nodes);
      TrueHolderStores(x.c, x.net[h], nodes, x.me, x.task, x.address, x.now);
    }
  }

  /** On agreed views Store attempts the true holders and nobody else. */
  lemma {:induction false} AgreedAttempts(x: Call, nodes: set<Address>, net: map<Address, State>, result: Result,
                                          log: seq<Address>, a: Address)
    requires WellFormed(x) && Agreed(x.c, x.net, nodes) && StoreRun(x, net, result, log)
    ensures a in log <==> a in TrueHolders(x.c, nodes, x.task)
    decreases MODULUS - Dist(x, a)
  {
    AgreedCandidates(x.c, x.net[x.me], nodes, x.task, a);
    if a in log && a !in Candidates(x) {
      assert Supported(x, log, a);
      var r :| r in log && a in Suggestions(x, r);
      SuggestionsAreCloser(x, r, a);
      AgreedAttempts(x, nodes, net, result, log, r);
      AgreedNoSuggestions(x, nodes, r);
      assert false;
    }
  }

  lemma GreetAgreed(c: Config, s: State, nodes: set<Address>, sender: Address)
    requires Valid(c, s) && FullView(c, s, nodes) && sender in nodes && Collisionless(c, nodes)
    requires s.self.address in nodes
    ensures Greet(c, s, sender) == s
  {
    if sender != s.self.address {
      assert c.hashAddr(sender) in Ids(c, nodes);
      assert c.hashAddr(sender) != s.self.id;
    }
  }

  lemma StoredWithin(c: Config, s: State, nodes: set<Address>, task: string, address: Address, now: int)
    requires Valid(c, s) && ViewWithin(s, nodes)
    ensures Valid(c, StoreTask(s, task, address, now)) && ViewWithin(StoreTask(s, task, address, now), nodes)
  {
    StorageIrrelevant(c, s, StoreTask(s, task, address, now).storage);
  }

  /** On agreed views a run of Store changes nobody's view: each node is as before, or as before
      with the registration added. */
  lemma AgreedStoreOnlyStores(x: Call, nodes: set<Address>, net: map<Address, State>, result: Result,
                              log: seq<Address>, a: Address)
    requires WellFormed(x) && Agreed(x.c, x.net, nodes) && StoreRun(x, net, result, log)
    requires a in net
    ensures net[a] == x.net[a] || net[a] == StoreTask(x.net[a], x.task, x.address, x.now)
  {
    if a == x.me {
      if Suggested(x, log) != [] {
        var r := SuggestedBy(x, log, Suggested(x, log)[0]);
        AgreedAttempts(x, nodes, net, result, log, r);
        AgreedNoSuggestions(x, nodes, r);
        assert false;
      }
    } else {
      assert ViewWithin(x.net[x.me], nodes) && ViewWithin(x.net[a], nodes);
      GreetAgreed(x.c, x.net[a], nodes, x.me);
      HandleFrame(x.c, x.net[a], Request(x), x.now);
    }
  }

  /** Store keeps the views agreed. */
  lemma StoreKeepsAgreed(x: Call, nodes: set<Address>, net: map<Address, State>, result: Result, log: seq<Address>)
    requires WellFormed(x) && Agreed(x.c, x.net, nodes) && StoreRun(x, net, result, log)
    ensures Agreed(x.c, net, nodes)
  {
    forall a | a in net
      ensures Valid(x.c, net[a]) && net[a].self.address == a && ViewWithin(net[a], nodes)
      ensures FullView(x.c, net[a], nodes) && net[a].self.id !in net[a].peers
    {
      AgreedStoreOnlyStores(x, nodes, net, result, log, a);
      assert Valid(x.c, x.net[a]) && ViewWithin(x.net[a], nodes);
      StoredWithin(x.c, x.net[a], nodes, x.task, x.address, x.now);
    }
  }
}
