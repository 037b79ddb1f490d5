/** One run of Store after which the sender lists itself and no longer finds a holder it knows. */
module DhtSelfListing {
  import opened Ring
  import opened DhtNode
  import opened DhtProtocol
  import opened DhtStore
  import opened DhtPlacement

  /** The sender is closest to the task, then `b`, then `r`. */
  predicate InThisOrder(c: Config, t: NodeId, me: Address, b: Address, r: Address) {
    Distance(t, c.hashAddr(me)) < Distance(t, c.hashAddr(b)) < Distance(t, c.hashAddr(r))
  }

  /** The sender knows only `r`. */
  ghost predicate SenderView(c: Config, s: State, me: Address, r: Address) {
    && Valid(c, s) && s.self == Node(c.hashAddr(me), me)
    && s.peers == map[c.hashAddr(r) := Node(c.hashAddr(r), r)]
  }

  /** `r` knows the sender and `b`. */
  ghost predicate RejecterView(c: Config, s: State, me: Address, b: Address, r: Address) {
    && Valid(c, s) && s.self == Node(c.hashAddr(r), r)
    && s.peers == map[c.hashAddr(me) := Node(c.hashAddr(me), me), c.hashAddr(b) := Node(c.hashAddr(b), b)]
  }

  /** A call of Store by the sender in a population of three, with two replicas wanted, to which `r` answers. */
  ghost predicate TrioCall(x: Call, r: Address, b: Address) {
    && WellFormed(x) && Population(x.c, x.net, {x.me, r, b}) && x.c.k == 2
    && InThisOrder(x.c, x.c.hashTask(x.task), x.me, b, r)
    && SenderView(x.c, x.net[x.me], x.me, r)
    && r in x.net && x.link(r).Answered? && RejecterView(x.c, x.net[r], x.me, b, r)
  }

  /** Such views come about by learning those addresses. */
  lemma ViewsArise(c: Config, me: Address, b: Address, r: Address)
    requires c.hashAddr(me) != c.hashAddr(b) && c.hashAddr(me) != c.hashAddr(r) && c.hashAddr(b) != c.hashAddr(r)
    ensures SenderView(c, AddPeer(c, NewNode(c, me), r), me, r)
    ensures RejecterView(c, AddPeer(c, AddPeer(c, NewNode(c, r), me), b), me, b, r)
  {
    AddPeerValid(c, NewNode(c, me), r);
    AddPeerValid(c, NewNode(c, r), me);
    AddPeerValid(c, AddPeer(c, NewNode(c, r), me), b);
  }

  /** The sender starts with `r` among its candidates. */
  lemma KnowsRejecter(c: Config, s: State, task: string, me: Address, r: Address)
    requires SenderView(c, s, me, r) && c.k == 2 && c.hashAddr(me) != c.hashAddr(r)
    ensures r in NodeAddresses(KClosest(c, s, task, c.k))
  {
    var t, id := c.hashTask(task), c.hashAddr(r);
    assert Closer(s.peers.Keys, t, id) == {};
    NearestIffRank(s, t, 2, id);
    var ids, closest := NearestIds(s.ring, t, 2), KClosest(c, s, task, 2);
    assert id in ids;
    var i :| 0 <= i < |ids| && ids[i] == id;
    NearestResolvable(s, t, 2);
    assert closest[i].address == r;
    assert NodeAddresses(closest)[i] == r;
  }

  lemma RejecterRejects(c: Config, s: State, task: string, me: Address, b: Address, r: Address)
    requires RejecterView(c, s, me, b, r) && c.k == 2 && InThisOrder(c, c.hashTask(task), me, b, r)
    ensures !Accepts(c, s, task)
  {
    var mine, other := c.hashAddr(me), c.hashAddr(b);
    assert Closer(s.peers.Keys, c.hashTask(task), s.self.id) == {mine, other};
    AcceptsByRank(c, s, task);
  }

  lemma RejecterCounts(c: Config, s: State, t: NodeId, me: Address, b: Address, r: Address)
    requires RejecterView(c, s, me, b, r) && InThisOrder(c, t, me, b, r)
    ensures c.hashAddr(me) in Holders(Known(s), t, 2) && c.hashAddr(b) in Holders(Known(s), t, 2)
  {
    var mine, other := c.hashAddr(me), c.hashAddr(b);
    assert Known(s) == {s.self.id, mine, other};
    assert Closer(Known(s), t, mine) == {} && Closer(Known(s), t, other) == {mine};
  }

  /** `r` rejects and names the sender and `b`. */
  lemma RejecterNames(c: Config, s: State, task: string, address: Address, now: int, me: Address, b: Address,
                      r: Address, a: Address)
    requires RejecterView(c, s, me, b, r) && c.k == 2 && InThisOrder(c, c.hashTask(task), me, b, r)
    requires a == me || a == b
    ensures !Accepts(c, s, task) && a in HandleStore(c, s, task, address, now).reply.closest
  {
    RejecterRejects(c, s, task, me, b, r);
    RejecterCounts(c, s, c.hashTask(task), me, b, r);
    SuggestionsAreHolders(c, s, task, address, now, a);
  }

  lemma SenderSuggested(x: Call, r: Address, b: Address, a: Address)
    requires TrioCall(x, r, b) && (a == x.me || a == b)
    ensures a in Suggestions(x, r)
  {
    AnsweredStore(x, r);
    KnowsSender(x.c, x.net[r], x.me, b, r);
    RejecterNames(x.c, x.net[r], x.task, x.address, x.now, x.me, b, r, a);
  }

  lemma KnowsSender(c: Config, s: State, me: Address, b: Address, r: Address)
    requires RejecterView(c, s, me, b, r)
    ensures Greet(c, s, me) == s
  {
  }

  lemma RejecterContacted(x: Call, r: Address, b: Address)
    requires TrioCall(x, r, b)
    ensures r in Candidates(x)
  {
    KnowsRejecter(x.c, x.net[x.me], x.task, x.me, r);
  }

  lemma SenderLearns(x: Call, r: Address, b: Address, net: map<Address, State>, result: Result, log: seq<Address>,
                     a: Address)
    requires TrioCall(x, r, b) && StoreRun(x, net, result, log) && (a == x.me || a == b)
    ensures x.me in net && x.c.hashAddr(a) in net[x.me].peers
  {
    RejecterContacted(x, r, b);
    SenderSuggested(x, r, b, a);
    SuggestedHas(x, log, r, a);
    var base := if x.me in log then StoreTask(x.net[x.me], x.task, x.address, x.now) else x.net[x.me];
    LearnHas(x.c, base, Suggested(x, log), a);
  }

  /** A view within the three nodes that lists its own node and `b` loses `b`. */
  lemma ViewCrowdsOut(c: Config, s: State, t: NodeId, me: Address, r: Address, b: Address)
    requires Valid(c, s) && s.self.address == me && ViewWithin(s, {me, r, b}) && InThisOrder(c, t, me, b, r)
    requires c.hashAddr(me) in s.peers && c.hashAddr(b) in s.peers
    ensures CrowdsOut(s, t, 2)
    ensures c.hashAddr(b) in Holders(Known(s), t, 2) && c.hashAddr(b) !in NearestSet(s, t, 2)
  {
    KnownWithin(c, s, {me, r, b});
    var mine, other := c.hashAddr(me), c.hashAddr(b);
    assert Known(s) == s.peers.Keys && s.peers.Keys <= {mine, other, c.hashAddr(r)};
    assert Closer(s.peers.Keys, t, mine) == {} && Closer(s.peers.Keys, t, other) == {mine};
    SubsetCard({mine, other}, s.peers.Keys);
    NearestAreHolders(s, t, 2);
  }

  /** Every run of Store on such a network, whoever else can be reached, leaves the sender listing itself,
      and of the two nodes that should hold the task it then finds only itself, although it knows both. */
  lemma StoreCrowdsOut(x: Call, r: Address, b: Address, net: map<Address, State>, result: Result, log: seq<Address>)
    requires TrioCall(x, r, b) && StoreRun(x, net, result, log)
    ensures var s, t := net[x.me], x.c.hashTask(x.task);
            && CrowdsOut(s, t, 2)
            && x.c.hashAddr(b) in Holders(Known(s), t, 2) && x.c.hashAddr(b) !in NearestSet(s, t, 2)
  {
    StoreKeepsPopulation(x, {x.me, r, b}, net, result, log);
    SenderLearns(x, r, b, net, result, log, x.me);
    SenderLearns(x, r, b, net, result, log, b);
    assert ViewWithin(net[x.me], {x.me, r, b});
    ViewCrowdsOut(x.c, net[x.me], x.c.hashTask(x.task), x.me, r, b);
  }
}
