/** What Store and Find come to, said in terms of views, distances and links only: whom Store contacts, what
    it reports and leaves behind, and what Find returns and whom it asks. */
module DhtOutcomes {
  import opened Ring
  import opened DhtNode
  import opened DhtProtocol
  import opened DhtStore
  import opened DhtPlacement
  import opened DhtFind
  import opened DhtLife

  // ---------------------------------------------------------------------------
  // Whom Store contacts, and what it leaves behind
  // ---------------------------------------------------------------------------

  /** The k closest nodes of a view are the known nodes that fewer than k ring entries beat. */
  lemma KClosestIff(c: Config, s: State, task: string, n: Node)
    requires Valid(c, s)
    ensures n in KClosest(c, s, task, c.k)
       <==> n.id in Known(s) && Rank(s, c.hashTask(task), n.id) < c.k && n == NodeOf(s, n.id)
  {
    var t := c.hashTask(task);
    var ids, closest := NearestIds(s.ring, t, c.k), KClosest(c, s, task, c.k);
    NearestResolvable(s, t, c.k);
    NearestIffRank(s, t, c.k, n.id);
    if n in closest {
      var i :| 0 <= i < |closest| && closest[i] == n;
      assert closest[i] == NodeOf(s, ids[i]);
    }
    if n.id in ids && n == NodeOf(s, n.id) {
      var i :| 0 <= i < |ids| && ids[i] == n.id;
      assert closest[i] == n;
    }
  }

  lemma InNodeAddresses(nodes: seq<Node>, a: Address)
    ensures a in NodeAddresses(nodes) <==> exists n :: n in nodes && n.address == a
  {
    if a in NodeAddresses(nodes) {
      var i :| 0 <= i < |nodes| && NodeAddresses(nodes)[i] == a;
      assert nodes[i] in nodes;
    }
    if n :| n in nodes && n.address == a {
      var i :| 0 <= i < |nodes| && nodes[i] == n;
      assert NodeAddresses(nodes)[i] == a;
    }
  }

  /** A known identifier at this address is beaten by fewer than k ring entries. */
  ghost predicate AmongNearest(c: Config, s: State, task: string, a: Address) {
    exists id :: id in Known(s) && Rank(s, c.hashTask(task), id) < c.k && NodeOf(s, id).address == a
  }

  lemma NearestAddresses(c: Config, s: State, task: string, a: Address)
    requires Valid(c, s)
    ensures a in NodeAddresses(KClosest(c, s, task, c.k)) <==> AmongNearest(c, s, task, a)
  {
    var closest := KClosest(c, s, task, c.k);
    InNodeAddresses(closest, a);
    if n :| n in closest && n.address == a {
      KClosestIff(c, s, task, n);
    }
    if id :| id in Known(s) && Rank(s, c.hashTask(task), id) < c.k && NodeOf(s, id).address == a {
      assert NodeOf(s, id).id == id;
      KClosestIff(c, s, task, NodeOf(s, id));
    }
  }

  /** The sender starts with the addresses of the nearest nodes it knows. */
  lemma CandidatesIff(x: Call, a: Address)
    requires WellFormed(x)
    ensures a in Candidates(x) <==> AmongNearest(x.c, x.net[x.me], x.task, a)
  {
    NearestAddresses(x.c, x.net[x.me], x.task, a);
  }

  /** Suggestions come from answering nodes that are not responsible, and are the k holders of what those
      know. */
  lemma SuggestionsIff(x: Call, r: Address, y: Address)
    requires WellFormed(x)
    ensures y in Suggestions(x, r)
       <==> && r != x.me && r in x.net && x.link(r).Answered? && !Responsible(x.c, x.net[r], x.me, x.task)
            && x.c.hashAddr(y) in Holders(ViewOnReceipt(x.c, x.net[r], x.me), x.c.hashTask(x.task), x.c.k)
            && (if x.c.hashAddr(y) in x.net[r].peers then x.net[r].peers[x.c.hashAddr(y)].address == y else y == x.me)
  {
    if r in x.net && x.link(r).Answered? {
      StoreOutcome(x.c, x.net[r], x.me, x.task, x.address, x.now, "");
      if !Responsible(x.c, x.net[r], x.me, x.task) {
        StoreSuggests(x.c, x.net[r], x.me, x.task, x.address, x.now, y);
      }
    }
  }

  /** Store touches no other node than those it attempted and reached. Each of these knows the sender
      afterwards; it has the registration if it is one of the k holders of what it knows, reply or no reply,
      and has stored nothing otherwise. */
  lemma StoreLeavesOthers(x: Call, net: map<Address, State>, result: Result, log: seq<Address>, a: Address)
    requires WellFormed(x) && StoreRun(x, net, result, log) && a in net && a != x.me
    ensures a !in log || x.link(a).Unreachable? ==> net[a] == x.net[a]
    ensures a in log && !x.link(a).Unreachable? ==>
              && Known(net[a]) == ViewOnReceipt(x.c, x.net[a], x.me)
              && (if Responsible(x.c, x.net[a], x.me, x.task)
                  then Registration(x.address, x.now) in Entries(net[a], x.task)
                  else net[a].storage == x.net[a].storage)
              && forall t :: t != x.task ==> Entries(net[a], t) == Entries(x.net[a], t)
  {
    var s := x.net[a];
    ReceiverLearnsSender(x.c, s, Request(x), x.now);
    StoreOutcome(x.c, s, x.me, x.task, x.address, x.now, "");
    forall t | t != x.task ensures Entries(Handle(x.c, s, Request(x), x.now).state, t) == Entries(s, t) {
      StoreOutcome(x.c, s, x.me, x.task, x.address, x.now, t);
    }
    if Responsible(x.c, s, x.me, x.task) {
      StoreOkIsStored(x.c, s, x.me, x.task, x.address, x.now);
    }
  }

  lemma {:induction false} LearnPeers(c: Config, s: State, addresses: seq<Address>, id: NodeId)
    ensures id in Learn(c, s, addresses).peers
       <==> id in s.peers || exists a :: a in addresses && c.hashAddr(a) == id
  {
    if addresses == [] {
    } else {
      var init, last := addresses[..|addresses| - 1], addresses[|addresses| - 1];
      LearnPeers(c, s, init, id);
      assert addresses == init + [last];
      assert forall a :: a in addresses <==> a in init || a == last;
    }
  }

  /** An attempted node suggested this identifier to the sender. */
  ghost predicate NamedToSender(x: Call, log: seq<Address>, id: NodeId)
    requires WellFormed(x)
  {
    exists r, y :: r in log && y in Suggestions(x, r) && x.c.hashAddr(y) == id
  }

  lemma SuggestedIds(x: Call, log: seq<Address>, id: NodeId)
    requires WellFormed(x)
    ensures NamedToSender(x, log, id) <==> exists a :: a in Suggested(x, log) && x.c.hashAddr(a) == id
  {
    if a :| a in Suggested(x, log) && x.c.hashAddr(a) == id {
      var r := SuggestedBy(x, log, a);
    }
    if r, y :| r in log && y in Suggestions(x, r) && x.c.hashAddr(y) == id {
      SuggestedHas(x, log, r, y);
    }
  }

  /** The sender's new peers are exactly the suggested nodes. */
  lemma StoreTeachesSender(x: Call, net: map<Address, State>, result: Result, log: seq<Address>, id: NodeId)
    requires WellFormed(x) && StoreRun(x, net, result, log)
    ensures id in net[x.me].peers <==> id in x.net[x.me].peers || NamedToSender(x, log, id)
  {
    var base := if x.me in log then StoreTask(x.net[x.me], x.task, x.address, x.now) else x.net[x.me];
    LearnPeers(x.c, base, Suggested(x, log), id);
    SuggestedIds(x, log, id);
  }

  /** The sender stores the registration exactly if it attempted itself, and nothing else. */
  lemma StoreLeavesSender(x: Call, net: map<Address, State>, result: Result, log: seq<Address>, t: string)
    requires WellFormed(x) && StoreRun(x, net, result, log)
    ensures x.me !in log ==> net[x.me].storage == x.net[x.me].storage
    ensures x.me in log ==> Registration(x.address, x.now) in Entries(net[x.me], x.task)
    ensures t != x.task ==> Entries(net[x.me], t) == Entries(x.net[x.me], t)
  {
    var base := if x.me in log then StoreTask(x.net[x.me], x.task, x.address, x.now) else x.net[x.me];
    LearnThenStore(x.c, base, Suggested(x, log), x.task, x.address, x.now);
    if x.me in log { LocalIsStored(x, log, net[x.me]); }
  }

  // ---------------------------------------------------------------------------
  // What Find returns and whom it asks
  // ---------------------------------------------------------------------------

  /** A node answers a FIND with its unexpired addresses exactly if the link holds and it is one of the k
      holders of what it knows. */
  lemma AnswerIs(q: Query, a: Address)
    requires Ready(q)
    ensures Answer(q, a) == if a in q.net && q.link(a).Answered? && Responsible(q.c, q.net[a], q.me, q.task)
                            then Active(q.c, q.net[a], q.task, q.now) else []
  {
    if a in q.net && q.link(a).Answered? {
      FindOutcome(q.c, q.net[a], q.me, q.task, q.now);
    }
  }

  /** The nodes before position `at` are the asker or answer nothing, and the one there, if any, answers. */
  ghost predicate FirstToAnswer(q: Query, nodes: seq<Node>, at: nat)
    requires Ready(q)
  {
    && at <= |nodes|
    && (forall j :: 0 <= j < at ==> nodes[j].id == q.net[q.me].self.id || Answer(q, nodes[j].address) == [])
    && (at < |nodes| ==> nodes[at].id != q.net[q.me].self.id && Answer(q, nodes[at].address) != [])
  }

  lemma {:induction false} StopIsFirst(reply: Node -> seq<Address>, nodes: seq<Node>)
    ensures var at := StopAt(reply, nodes);
            && (forall j :: 0 <= j < at ==> reply(nodes[j]) == [])
            && (at < |nodes| ==> reply(nodes[at]) != [])
  {
    if nodes == [] || reply(nodes[0]) != [] {
    } else {
      StopIsFirst(reply, nodes[1..]);
    }
  }

  lemma {:induction false} OthersMembers(self: NodeId, nodes: seq<Node>, a: Address)
    ensures a in Others(self, nodes) <==> exists j :: 0 <= j < |nodes| && nodes[j].id != self && nodes[j].address == a
  {
    if nodes == [] {
    } else {
      var i := |nodes| - 1;
      OthersNext(self, nodes, i);
      assert nodes[..i + 1] == nodes;
      OthersMembers(self, nodes[..i], a);
      if j :| 0 <= j < |nodes| && nodes[j].id != self && nodes[j].address == a {
        assert j < i ==> nodes[..i][j] == nodes[j];
      }
    }
  }

  /** The node at some position up to `at`, other than `self`, has this address. */
  ghost predicate AskedBy(self: NodeId, nodes: seq<Node>, at: nat, a: Address) {
    exists j :: 0 <= j < |nodes| && j <= at && nodes[j].id != self && nodes[j].address == a
  }

  lemma AskedUpTo(self: NodeId, nodes: seq<Node>, at: nat, a: Address)
    requires at <= |nodes|
    ensures a in Others(self, nodes[..if at < |nodes| then at + 1 else at]) <==> AskedBy(self, nodes, at, a)
  {
    var upTo := nodes[..if at < |nodes| then at + 1 else at];
    OthersMembers(self, upTo, a);
    if j :| 0 <= j < |nodes| && j <= at && nodes[j].id != self && nodes[j].address == a {
      assert upTo[j] == nodes[j];
    }
  }

  lemma StopIsFirstToAnswer(q: Query, nodes: seq<Node>)
    requires Ready(q)
    ensures FirstToAnswer(q, nodes, StopAt(Replies(q), nodes))
  {
    StopIsFirst(Replies(q), nodes);
  }

  lemma AnswerAtStop(q: Query, nodes: seq<Node>, at: nat)
    requires Ready(q) && at == StopAt(Replies(q), nodes) && FirstToAnswer(q, nodes, at)
    ensures FirstAnswer(q, nodes) == if at < |nodes| then Answer(q, nodes[at].address) else []
  {
  }

  lemma AskedAre(reply: Node -> seq<Address>, self: NodeId, nodes: seq<Node>, a: Address)
    ensures a in AskedUntil(reply, self, nodes) <==> AskedBy(self, nodes, StopAt(reply, nodes), a)
  {
    AskedUpTo(self, nodes, StopAt(reply, nodes), a);
  }

  /** Asking stops at the first node other than the asker that answers something, and that is the result. */
  lemma AskingStops(q: Query, nodes: seq<Node>, a: Address) returns (at: nat)
    requires Ready(q)
    ensures FirstToAnswer(q, nodes, at)
    ensures FirstAnswer(q, nodes) == if at < |nodes| then Answer(q, nodes[at].address) else []
    ensures a in Asked(q, nodes) <==> AskedBy(q.net[q.me].self.id, nodes, at, a)
  {
    at := StopAt(Replies(q), nodes);
    StopIsFirstToAnswer(q, nodes);
    AnswerAtStop(q, nodes, at);
    AskedAre(Replies(q), q.net[q.me].self.id, nodes, a);
  }

  /** A lookup on one node alone: its own unexpired registrations if it has any; else, if it is online and not
      one of the k holders of what it knows, the nodes to ask; else nothing. */
  lemma LookupTaskCases(c: Config, s: State, task: string, now: int, online: bool)
    requires Valid(c, s)
    ensures var home := Active(c, s, task, now);
            LookupTask(c, s, task, now, online)
            == if home != [] then Local(home)
               else if online && s.self.id !in Holders(Known(s), c.hashTask(task), c.k)
               then Forward(KClosest(c, s, task, c.k)) else Nothing
  {
    AcceptsByRank(c, s, task);
  }

  /** The node has unexpired registrations of its own, or is one of the k holders of what it knows. */
  predicate StaysHome(q: Query)
    requires Ready(q)
  {
    var s := q.net[q.me];
    Active(q.c, s, q.task, q.now) != [] || s.self.id in Holders(Known(s), q.c.hashTask(q.task), q.c.k)
  }

  lemma StaysHomeIff(q: Query)
    requires Ready(q)
    ensures StaysHome(q) <==> Active(q.c, q.net[q.me], q.task, q.now) != [] || InKClosest(q.c, q.net[q.me], q.task)
  {
    AcceptsByRank(q.c, q.net[q.me], q.task);
  }

  /** A lookup looks at home first, responsible or not, and only a node that is not responsible asks. */
  lemma LookupLooksHomeFirst(q: Query)
    requires Ready(q)
    ensures var closest := KClosest(q.c, q.net[q.me], q.task, q.c.k);
            if StaysHome(q) then LookupResult(q) == Active(q.c, q.net[q.me], q.task, q.now) && LookupAsked(q) == []
            else LookupResult(q) == FirstAnswer(q, closest) && LookupAsked(q) == Asked(q, closest)
  {
    LookupCases(q);
    LookupAskedCases(q);
    StaysHomeIff(q);
  }

  /** Exactly the nodes that were asked and reached have learned the asker; nobody's storage changes. */
  lemma AskingTeaches(q: Query, asked: seq<Address>, net: map<Address, State>, a: Address)
    requires Ready(q) && AfterAsking(q, asked, net) && a in net
    ensures net[a].storage == q.net[a].storage
    ensures if a in asked && !q.link(a).Unreachable? then Known(net[a]) == ViewOnReceipt(q.c, q.net[a], q.me)
            else net[a] == q.net[a]
  {
    GreetLearns(q.c, q.net[a], q.me);
  }

  // ---------------------------------------------------------------------------
  // What each event does to a node
  // ---------------------------------------------------------------------------

  /** The peers a node has after an event. */
  lemma StepPeers(c: Config, s: State, e: Event, id: NodeId)
    requires Valid(c, s)
    ensures id in Step(c, s, e).peers
       <==> match e
            case Receive(m, _) =>
              id in s.peers || (m.sender != "" && m.sender != s.self.address && id == c.hashAddr(m.sender))
            case Learned(address) => id in s.peers || id == c.hashAddr(address)
            case PeerDown(address) => id in s.peers && id != c.hashAddr(address)
            case _ => id in s.peers
  {
    match e
    case Receive(m, now) => HandleFrame(c, s, m, now);
    case _ =>
  }

  /** The entries are the old ones with this registration in place of the address's old one. */
  predicate AfterStoring(entries: seq<Registration>, address: Address, now: int, r: Registration) {
    r == Registration(address, now) || (r in entries && r.address != address)
  }

  /** The registrations a node has for a task after an event. */
  lemma StepEntries(c: Config, s: State, e: Event, task: string, r: Registration)
    requires Valid(c, s) && OncePerAddress(Entries(s, task))
    ensures var entries := Entries(s, task);
            r in Entries(Step(c, s, e), task)
            <==> match e
                 case Receive(m, now) =>
                   if m.StoreRequest? && m.task == task && Responsible(c, s, m.sender, task)
                   then AfterStoring(entries, m.address, now, r) else r in entries
                 case StoredHere(t, address, now) =>
                   if t == task then AfterStoring(entries, address, now, r) else r in entries
                 case Expiry(now) => r in entries && (c.timeout <= 0 || now < r.heartbeat + c.timeout)
                 case StaleSweep => r in entries && s.self.id in Holders(Known(s), c.hashTask(task), c.k)
                 case _ => r in entries
  {
    match e
    case Receive(m, now) => ReceiveEntries(c, s, m, now, task, r);
    case StoredHere(t, address, now) =>
      StoreTaskFrame(s, t, address, now, task);
      if t == task { RefreshMembers(Entries(s, task), address, now); }
    case Expiry(now) => ExpirySweepRemoves(c, s, now, task, r);
    case StaleSweep => StaleSweepKeepsHeld(c, s, task);
    case _ =>
  }

  lemma ReceiveEntries(c: Config, s: State, m: Message, now: int, task: string, r: Registration)
    requires Valid(c, s) && OncePerAddress(Entries(s, task))
    ensures r in Entries(Handle(c, s, m, now).state, task)
       <==> if m.StoreRequest? && m.task == task && Responsible(c, s, m.sender, task)
            then AfterStoring(Entries(s, task), m.address, now, r) else r in Entries(s, task)
  {
    if m.StoreRequest? {
      StoreOutcome(c, s, m.sender, m.task, m.address, now, task);
      if m.task == task && Responsible(c, s, m.sender, task) {
        StoreReplaces(c, s, m.sender, task, m.address, now, r);
      }
    } else {
      HandleFrame(c, s, m, now);
      GreetLearns(c, s, m.sender);
    }
  }
}
