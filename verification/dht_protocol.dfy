/** The messages between DHT nodes and what one node does with each of them. */
module DhtProtocol {
  import opened Ring
  import opened DhtNode

  datatype Message =
    | Ping(sender: Address)
    | Join(sender: Address)
    | StoreRequest(sender: Address, task: string, address: Address)
    | FindRequest(sender: Address, task: string)
    | Garbled(sender: Address)

  datatype Reply =
    | Pong
    | PeerList(peers: set<Address>)
    | StoreOk
    | NotResponsible(closest: seq<Address>)
    | Found(addresses: seq<Address>)
    | NotFound
    | NoReply

  /** The node after the message, its reply, and the nodes it goes on to query. */
  datatype Outcome = Outcome(state: State, reply: Reply, forwards: seq<Node>)

  /** Every message teaches the receiver its sender. */
  function Greet(c: Config, s: State, sender: Address): State {
    if sender != "" && sender != s.self.address then AddPeer(c, s, sender) else s
  }

  lemma GreetValid(c: Config, s: State, sender: Address)
    requires Valid(c, s)
    ensures Valid(c, Greet(c, s, sender))
    ensures Known(s) <= Known(Greet(c, s, sender)) <= Known(s) + {c.hashAddr(sender)}
    ensures sender != "" && sender != s.self.address ==> c.hashAddr(sender) in Greet(c, s, sender).peers
  {
    AddPeerValid(c, s, sender);
    AddPeerKnown(c, s, sender);
  }

  function NodeAddresses(nodes: seq<Node>): (r: seq<Address>)
    ensures |r| == |nodes|
    ensures forall i :: 0 <= i < |r| ==> r[i] == nodes[i].address
  {
    if nodes == [] then [] else [nodes[0].address] + NodeAddresses(nodes[1..])
  }

  function HandleStore(c: Config, s: State, task: string, address: Address, now: int): Outcome
    requires Valid(c, s)
  {
    if Accepts(c, s, task) then Outcome(StoreTask(s, task, address, now), StoreOk, [])
    else Outcome(s, NotResponsible(NodeAddresses(KClosest(c, s, task, c.k))), [])
  }

  function HandleFind(c: Config, s: State, task: string, now: int): Outcome
    requires Valid(c, s)
  {
    if !Accepts(c, s, task) then Outcome(s, NotFound, [])
    else
      match LookupTask(c, s, task, now, true)
      case Local(addresses) => Outcome(s, Found(addresses), [])
      case Forward(to) => Outcome(s, NotFound, to)
      case Nothing => Outcome(s, NotFound, [])
  }

  function Respond(c: Config, s: State, m: Message, now: int): Outcome
    requires Valid(c, s)
  {
    match m
    case Ping(_) => Outcome(s, Pong, [])
    case Join(_) => Outcome(s, PeerList(set id | id in s.peers :: s.peers[id].address), [])
    case StoreRequest(_, task, address) => HandleStore(c, s, task, address, now)
    case FindRequest(_, task) => HandleFind(c, s, task, now)
    case Garbled(_) => Outcome(s, NoReply, [])
  }

  /** The sender is learned before the message is looked at. */
  function Handle(c: Config, s: State, m: Message, now: int): Outcome
    requires Valid(c, s)
  {
    GreetValid(c, s, m.sender);
    Respond(c, Greet(c, s, m.sender), m, now)
  }

  /** Apart from learning its sender, a message changes only what the node stores, and only a
      STORE the node accepts does. */
  lemma HandleFrame(c: Config, s: State, m: Message, now: int)
    requires Valid(c, s)
    ensures Handle(c, s, m, now).state ==
              if m.StoreRequest? && Accepts(c, Greet(c, s, m.sender), m.task)
              then StoreTask(Greet(c, s, m.sender), m.task, m.address, now)
              else Greet(c, s, m.sender)
  {
  }

  lemma StorageIrrelevant(c: Config, s: State, storage: map<string, seq<Registration>>)
    requires Valid(c, s)
    ensures Valid(c, s.(storage := storage))
  {
  }

  lemma HandleValid(c: Config, s: State, m: Message, now: int)
    requires Valid(c, s)
    ensures Valid(c, Handle(c, s, m, now).state)
    ensures Handle(c, s, m, now).state.self == s.self
    ensures Known(Handle(c, s, m, now).state) == Known(Greet(c, s, m.sender))
  {
    var s1 := Greet(c, s, m.sender);
    var s2 := Handle(c, s, m, now).state;
    HandleFrame(c, s, m, now);
    assert s2 == s1.(storage := s2.storage);
    assert Valid(c, s1) by { GreetValid(c, s, m.sender); }
    assert Valid(c, s2) by { StorageIrrelevant(c, s1, s2.storage); }
  }

  // ---------------------------------------------------------------------------
  // What a message comes to, in terms of what the node knows
  // ---------------------------------------------------------------------------

  /** What the receiver knows once it has the message: its own view and the sender. */
  function ViewOnReceipt(c: Config, s: State, sender: Address): set<NodeId> {
    Known(s) + if sender == "" || sender == s.self.address then {} else {c.hashAddr(sender)}
  }

  /** The receiver is one of the k holders of what it then knows. */
  predicate Responsible(c: Config, s: State, sender: Address, task: string) {
    s.self.id in Holders(ViewOnReceipt(c, s, sender), c.hashTask(task), c.k)
  }

  lemma GreetLearns(c: Config, s: State, sender: Address)
    requires Valid(c, s)
    ensures var s1 := Greet(c, s, sender);
            && Known(s1) == ViewOnReceipt(c, s, sender)
            && s1.self == s.self && s1.storage == s.storage
            && (sender != "" && sender != s.self.address ==> c.hashAddr(sender) in s1.peers)
            && (forall id :: id in s1.peers ==> s1.peers[id] == if id in s.peers then s.peers[id] else Node(id, sender))
            && s.peers.Keys <= s1.peers.Keys <= s.peers.Keys + {c.hashAddr(sender)}
  {
  }

  lemma AcceptsIffResponsible(c: Config, s: State, sender: Address, task: string)
    requires Valid(c, s)
    ensures Accepts(c, Greet(c, s, sender), task) <==> Responsible(c, s, sender, task)
  {
    GreetValid(c, s, sender);
    GreetLearns(c, s, sender);
    AcceptsByRank(c, Greet(c, s, sender), task);
  }

  /** Whatever the message, its receiver has the sender among its peers afterwards, and otherwise exactly the
      peers it had. */
  lemma ReceiverLearnsSender(c: Config, s: State, m: Message, now: int)
    requires Valid(c, s)
    ensures var s' := Handle(c, s, m, now).state;
            && Known(s') == ViewOnReceipt(c, s, m.sender) && s'.self == s.self
            && (m.sender != "" && m.sender != s.self.address ==> c.hashAddr(m.sender) in s'.peers)
            && (forall id :: id in s'.peers ==>
                  s'.peers[id] == if id in s.peers then s.peers[id] else Node(c.hashAddr(m.sender), m.sender))
            && (forall id :: id in s.peers ==> id in s'.peers)
  {
    HandleFrame(c, s, m, now);
    GreetLearns(c, s, m.sender);
  }

  /** The joining node is told every peer of the receiver and nobody else; a ping is answered, and what cannot
      be read is not. */
  lemma JoinAndPingReplies(c: Config, s: State, m: Message, now: int, a: Address)
    requires Valid(c, s) && (m.Join? || m.Ping? || m.Garbled?)
    ensures var r := Handle(c, s, m, now);
            && r.state.storage == s.storage
            && (m.Ping? ==> r.reply == Pong) && (m.Garbled? ==> r.reply == NoReply)
            && (m.Join? ==> r.reply.PeerList?
                            && (a in r.reply.peers
                                <==> c.hashAddr(a) in r.state.peers && r.state.peers[c.hashAddr(a)].address == a))
  {
    GreetLearns(c, s, m.sender);
    GreetValid(c, s, m.sender);
  }

  /** A STORE is acknowledged, and the registration stored, exactly by a node that is one of the k holders of
      what it knows; another node stores nothing and names those holders. */
  lemma StoreOutcome(c: Config, s: State, sender: Address, task: string, address: Address, now: int, other: string)
    requires Valid(c, s)
    ensures var r := Handle(c, s, StoreRequest(sender, task, address), now);
            && (r.reply.StoreOk? <==> Responsible(c, s, sender, task))
            && (r.reply.NotResponsible? <==> !Responsible(c, s, sender, task))
            && (!Responsible(c, s, sender, task) ==> r.state.storage == s.storage)
            && (other != task ==> Entries(r.state, other) == Entries(s, other))
  {
    var g := Greet(c, s, sender);
    assert Valid(c, g) by { GreetValid(c, s, sender); }
    assert g.storage == s.storage by { GreetLearns(c, s, sender); }
    assert Accepts(c, g, task) <==> Responsible(c, s, sender, task) by { AcceptsIffResponsible(c, s, sender, task); }
    HandledStore(c, g, task, address, now, other);
  }

  lemma HandledStore(c: Config, s: State, task: string, address: Address, now: int, other: string)
    requires Valid(c, s)
    ensures var r := HandleStore(c, s, task, address, now);
            && (r.reply.StoreOk? <==> Accepts(c, s, task))
            && (r.reply.NotResponsible? <==> !Accepts(c, s, task))
            && (!Accepts(c, s, task) ==> r.state.storage == s.storage)
            && (other != task ==> Entries(r.state, other) == Entries(s, other))
  {
  }

  /** An acknowledged registration takes the place of the address's old one; the others stay. */
  lemma StoreReplaces(c: Config, s: State, sender: Address, task: string, address: Address, now: int, e: Registration)
    requires Valid(c, s) && Responsible(c, s, sender, task) && OncePerAddress(Entries(s, task))
    ensures e in Entries(Handle(c, s, StoreRequest(sender, task, address), now).state, task)
       <==> e == Registration(address, now) || (e in Entries(s, task) && e.address != address)
  {
    var g := Greet(c, s, sender);
    assert Entries(g, task) == Entries(s, task) by { GreetLearns(c, s, sender); }
    assert Accepts(c, g, task) by { AcceptsIffResponsible(c, s, sender, task); }
    HandleFrame(c, s, StoreRequest(sender, task, address), now);
    RefreshMembers(Entries(s, task), address, now);
  }

  /** The nodes a rejecting receiver names: the addresses of the k holders of what it knows. */
  lemma StoreSuggests(c: Config, s: State, sender: Address, task: string, address: Address, now: int, x: Address)
    requires Valid(c, s) && !Responsible(c, s, sender, task)
    ensures var r := Handle(c, s, StoreRequest(sender, task, address), now).reply;
            && r.NotResponsible?
            && (x in r.closest
                <==> && c.hashAddr(x) in Holders(ViewOnReceipt(c, s, sender), c.hashTask(task), c.k)
                     && (if c.hashAddr(x) in s.peers then s.peers[c.hashAddr(x)].address == x else x == sender))
  {
    var s1 := Greet(c, s, sender);
    GreetValid(c, s, sender);
    GreetLearns(c, s, sender);
    AcceptsIffResponsible(c, s, sender, task);
    SuggestionsAreHolders(c, s1, task, address, now, x);
    AcceptsByRank(c, s1, task);
  }

  /** A FIND is answered with the receiver's unexpired addresses exactly if it is one of the k holders of what
      it knows and has any; it changes no storage. */
  lemma FindOutcome(c: Config, s: State, sender: Address, task: string, now: int)
    requires Valid(c, s)
    ensures var r := Handle(c, s, FindRequest(sender, task), now);
            && r.state.storage == s.storage
            && r.reply == if Responsible(c, s, sender, task) && Active(c, s, task, now) != []
                          then Found(Active(c, s, task, now)) else NotFound
  {
    FindReplies(c, s, sender, task, now);
    GreetLearns(c, s, sender);
    AcceptsIffResponsible(c, s, sender, task);
  }

  /** A FIND that reaches a node never makes that node send FINDs of its own: it looks locally
      only when it is responsible, and forwards only when it is not. */
  lemma FindNeverForwards(c: Config, s: State, m: Message, now: int)
    requires Valid(c, s)
    ensures Handle(c, s, m, now).forwards == []
  {
    GreetValid(c, s, m.sender);
    if m.FindRequest? {
      AcceptsByRank(c, Greet(c, s, m.sender), m.task);
    }
  }

  /** What a node replies to a FIND: its unexpired registrations, if it is responsible and has any. */
  lemma FindReplies(c: Config, s: State, sender: Address, task: string, now: int)
    requires Valid(c, s)
    ensures var s1 := Greet(c, s, sender);
            Handle(c, s, FindRequest(sender, task), now) == Outcome(s1,
              if Accepts(c, s1, task) && Active(c, s1, task, now) != [] then Found(Active(c, s1, task, now))
              else NotFound, [])
  {
    FindNeverForwards(c, s, FindRequest(sender, task), now);
    GreetValid(c, s, sender);
    AcceptsByRank(c, Greet(c, s, sender), task);
  }

  /** Exactly the nodes that reject a STORE suggest others: each suggestion is the address of one
      of the k closest nodes the rejecting node knows, strictly closer than itself, and all of
      those are suggested. */
  lemma SuggestionsAreHolders(c: Config, s: State, task: string, address: Address, now: int, x: Address)
    requires Valid(c, s)
    requires !Accepts(c, s, task)
    ensures x in HandleStore(c, s, task, address, now).reply.closest <==>
              && c.hashAddr(x) in Holders(Known(s), c.hashTask(task), c.k)
              && c.hashAddr(x) in s.peers && s.peers[c.hashAddr(x)].address == x
    ensures c.hashAddr(x) in Holders(Known(s), c.hashTask(task), c.k) ==>
              Distance(c.hashTask(task), c.hashAddr(x)) < Distance(c.hashTask(task), s.self.id)
  {
    var nodes := KClosest(c, s, task, c.k);
    var id := c.hashAddr(x);
    RejectionSuggestsHolders(c, s, task, id);
    AcceptsByRank(c, s, task);
    NearestResolvable(s, c.hashTask(task), c.k);
    if x in NodeAddresses(nodes) {
      var i :| 0 <= i < |nodes| && nodes[i].address == x;
      assert nodes[i] == NodeOf(s, NearestIds(s.ring, c.hashTask(task), c.k)[i]);
      assert nodes[i] == s.peers[id];
    }
    if id in s.peers && s.peers[id].address == x && s.peers[id] in nodes {
      var i :| 0 <= i < |nodes| && nodes[i] == s.peers[id];
      assert NodeAddresses(nodes)[i] == x;
    }
  }
}
