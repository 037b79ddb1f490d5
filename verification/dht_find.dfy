/** Looking a task up, and its agreement with Store. */
module DhtFind {
  import opened Ring
  import opened DhtNode
  import opened DhtProtocol
  import opened DhtStore
  import opened DhtPlacement

  /** One call of Find by the node at `me`. */
  datatype Query = Query(
    c: Config,
    net: map<Address, State>,
    me: Address,
    task: string,
    now: int,
    link: Address -> Delivery)

  ghost predicate Ready(q: Query) {
    && q.me in q.net
    && forall a :: a in q.net ==> Valid(q.c, q.net[a]) && q.net[a].self.address == a
  }

  /** The addresses the node at `a` returns to a FIND, none if it does not answer. */
  function Answer(q: Query, a: Address): seq<Address>
    requires Ready(q)
  {
    if a in q.net && q.link(a).Answered? then
      match Handle(q.c, q.net[a], FindRequest(q.me, q.task), q.now).reply
      case Found(addresses) => addresses
      case _ => []
    else []
  }

  /** What each node contributes; the asker skips itself. */
  function Replies(q: Query): Node -> seq<Address>
    requires Ready(q)
  {
    (n: Node) => if n.id == q.net[q.me].self.id then [] else Answer(q, n.address)
  }

  /** The position of the first non-empty reply, or the number of nodes. */
  function StopAt(reply: Node -> seq<Address>, nodes: seq<Node>): (at: nat)
    ensures at <= |nodes|
  {
    if nodes == [] || reply(nodes[0]) != [] then 0 else 1 + StopAt(reply, nodes[1..])
  }

  lemma {:induction false} StopsAt(reply: Node -> seq<Address>, nodes: seq<Node>, i: nat)
    requires i <= |nodes| && forall j :: 0 <= j < i ==> reply(nodes[j]) == []
    requires i < |nodes| ==> reply(nodes[i]) != []
    ensures StopAt(reply, nodes) == i
  {
    if i == 0 {
    } else {
      StopsAt(reply, nodes[1..], i - 1);
    }
  }

  lemma {:induction false} StopsBy(reply: Node -> seq<Address>, nodes: seq<Node>, i: nat)
    requires i < |nodes| && reply(nodes[i]) != []
    ensures StopAt(reply, nodes) < |nodes| && reply(nodes[StopAt(reply, nodes)]) != []
  {
    if i == 0 || reply(nodes[0]) != [] {
    } else {
      StopsBy(reply, nodes[1..], i - 1);
    }
  }

  /** The first non-empty reply. */
  function FirstReply(reply: Node -> seq<Address>, nodes: seq<Node>): seq<Address> {
    var at := StopAt(reply, nodes);
    if at < |nodes| then reply(nodes[at]) else []
  }

  /** The addresses of the nodes other than the asker. */
  function Others(self: NodeId, nodes: seq<Node>): seq<Address> {
    if nodes == [] then []
    else
      var last := nodes[|nodes| - 1];
      Others(self, nodes[..|nodes| - 1]) + if last.id == self then [] else [last.address]
  }

  lemma OthersNext(self: NodeId, nodes: seq<Node>, i: nat)
    requires i < |nodes|
    ensures Others(self, nodes[..i + 1])
         == if nodes[i].id == self then Others(self, nodes[..i]) else Others(self, nodes[..i]) + [nodes[i].address]
  {
    assert nodes[..i + 1][..i] == nodes[..i];
    assert Others(self, nodes[..i]) + [] == Others(self, nodes[..i]);
  }

  /** Those that are asked on the way to the first non-empty reply. */
  function AskedUntil(reply: Node -> seq<Address>, self: NodeId, nodes: seq<Node>): seq<Address> {
    var at := StopAt(reply, nodes);
    Others(self, nodes[..if at < |nodes| then at + 1 else at])
  }

  /** The first i nodes return nothing. */
  ghost predicate SilentUntil(reply: Node -> seq<Address>, nodes: seq<Node>, i: nat) {
    i <= |nodes| && forall j :: 0 <= j < i ==> reply(nodes[j]) == []
  }

  lemma StopsWith(reply: Node -> seq<Address>, self: NodeId, nodes: seq<Node>, i: nat)
    requires i < |nodes| && reply(nodes[i]) != []
    requires SilentUntil(reply, nodes, i)
    ensures FirstReply(reply, nodes) == reply(nodes[i])
    ensures AskedUntil(reply, self, nodes) == Others(self, nodes[..i + 1])
  {
    StopsAt(reply, nodes, i);
  }

  lemma NeverStops(reply: Node -> seq<Address>, self: NodeId, nodes: seq<Node>)
    requires SilentUntil(reply, nodes, |nodes|)
    ensures FirstReply(reply, nodes) == []
    ensures AskedUntil(reply, self, nodes) == Others(self, nodes[..|nodes|])
  {
    StopsAt(reply, nodes, |nodes|);
  }

  /** Asks the nodes in order, skipping self, until one returns something. */
  function FirstAnswer(q: Query, nodes: seq<Node>): seq<Address>
    requires Ready(q)
  {
    FirstReply(Replies(q), nodes)
  }

  function Asked(q: Query, nodes: seq<Node>): seq<Address>
    requires Ready(q)
  {
    AskedUntil(Replies(q), q.net[q.me].self.id, nodes)
  }

  /** What asking does to the nodes: those the question reached have learned the asker. */
  ghost predicate AfterAsking(q: Query, asked: seq<Address>, net: map<Address, State>) {
    net.Keys == q.net.Keys && forall a :: a in net ==> net[a] == StateAfter(q, asked, a)
  }

  function StateAfter(q: Query, asked: seq<Address>, a: Address): State
    requires a in q.net
  {
    if a in asked && !q.link(a).Unreachable? then Greet(q.c, q.net[a], q.me) else q.net[a]
  }

  /** The node finds itself among the k closest and has unexpired registrations of its own. */
  predicate FoundLocally(q: Query)
    requires Ready(q)
  {
    InKClosest(q.c, q.net[q.me], q.task) && Active(q.c, q.net[q.me], q.task, q.now) != []
  }

  /** What Find returns. */
  function FindResult(q: Query): seq<Address>
    requires Ready(q)
  {
    if FoundLocally(q) then Active(q.c, q.net[q.me], q.task, q.now)
    else FirstAnswer(q, KClosest(q.c, q.net[q.me], q.task, q.c.k))
  }

  /** Whom Find asks. */
  function FindAsked(q: Query): seq<Address>
    requires Ready(q)
  {
    if FoundLocally(q) then [] else Asked(q, KClosest(q.c, q.net[q.me], q.task, q.c.k))
  }

  /** What a lookup on the node returns when the network answers the forwarded questions. */
  function LookupResult(q: Query): seq<Address>
    requires Ready(q)
  {
    match LookupTask(q.c, q.net[q.me], q.task, q.now, true)
    case Local(addresses) => addresses
    case Forward(to) => FirstAnswer(q, to)
    case Nothing => []
  }

  /** Whom a lookup on the node asks. */
  function LookupAsked(q: Query): seq<Address>
    requires Ready(q)
  {
    match LookupTask(q.c, q.net[q.me], q.task, q.now, true)
    case Forward(to) => Asked(q, to)
    case _ => []
  }

  /** Scans the closest nodes for self. */
  method Lists(closest: seq<Node>, id: NodeId) returns (listed: bool)
    ensures listed <==> exists i :: 0 <= i < |closest| && closest[i].id == id
  {
    for i := 0 to |closest|
      invariant forall j :: 0 <= j < i ==> closest[j].id != id
    {
      if closest[i].id == id { return true; }
    }
    return false;
  }

  /** The nodes that a FIND reaches, as the message leaves them. */
  function Hearing(q: Query): (r: map<Address, State>)
    requires Ready(q)
    ensures r.Keys <= q.net.Keys
  {
    map a | a in q.net && !q.link(a).Unreachable? :: Handle(q.c, q.net[a], FindRequest(q.me, q.task), q.now).state
  }

  /** `net` is `before` with the asked nodes that could hear changed. */
  ghost predicate Changed(before: map<Address, State>, hearing: map<Address, State>, asked: seq<Address>,
                          net: map<Address, State>)
  {
    && net.Keys == before.Keys
    && forall a :: a in net ==> net[a] == if a in asked && a in hearing then hearing[a] else before[a]
  }

  lemma ChangedStep(before: map<Address, State>, hearing: map<Address, State>, asked: seq<Address>,
                    net: map<Address, State>, a: Address)
    requires hearing.Keys <= before.Keys && Changed(before, hearing, asked, net)
    ensures Changed(before, hearing, asked + [a], if a in hearing then net[a := hearing[a]] else net)
  {
  }

  lemma NextAsked(self: NodeId, nodes: seq<Node>, i: nat, before: map<Address, State>, hearing: map<Address, State>,
                  net: map<Address, State>)
    requires hearing.Keys <= before.Keys && i < |nodes| && Changed(before, hearing, Others(self, nodes[..i]), net)
    ensures var a, asked := nodes[i].address, Others(self, nodes[..i + 1]);
            if nodes[i].id == self then Changed(before, hearing, asked, net)
            else Changed(before, hearing, asked, if a in hearing then net[a := hearing[a]] else net)
  {
    OthersNext(self, nodes, i);
    ChangedStep(before, hearing, Others(self, nodes[..i]), net, nodes[i].address);
  }

  /** Asks the nodes in order, skipping self, until one returns something. */
  method AskInOrder(reply: Node -> seq<Address>, self: NodeId, hearing: map<Address, State>,
                    before: map<Address, State>, nodes: seq<Node>)
    returns (addresses: seq<Address>, net: map<Address, State>)
    requires hearing.Keys <= before.Keys
    requires forall i :: 0 <= i < |nodes| && nodes[i].id == self ==> reply(nodes[i]) == []
    ensures addresses == FirstReply(reply, nodes)
    ensures Changed(before, hearing, AskedUntil(reply, self, nodes), net)
  {
    net := before;
    for i := 0 to |nodes|
      invariant SilentUntil(reply, nodes, i)
      invariant Changed(before, hearing, Others(self, nodes[..i]), net)
    {
      NextAsked(self, nodes, i, before, hearing, net);
      if nodes[i].id == self { continue; }
      var a := nodes[i].address;
      if a in hearing { net := net[a := hearing[a]]; }
      if reply(nodes[i]) != [] {
        StopsWith(reply, self, nodes, i);
        return reply(nodes[i]), net;
      }
    }
    NeverStops(reply, self, nodes);
    addresses := [];
  }

  lemma ChangedByAsking(q: Query, asked: seq<Address>, net: map<Address, State>)
    requires Ready(q) && Changed(q.net, Hearing(q), asked, net)
    ensures AfterAsking(q, asked, net)
  {
    forall a | a in net ensures net[a] == StateAfter(q, asked, a) {
      HandleFrame(q.c, q.net[a], FindRequest(q.me, q.task), q.now);
    }
  }

  lemma NobodyAsked(q: Query)
    ensures AfterAsking(q, [], q.net)
  {
  }

  /** The FINDs that a node sends to the given nodes, one after the other. */
  method AskAll(q: Query, nodes: seq<Node>) returns (addresses: seq<Address>, net: map<Address, State>)
    requires Ready(q)
    ensures addresses == FirstAnswer(q, nodes)
    ensures AfterAsking(q, Asked(q, nodes), net)
  {
    addresses, net := AskInOrder(Replies(q), q.net[q.me].self.id, Hearing(q), q.net, nodes);
    ChangedByAsking(q, Asked(q, nodes), net);
  }

  /** The node is one of the k holders of what it knows and has unexpired registrations of its own. */
  predicate HasAtHome(q: Query)
    requires Ready(q)
  {
    var s := q.net[q.me];
    s.self.id in Holders(Known(s), q.c.hashTask(q.task), q.c.k) && Active(q.c, s, q.task, q.now) != []
  }

  lemma FoundLocallyIff(q: Query)
    requires Ready(q)
    ensures FoundLocally(q) <==> HasAtHome(q)
  {
    AcceptsByRank(q.c, q.net[q.me], q.task);
  }

  /** Find looks at home first: a node that is one of the k holders of what it knows and has unexpired
      registrations returns these and asks nobody. Otherwise the k closest are asked, nearest first, up to the
      first that answers. */
  lemma FindLooksHomeFirst(q: Query)
    requires Ready(q)
    ensures var closest := KClosest(q.c, q.net[q.me], q.task, q.c.k);
            if HasAtHome(q) then FindResult(q) == Active(q.c, q.net[q.me], q.task, q.now) && FindAsked(q) == []
            else FindResult(q) == FirstAnswer(q, closest) && FindAsked(q) == Asked(q, closest)
  {
    FoundLocallyIff(q);
  }

  lemma LocalIffHome(q: Query, listed: bool)
    requires Ready(q)
    requires listed <==> exists i :: 0 <= i < |KClosest(q.c, q.net[q.me], q.task, q.c.k)|
                                     && KClosest(q.c, q.net[q.me], q.task, q.c.k)[i].id == q.net[q.me].self.id
    ensures var found := LookupTask(q.c, q.net[q.me], q.task, q.now, true);
            && (listed && found.Local? <==> HasAtHome(q))
            && (found.Local? ==> found.addresses == Active(q.c, q.net[q.me], q.task, q.now))
  {
    ListsSelf(q.c, q.net[q.me], q.task);
    FoundLocallyIff(q);
  }

  /** Looks locally when responsible, then asks the k closest nodes one after the other. */
  method Find(q: Query) returns (addresses: seq<Address>, net: map<Address, State>)
    requires Ready(q)
    ensures addresses == FindResult(q)
    ensures AfterAsking(q, FindAsked(q), net)
    ensures HasAtHome(q) ==> addresses == Active(q.c, q.net[q.me], q.task, q.now) && net == q.net
  {
    var s := q.net[q.me];
    var closest := KClosest(q.c, s, q.task, q.c.k);
    var listed := Lists(closest, s.self.id);
    LocalIffHome(q, listed);
    FindLooksHomeFirst(q);
    if listed {
      var found := LookupTask(q.c, s, q.task, q.now, true);
      if found.Local? {
        NobodyAsked(q);
        return found.addresses, q.net;
      }
    }
    addresses, net := AskAll(q, closest);
  }

  /** Looks locally, responsible or not, and forwards to the k closest nodes only when not responsible. */
  method Lookup(q: Query) returns (addresses: seq<Address>, net: map<Address, State>)
    requires Ready(q)
    ensures addresses == LookupResult(q)
    ensures AfterAsking(q, LookupAsked(q), net)
  {
    var found := LookupTask(q.c, q.net[q.me], q.task, q.now, true);
    if found.Forward? {
      addresses, net := AskAll(q, found.to);
    } else {
      NobodyAsked(q);
      addresses, net := if found.Local? then found.addresses else [], q.net;
    }
  }

  // ---------------------------------------------------------------------------
  // Soundness and completeness of a lookup
  // ---------------------------------------------------------------------------

  lemma FirstAnswerFrom(q: Query, nodes: seq<Node>) returns (a: Address)
    requires Ready(q) && FirstAnswer(q, nodes) != []
    ensures a in q.net && FirstAnswer(q, nodes) == Answer(q, a)
  {
    a := nodes[StopAt(Replies(q), nodes)].address;
  }

  lemma AnswerIsActive(q: Query, a: Address)
    requires Ready(q)
    requires Answer(q, a) != []
    ensures a in q.net && Answer(q, a) == Active(q.c, q.net[a], q.task, q.now)
  {
    FindReplies(q.c, q.net[a], q.me, q.task, q.now);
  }

  /** Whatever a forwarding lookup returns is the list of unexpired registrations of some node. */
  lemma LookupSound(q: Query) returns (a: Address)
    requires Ready(q) && LookupResult(q) != []
    ensures a in q.net && LookupResult(q) == Active(q.c, q.net[a], q.task, q.now)
  {
    match LookupTask(q.c, q.net[q.me], q.task, q.now, true)
    case Local(_) => a := q.me;
    case Forward(to) =>
      a := FirstAnswerFrom(q, to);
      AnswerIsActive(q, a);
  }

  /** Whatever Find returns, in any network, is the list of unexpired registrations that some
      node holds for the task. */
  lemma FindSound(q: Query) returns (a: Address)
    requires Ready(q) && FindResult(q) != []
    ensures a in q.net && FindResult(q) == Active(q.c, q.net[a], q.task, q.now)
  {
    if FoundLocally(q) {
      a := q.me;
    } else {
      a := FirstAnswerFrom(q, KClosest(q.c, q.net[q.me], q.task, q.c.k));
      AnswerIsActive(q, a);
    }
  }

  lemma HolderAnswers(q: Query, nodes: set<Address>, h: Address)
    requires Ready(q) && Population(q.c, q.net, nodes)
    requires h in TrueHolders(q.c, nodes, q.task) && h in q.net && q.link(h).Answered?
    requires Active(q.c, q.net[h], q.task, q.now) != []
    ensures Answer(q, h) != []
  {
    var s1 := Greet(q.c, q.net[h], q.me);
    assert ViewWithin(q.net[q.me], nodes);
    GreetWithin(q.c, q.net[h], nodes, q.me);
    KnownWithin(q.c, s1, nodes);
    TrueHolderAccepts(q.c, s1, q.task, Ids(q.c, nodes));
    FindReplies(q.c, q.net[h], q.me, q.task, q.now);
  }

  lemma ListedHolder(c: Config, s: State, nodes: set<Address>, task: string, h: Address) returns (i: nat)
    requires Valid(c, s) && ViewWithin(s, nodes) && Collisionless(c, nodes) && FullView(c, s, nodes)
    requires s.self.id !in s.peers && s.self.address != h
    requires h in TrueHolders(c, nodes, task)
    ensures i < |KClosest(c, s, task, c.k)|
    ensures KClosest(c, s, task, c.k)[i].address == h && KClosest(c, s, task, c.k)[i].id != s.self.id
  {
    var closest := KClosest(c, s, task, c.k);
    AgreedCandidates(c, s, nodes, task, h);
    i :| 0 <= i < |closest| && NodeAddresses(closest)[i] == h;
    NearestResolvable(s, c.hashTask(task), c.k);
    assert closest[i] == NodeOf(s, NearestIds(s.ring, c.hashTask(task), c.k)[i]);
  }

  lemma FirstReplyFound(reply: Node -> seq<Address>, nodes: seq<Node>, i: nat)
    requires i < |nodes| && reply(nodes[i]) != []
    ensures FirstReply(reply, nodes) != []
  {
    StopsBy(reply, nodes, i);
  }

  lemma SomeAnswer(q: Query, nodes: seq<Node>, i: nat)
    requires Ready(q) && i < |nodes|
    requires nodes[i].id != q.net[q.me].self.id && Answer(q, nodes[i].address) != []
    ensures FirstAnswer(q, nodes) != []
  {
    assert Replies(q)(nodes[i]) != [];
    FirstReplyFound(Replies(q), nodes, i);
  }

  lemma HolderIsAsked(q: Query, nodes: set<Address>, h: Address)
    requires Ready(q) && Agreed(q.c, q.net, nodes)
    requires h in TrueHolders(q.c, nodes, q.task) && h != q.me && q.link(h).Answered?
    requires Active(q.c, q.net[h], q.task, q.now) != []
    ensures FirstAnswer(q, KClosest(q.c, q.net[q.me], q.task, q.c.k)) != []
  {
    assert ViewWithin(q.net[q.me], nodes);
    var i := ListedHolder(q.c, q.net[q.me], nodes, q.task, h);
    HolderAnswers(q, nodes, h);
    SomeAnswer(q, KClosest(q.c, q.net[q.me], q.task, q.c.k), i);
  }

  /** A true holder other than the asker answers and has an unexpired registration. */
  ghost predicate HolderHas(q: Query, nodes: set<Address>, h: Address) {
    && h in TrueHolders(q.c, nodes, q.task) && h != q.me && h in q.net && q.link(h).Answered?
    && Active(q.c, q.net[h], q.task, q.now) != []
  }

  /** On agreed views asking the k closest yields something if and only if such a holder exists. */
  lemma AskingFindsHolder(q: Query, nodes: set<Address>)
    requires Ready(q) && Agreed(q.c, q.net, nodes)
    ensures FirstAnswer(q, KClosest(q.c, q.net[q.me], q.task, q.c.k)) != [] <==> exists h :: HolderHas(q, nodes, h)
  {
    var closest := KClosest(q.c, q.net[q.me], q.task, q.c.k);
    if h :| HolderHas(q, nodes, h) {
      HolderIsAsked(q, nodes, h);
    }
    if FirstAnswer(q, closest) != [] {
      var i := StopAt(Replies(q), closest);
      AnswererIsHolder(q, nodes, i);
    }
  }

  lemma AnswererIsHolder(q: Query, nodes: set<Address>, i: nat)
    requires Ready(q) && Agreed(q.c, q.net, nodes)
    requires i < |KClosest(q.c, q.net[q.me], q.task, q.c.k)|
    requires Replies(q)(KClosest(q.c, q.net[q.me], q.task, q.c.k)[i]) != []
    ensures HolderHas(q, nodes, KClosest(q.c, q.net[q.me], q.task, q.c.k)[i].address)
  {
    var closest := KClosest(q.c, q.net[q.me], q.task, q.c.k);
    var s, a := q.net[q.me], closest[i].address;
    assert ViewWithin(s, nodes) && FullView(q.c, s, nodes);
    assert NodeAddresses(closest)[i] == a;
    AgreedCandidates(q.c, s, nodes, q.task, a);
    AnswerIsActive(q, a);
    NearestResolvable(s, q.c.hashTask(q.task), q.c.k);
    assert closest[i] == NodeOf(s, NearestIds(s.ring, q.c.hashTask(q.task), q.c.k)[i]);
  }

  /** On agreed views Find from any node returns something if and only if some true holder that is the asker
      itself or answers has an unexpired registration. */
  lemma FindServesIff(q: Query, nodes: set<Address>)
    requires Ready(q) && Agreed(q.c, q.net, nodes)
    ensures FindResult(q) != []
       <==> (q.me in TrueHolders(q.c, nodes, q.task) && Active(q.c, q.net[q.me], q.task, q.now) != [])
            || exists h :: HolderHas(q, nodes, h)
  {
    AskingFindsHolder(q, nodes);
    ResponsibleIffHolder(q, nodes);
  }

  /** On agreed views a forwarding lookup returns something if and only if the node has a registration of its
      own, or is no true holder and some true holder that answers has one: a true holder that has nothing
      itself does not ask the others. */
  lemma LookupServesIff(q: Query, nodes: set<Address>)
    requires Ready(q) && Agreed(q.c, q.net, nodes)
    ensures LookupResult(q) != []
       <==> Active(q.c, q.net[q.me], q.task, q.now) != []
            || (q.me !in TrueHolders(q.c, nodes, q.task) && exists h :: HolderHas(q, nodes, h))
  {
    LookupCases(q);
    AskingFindsHolder(q, nodes);
    ResponsibleIffHolder(q, nodes);
  }

  /** Local registrations come first; the others are asked only by a node that is not responsible. */
  lemma LookupCases(q: Query)
    requires Ready(q)
    ensures var local := Active(q.c, q.net[q.me], q.task, q.now);
            LookupResult(q) == if local != [] || InKClosest(q.c, q.net[q.me], q.task) then local
                               else FirstAnswer(q, KClosest(q.c, q.net[q.me], q.task, q.c.k))
  {
  }

  lemma LookupAskedCases(q: Query)
    requires Ready(q)
    ensures var local := Active(q.c, q.net[q.me], q.task, q.now);
            LookupAsked(q) == if local != [] || InKClosest(q.c, q.net[q.me], q.task) then []
                              else Asked(q, KClosest(q.c, q.net[q.me], q.task, q.c.k))
  {
  }

  /** On agreed views a node finds itself responsible if and only if it is a true holder. */
  lemma ResponsibleIffHolder(q: Query, nodes: set<Address>)
    requires Ready(q) && Agreed(q.c, q.net, nodes)
    ensures InKClosest(q.c, q.net[q.me], q.task) <==> q.me in TrueHolders(q.c, nodes, q.task)
  {
    var s := q.net[q.me];
    assert ViewWithin(s, nodes) && FullView(q.c, s, nodes) && s.self.id == q.c.hashAddr(q.me);
    AcceptsByRank(q.c, s, q.task);
  }

  // ---------------------------------------------------------------------------
  // Where Lookup and Find differ
  // ---------------------------------------------------------------------------

  /** A node that knows exactly one other, with any storage. */
  function Acquainted(c: Config, a: Address, b: Address, storage: map<string, seq<Registration>>): State {
    AddPeer(c, NewNode(c, a), b).(storage := storage)
  }

  /** The node agrees with the population and does not list itself. */
  ghost predicate AgreesAs(c: Config, s: State, a: Address, nodes: set<Address>) {
    && Valid(c, s) && s.self.address == a && ViewWithin(s, nodes)
    && FullView(c, s, nodes) && s.self.id !in s.peers
  }

  lemma AcquaintedAgrees(c: Config, a: Address, b: Address, storage: map<string, seq<Registration>>)
    requires c.hashAddr(a) != c.hashAddr(b)
    ensures AgreesAs(c, Acquainted(c, a, b, storage), a, {a, b})
  {
    AddPeerValid(c, NewNode(c, a), b);
    StorageIrrelevant(c, AddPeer(c, NewNode(c, a), b), storage);
    AddPeerKnown(c, NewNode(c, a), b);
    assert Ids(c, {a, b}) == {c.hashAddr(a), c.hashAddr(b)};
  }

  lemma TwoAgree(c: Config, a: Address, sa: State, b: Address, sb: State)
    requires c.hashAddr(a) != c.hashAddr(b)
    requires AgreesAs(c, sa, a, {a, b}) && AgreesAs(c, sb, b, {a, b})
    ensures Agreed(c, map[a := sa, b := sb], {a, b})
  {
    var net, nodes := map[a := sa, b := sb], {a, b};
    assert Collisionless(c, nodes);
    forall x | x in net ensures AgreesAs(c, net[x], x, nodes) {
    }
    assert Population(c, net, nodes);
  }

  /** Two nodes that know each other; the second has a registration for the task. */
  function PairOfNodes(c: Config, a: Address, b: Address, task: string, e: Registration): map<Address, State> {
    map[a := Acquainted(c, a, b, map[]), b := Acquainted(c, b, a, map[task := [e]])]
  }

  lemma PairOfNodesAgreed(c: Config, a: Address, b: Address, task: string, e: Registration)
    requires c.hashAddr(a) != c.hashAddr(b)
    ensures Agreed(c, PairOfNodes(c, a, b, task, e), {a, b})
  {
    var sa, sb := Acquainted(c, a, b, map[]), Acquainted(c, b, a, map[task := [e]]);
    assert AgreesAs(c, sa, a, {a, b}) by { AcquaintedAgrees(c, a, b, map[]); }
    assert AgreesAs(c, sb, b, {a, b}) by {
      assert {a, b} == {b, a};
      AcquaintedAgrees(c, b, a, map[task := [e]]);
    }
    TwoAgree(c, a, sa, b, sb);
  }

  lemma PairAreHolders(c: Config, a: Address, b: Address, task: string, h: Address)
    requires c.k >= 2 && c.hashAddr(a) != c.hashAddr(b) && h in {a, b}
    ensures h in TrueHolders(c, {a, b}, task)
  {
    var ids, t := Ids(c, {a, b}), c.hashTask(task);
    assert ids == {c.hashAddr(a), c.hashAddr(b)};
    SubsetCard(Closer(ids, t, c.hashAddr(h)), ids - {c.hashAddr(h)});
  }

  lemma PairStores(c: Config, a: Address, b: Address, task: string, e: Registration, now: int)
    requires a != b && !Expired(c.timeout, e, now)
    ensures var net := PairOfNodes(c, a, b, task, e);
            Active(c, net[a], task, now) == [] && e.address in Active(c, net[b], task, now)
  {
    var s := Acquainted(c, b, a, map[task := [e]]);
    assert e in Entries(s, task);
    ActiveIff(c, s, task, now, e.address);
  }

  /** The difference at its smallest: two nodes, both responsible, and the one without the registration is
      asked. Its lookup returns nothing, while its Find returns what the other node, which answers, has. */
  lemma ResponsibleDoesNotAsk(c: Config, a: Address, b: Address, task: string, e: Registration, now: int,
                              link: Address -> Delivery)
    requires c.k >= 2 && c.hashAddr(a) != c.hashAddr(b) && link(b).Answered? && !Expired(c.timeout, e, now)
    ensures var q := Query(c, PairOfNodes(c, a, b, task, e), a, task, now, link);
            && Ready(q) && Agreed(c, q.net, {a, b}) && q.me in TrueHolders(c, {a, b}, task)
            && LookupResult(q) == [] && FindResult(q) != []
  {
    var q := Query(c, PairOfNodes(c, a, b, task, e), a, task, now, link);
    PairOfNodesAgreed(c, a, b, task, e);
    PairAreHolders(c, a, b, task, a);
    PairAreHolders(c, a, b, task, b);
    PairStores(c, a, b, task, e, now);
    HolderLeftOut(q, {a, b}, b);
  }

  /** What the difference takes: a true holder without a registration, and another that answers and has one. */
  lemma HolderLeftOut(q: Query, nodes: set<Address>, h: Address)
    requires Ready(q) && Agreed(q.c, q.net, nodes)
    requires q.me in TrueHolders(q.c, nodes, q.task) && Active(q.c, q.net[q.me], q.task, q.now) == []
    requires HolderHas(q, nodes, h)
    ensures LookupResult(q) == [] && FindResult(q) != []
  {
    LookupServesIff(q, nodes);
    FindServesIff(q, nodes);
  }

  // ---------------------------------------------------------------------------
  // What asking leaves behind
  // ---------------------------------------------------------------------------

  /** Find leaves every node valid and knowing only members. */
  lemma FindKeepsPopulation(q: Query, nodes: set<Address>, net: map<Address, State>)
    requires Ready(q) && Population(q.c, q.net, nodes) && AfterAsking(q, FindAsked(q), net)
    ensures Population(q.c, net, nodes)
  {
    forall a | a in net ensures Valid(q.c, net[a]) && net[a].self.address == a && ViewWithin(net[a], nodes) {
      assert Valid(q.c, q.net[a]) && ViewWithin(q.net[a], nodes) && ViewWithin(q.net[q.me], nodes);
      GreetWithin(q.c, q.net[a], nodes, q.me);
    }
  }

  /** On agreed views Find changes nothing. */
  lemma FindKeepsAgreed(q: Query, nodes: set<Address>, net: map<Address, State>)
    requires Ready(q) && Agreed(q.c, q.net, nodes) && AfterAsking(q, FindAsked(q), net)
    ensures net == q.net
  {
    forall a | a in net ensures net[a] == q.net[a] {
      assert ViewWithin(q.net[a], nodes) && ViewWithin(q.net[q.me], nodes);
      GreetAgreed(q.c, q.net[a], nodes, q.me);
    }
  }
}
