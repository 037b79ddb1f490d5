/** Storing a registration: the sender contacts the k closest nodes it knows and follows the
    suggestions of those that reject, with a work queue. */
module DhtStore {
  import opened Options
  import opened Ring
  import opened DhtNode
  import opened DhtProtocol

  /** The fate of one message: answered, never delivered, or delivered with the reply lost. */
  datatype Delivery = Answered | Unreachable | ReplyLost

  /** One call of Store. `net[a]` is the state of node `a` at the moment it is contacted; because
      no address is contacted twice, this also covers runs in which other traffic changes the
      nodes while the call is under way. */
  datatype Call = Call(
    c: Config,
    net: map<Address, State>,
    me: Address,
    task: string,
    address: Address,
    now: int,
    link: Address -> Delivery)

  /** Every node is valid and is reached under its own address. */
  ghost predicate WellFormed(x: Call) {
    && x.me in x.net
    && forall a :: a in x.net ==> Valid(x.c, x.net[a]) && x.net[a].self.address == a
  }

  function Request(x: Call): Message {
    StoreRequest(x.me, x.task, x.address)
  }

  /** Distance of an address from the task. */
  function Dist(x: Call, a: Address): int {
    Distance(x.c.hashTask(x.task), x.c.hashAddr(a))
  }

  /** The addresses the sender starts with. */
  function Candidates(x: Call): seq<Address>
    requires WellFormed(x)
  {
    NodeAddresses(KClosest(x.c, x.net[x.me], x.task, x.c.k))
  }

  /** What the sender gets back from `a`. */
  function ReplyFrom(x: Call, a: Address): Reply
    requires WellFormed(x)
  {
    if a in x.net && x.link(a).Answered? then Handle(x.c, x.net[a], Request(x), x.now).reply else NoReply
  }

  function Suggestions(x: Call, a: Address): seq<Address>
    requires WellFormed(x)
  {
    if a != x.me && ReplyFrom(x, a).NotResponsible? then ReplyFrom(x, a).closest else []
  }

  /** The sender counts a replica: itself, or a node that acknowledged. */
  predicate Acknowledges(x: Call, a: Address)
    requires WellFormed(x)
  {
    a == x.me || ReplyFrom(x, a).StoreOk?
  }

  /** The sender gets no answer from another node. */
  predicate Quiet(x: Call, a: Address)
    requires WellFormed(x)
  {
    a != x.me && ReplyFrom(x, a).NoReply?
  }

  lemma AnsweredStore(x: Call, a: Address)
    requires WellFormed(x)
    requires a in x.net && x.link(a).Answered?
    ensures Valid(x.c, Greet(x.c, x.net[a], x.me))
    ensures ReplyFrom(x, a) == HandleStore(x.c, Greet(x.c, x.net[a], x.me), x.task, x.address, x.now).reply
  {
    GreetValid(x.c, x.net[a], x.me);
  }

  /** A suggestion is always strictly closer to the task than the node that made it, so the
      sender's "only if closer" filter, which compares with the farthest node tried, keeps it. */
  lemma SuggestionsAreCloser(x: Call, a: Address, y: Address)
    requires WellFormed(x)
    requires y in Suggestions(x, a)
    ensures a in x.net && Dist(x, y) < Dist(x, a)
  {
    AnsweredStore(x, a);
    SuggestionsAreHolders(x.c, Greet(x.c, x.net[a], x.me), x.task, x.address, x.now, y);
  }

  // ---------------------------------------------------------------------------
  // The work queue
  // ---------------------------------------------------------------------------

  ghost predicate Distinct(s: seq<Address>) {
    forall i, j :: 0 <= i < j < |s| ==> s[i] != s[j]
  }

  function Elements(s: seq<Address>): set<Address> {
    set a | a in s
  }

  /** The address is a starting candidate or was suggested by an attempted node. */
  ghost predicate Supported(x: Call, log: seq<Address>, a: Address)
    requires WellFormed(x)
  {
    a in Candidates(x) || exists r :: r in log && a in Suggestions(x, r)
  }

  /** Everything the sender should attempt: all of it is attempted or queued... */
  ghost predicate Covered(x: Call, log: seq<Address>, queue: seq<Address>)
    requires WellFormed(x)
  {
    && (forall a :: a in Candidates(x) ==> a in log || a in queue)
    && (forall r, a :: r in log && a in Suggestions(x, r) ==> a in log || a in queue)
  }

  /** ... and nothing else is. */
  ghost predicate Justified(x: Call, log: seq<Address>, queue: seq<Address>)
    requires WellFormed(x)
  {
    forall a :: a in log || a in queue ==> Supported(x, log, a)
  }

  /** Every address a call could ever contact. */
  ghost function Reachable(x: Call): set<Address>
    requires WellFormed(x)
  {
    Elements(Candidates(x)) + set a, y | a in x.net && y in Suggestions(x, a) :: y
  }

  lemma SupportedReachable(x: Call, log: seq<Address>, a: Address)
    requires WellFormed(x) && Supported(x, log, a)
    ensures a in Reachable(x)
  {
    if a !in Candidates(x) {
      var r :| r in log && a in Suggestions(x, r);
      SuggestionsAreCloser(x, r, a);
    }
  }

  lemma SkipKeeps(x: Call, log: seq<Address>, queue: seq<Address>)
    requires WellFormed(x) && queue != [] && queue[0] in log
    requires Covered(x, log, queue) && Justified(x, log, queue)
    ensures Covered(x, log, queue[1..]) && Justified(x, log, queue[1..])
  {
    assert forall a :: a in queue <==> a == queue[0] || a in queue[1..];
  }

  lemma SupportGrows(x: Call, log: seq<Address>, addr: Address, a: Address)
    requires WellFormed(x) && (Supported(x, log, a) || a in Suggestions(x, addr))
    ensures Supported(x, log + [addr], a)
  {
    if a in Suggestions(x, addr) {
      assert addr in log + [addr];
    } else if a !in Candidates(x) {
      var r :| r in log && a in Suggestions(x, r);
      assert r in log + [addr];
    }
  }

  lemma AttemptJustified(x: Call, log: seq<Address>, queue: seq<Address>, more: seq<Address>)
    requires WellFormed(x) && queue != [] && Justified(x, log, queue)
    requires forall y :: y in more ==> y in Suggestions(x, queue[0])
    ensures Justified(x, log + [queue[0]], queue[1..] + more)
  {
    forall a | a in log + [queue[0]] || a in queue[1..] + more ensures Supported(x, log + [queue[0]], a) {
      assert a in log || a in queue || a in more;
      SupportGrows(x, log, queue[0], a);
    }
  }

  lemma MovesOn(log: seq<Address>, queue: seq<Address>, more: seq<Address>, a: Address)
    requires queue != [] && (a in log || a in queue || a in log + [queue[0]] || a in more)
    ensures a in log + [queue[0]] || a in queue[1..] + more
  {
    if a in queue && a != queue[0] {
      assert a in queue[1..];
    }
  }

  lemma AttemptCovered(x: Call, log: seq<Address>, queue: seq<Address>, more: seq<Address>)
    requires WellFormed(x) && queue != [] && Covered(x, log, queue)
    requires forall y :: y in Suggestions(x, queue[0]) ==> y in log + [queue[0]] || y in more
    ensures Covered(x, log + [queue[0]], queue[1..] + more)
  {
    forall a | a in Candidates(x) ensures a in log + [queue[0]] || a in queue[1..] + more {
      MovesOn(log, queue, more, a);
    }
    forall r, a | r in log + [queue[0]] && a in Suggestions(x, r)
      ensures a in log + [queue[0]] || a in queue[1..] + more
    {
      assert r in log || r == queue[0];
      MovesOn(log, queue, more, a);
    }
  }

  /** Attempting the head of the queue keeps both, as long as its unattempted suggestions are queued. */
  lemma AttemptKeeps(x: Call, log: seq<Address>, queue: seq<Address>, more: seq<Address>)
    requires WellFormed(x) && queue != []
    requires Covered(x, log, queue) && Justified(x, log, queue)
    requires forall y :: y in Suggestions(x, queue[0]) ==> y in log + [queue[0]] || y in more
    requires forall y :: y in more ==> y in Suggestions(x, queue[0])
    ensures Covered(x, log + [queue[0]], queue[1..] + more)
    ensures Justified(x, log + [queue[0]], queue[1..] + more)
  {
    AttemptCovered(x, log, queue, more);
    AttemptJustified(x, log, queue, more);
  }

  // ---------------------------------------------------------------------------
  // The nodes during the call
  // ---------------------------------------------------------------------------

  /** Adding every suggestion of a reply to the sender's own view. */
  function Learn(c: Config, s: State, addresses: seq<Address>): State {
    if addresses == [] then s
    else AddPeer(c, Learn(c, s, addresses[..|addresses| - 1]), addresses[|addresses| - 1])
  }

  lemma {:induction false} LearnValid(c: Config, s: State, addresses: seq<Address>)
    requires Valid(c, s)
    ensures Valid(c, Learn(c, s, addresses))
    ensures Learn(c, s, addresses).self == s.self && Learn(c, s, addresses).storage == s.storage
  {
    if addresses == [] {
    } else {
      var init, last := addresses[..|addresses| - 1], addresses[|addresses| - 1];
      LearnValid(c, s, init);
      AddPeerValid(c, Learn(c, s, init), last);
    }
  }

  lemma {:induction false} LearnTwice(c: Config, s: State, a: seq<Address>, b: seq<Address>)
    ensures Learn(c, Learn(c, s, a), b) == Learn(c, s, a + b)
  {
    if b == [] {
      assert a + b == a;
    } else {
      var init := b[..|b| - 1];
      LearnTwice(c, s, a, init);
      assert (a + b)[..|a + b| - 1] == a + init;
    }
  }

  lemma {:induction false} LearnThenStore(c: Config, s: State, a: seq<Address>, task: string, address: Address,
                                          now: int)
    ensures StoreTask(Learn(c, s, a), task, address, now) == Learn(c, StoreTask(s, task, address, now), a)
    ensures Learn(c, s, a).storage == s.storage
  {
    if a == [] {
    } else {
      LearnThenStore(c, s, a[..|a| - 1], task, address, now);
    }
  }

  /** All suggestions received from the attempted nodes, in order. */
  function Suggested(x: Call, log: seq<Address>): seq<Address>
    requires WellFormed(x)
  {
    if log == [] then [] else Suggested(x, log[..|log| - 1]) + Suggestions(x, log[|log| - 1])
  }

  lemma {:induction false} SuggestedBy(x: Call, log: seq<Address>, a: Address) returns (r: Address)
    requires WellFormed(x)
    requires a in Suggested(x, log)
    ensures r in log && a in Suggestions(x, r)
  {
    var init, last := log[..|log| - 1], log[|log| - 1];
    if a in Suggestions(x, last) {
      r := last;
    } else {
      r := SuggestedBy(x, init, a);
    }
  }

  lemma {:induction false} SuggestedHas(x: Call, log: seq<Address>, r: Address, a: Address)
    requires WellFormed(x)
    requires r in log && a in Suggestions(x, r)
    ensures a in Suggested(x, log)
  {
    var init, last := log[..|log| - 1], log[|log| - 1];
    if r == last {
    } else {
      assert r in init;
      SuggestedHas(x, init, r, a);
    }
  }

  /** Whatever is named becomes a peer. */
  lemma {:induction false} LearnHas(c: Config, s: State, addresses: seq<Address>, a: Address)
    requires a in addresses
    ensures c.hashAddr(a) in Learn(c, s, addresses).peers
  {
    var init, last := addresses[..|addresses| - 1], addresses[|addresses| - 1];
    if a == last {
    } else {
      assert a in init;
      LearnHas(c, s, init, a);
    }
  }

  /** What happened to every node other than the sender. */
  ghost predicate OthersAfter(x: Call, log: seq<Address>, net: map<Address, State>)
    requires WellFormed(x)
  {
    && net.Keys == x.net.Keys
    && forall a :: a in net && a != x.me ==>
         net[a] == if a in log && !x.link(a).Unreachable?
                   then Handle(x.c, x.net[a], Request(x), x.now).state else x.net[a]
  }

  /** The sender afterwards: it has learned every suggestion it received, in order, and stores the
      registration if it attempted itself. */
  ghost predicate SenderAfter(x: Call, log: seq<Address>, mine: State)
    requires WellFormed(x)
  {
    mine == Learn(x.c, if x.me in log then StoreTask(x.net[x.me], x.task, x.address, x.now) else x.net[x.me],
                  Suggested(x, log))
  }

  // ---------------------------------------------------------------------------
  // The result
  // ---------------------------------------------------------------------------

  datatype Result = Stored(replicas: nat) | SendFailed(last: Address) | NoReplica

  /** The attempted addresses that count as replicas, in order. */
  function Replicas(x: Call, log: seq<Address>): seq<Address>
    requires WellFormed(x)
  {
    if log == [] then []
    else
      var last := log[|log| - 1];
      Replicas(x, log[..|log| - 1]) + if Acknowledges(x, last) then [last] else []
  }

  /** The attempted addresses the sender got no answer from, in order. */
  function Silent(x: Call, log: seq<Address>): seq<Address>
    requires WellFormed(x)
  {
    if log == [] then []
    else
      var last := log[|log| - 1];
      Silent(x, log[..|log| - 1]) + if Quiet(x, last) then [last] else []
  }

  /** Success counts the acknowledging replicas; without any, the last send failure is reported. */
  ghost predicate Reports(x: Call, log: seq<Address>, result: Result)
    requires WellFormed(x)
  {
    result == Reported(Replicas(x, log), Silent(x, log))
  }

  function Reported(replicas: seq<Address>, silent: seq<Address>): Result {
    if replicas != [] then Stored(|replicas|)
    else if silent != [] then SendFailed(silent[|silent| - 1])
    else NoReplica
  }

  /** The node answers the sender and is one of the k holders of what it then knows. */
  predicate TakesStore(x: Call, a: Address) {
    a in x.net && x.link(a).Answered? && Responsible(x.c, x.net[a], x.me, x.task)
  }

  /** The sender hears nothing from the node. */
  predicate Unheard(x: Call, a: Address) {
    a != x.me && !(a in x.net && x.link(a).Answered?)
  }

  lemma AcknowledgesIff(x: Call, a: Address)
    requires WellFormed(x)
    ensures Acknowledges(x, a) <==> a == x.me || TakesStore(x, a)
    ensures Quiet(x, a) <==> Unheard(x, a)
  {
    if a in x.net {
      StoreOutcome(x.c, x.net[a], x.me, x.task, x.address, x.now, "");
    }
  }

  lemma StoreReplies(x: Call, a: Address)
    requires WellFormed(x)
    requires a in x.net && x.link(a).Answered?
    ensures ReplyFrom(x, a).StoreOk? || ReplyFrom(x, a).NotResponsible?
    ensures ReplyFrom(x, a).StoreOk? <==> Accepts(x.c, Greet(x.c, x.net[a], x.me), x.task)
  {
  }

  // ---------------------------------------------------------------------------
  // The program
  // ---------------------------------------------------------------------------

  /** The distance of the farthest attempted node, or more than any distance if there is none. */
  method FarthestDistance(c: Config, t: NodeId, attempted: set<Address>) returns (farthest: int)
    ensures forall a :: a in attempted ==> Distance(t, c.hashAddr(a)) <= farthest
    ensures if attempted == {} then farthest == MODULUS
            else exists a :: a in attempted && farthest == Distance(t, c.hashAddr(a))
  {
    farthest := -1;
    var todo := attempted;
    while todo != {}
      invariant todo <= attempted
      invariant forall a :: a in attempted - todo ==> Distance(t, c.hashAddr(a)) <= farthest
      invariant if attempted == todo then farthest == -1
                else exists a :: a in attempted && farthest == Distance(t, c.hashAddr(a))
    {
      var a :| a in todo;
      if farthest == -1 || Distance(t, c.hashAddr(a)) > farthest {
        farthest := Distance(t, c.hashAddr(a));
      }
      todo := todo - {a};
    }
    if farthest == -1 { farthest := MODULUS; }
  }

  /** Adds every suggested node to the view and returns the ones worth queueing. */
  method FollowSuggestions(c: Config, t: NodeId, s: State, attempted: set<Address>, farthest: int,
                           closest: seq<Address>)
    returns (s': State, more: seq<Address>)
    ensures s' == Learn(c, s, closest)
    ensures forall a :: a in more <==> a in closest && a !in attempted && Distance(t, c.hashAddr(a)) < farthest
  {
    s', more := s, [];
    for i := 0 to |closest|
      invariant s' == Learn(c, s, closest[..i])
      invariant forall a :: a in more
                  <==> a in closest[..i] && a !in attempted && Distance(t, c.hashAddr(a)) < farthest
    {
      assert closest[..i + 1] == closest[..i] + [closest[i]];
      assert closest[..i + 1][..i] == closest[..i];
      s' := AddPeer(c, s', closest[i]);
      if closest[i] !in attempted && Distance(t, c.hashAddr(closest[i])) < farthest {
        more := more + [closest[i]];
      }
    }
    assert closest[..|closest|] == closest;
  }

  // ---------------------------------------------------------------------------
  // One attempt
  // ---------------------------------------------------------------------------

  lemma ElementsAppend(s: seq<Address>, a: Address)
    ensures Elements(s + [a]) == Elements(s) + {a}
  {
  }

  lemma SetShrinks<T>(all: set<T>, done: set<T>, x: T)
    requires x in all && x !in done
    ensures |all - (done + {x})| < |all - done|
  {
    SubsetCard(all - (done + {x}), all - done);
  }

  predicate Reached(x: Call, a: Address) {
    a != x.me && a in x.net && !x.link(a).Unreachable?
  }

  lemma OthersStep(x: Call, log: seq<Address>, addr: Address, net: map<Address, State>, net': map<Address, State>)
    requires WellFormed(x) && OthersAfter(x, log, net)
    requires net' == if Reached(x, addr) then net[addr := Handle(x.c, x.net[addr], Request(x), x.now).state] else net
    ensures OthersAfter(x, log + [addr], net')
  {
  }

  lemma SuggestedLast(x: Call, log: seq<Address>)
    requires WellFormed(x) && log != []
    ensures Suggested(x, log) == Suggested(x, log[..|log| - 1]) + Suggestions(x, log[|log| - 1])
  {
  }

  lemma SuggestedAppend(x: Call, log: seq<Address>, a: Address)
    requires WellFormed(x)
    ensures Suggested(x, log + [a]) == Suggested(x, log) + Suggestions(x, a)
  {
    var all := log + [a];
    assert all[..|all| - 1] == log && all[|all| - 1] == a;
    SuggestedLast(x, all);
  }

  lemma SuggestedLocal(x: Call, log: seq<Address>)
    requires WellFormed(x)
    ensures Suggested(x, log + [x.me]) == Suggested(x, log)
  {
    SuggestedAppend(x, log, x.me);
    assert Suggested(x, log) + [] == Suggested(x, log);
  }

  lemma SenderStepLocal(x: Call, log: seq<Address>, mine: State)
    requires WellFormed(x) && SenderAfter(x, log, mine)
    requires x.me !in log
    ensures SenderAfter(x, log + [x.me], StoreTask(mine, x.task, x.address, x.now))
  {
    SuggestedLocal(x, log);
    LearnThenStore(x.c, x.net[x.me], Suggested(x, log), x.task, x.address, x.now);
  }

  lemma SenderStepRemote(x: Call, log: seq<Address>, addr: Address, mine: State)
    requires WellFormed(x) && SenderAfter(x, log, mine)
    requires addr != x.me
    ensures SenderAfter(x, log + [addr], Learn(x.c, mine, Suggestions(x, addr)))
  {
    SuggestedAppend(x, log, addr);
    var base := if x.me in log then StoreTask(x.net[x.me], x.task, x.address, x.now) else x.net[x.me];
    LearnTwice(x.c, base, Suggested(x, log), Suggestions(x, addr));
  }

  lemma ReplicasStep(x: Call, log: seq<Address>, addr: Address)
    requires WellFormed(x)
    ensures |Replicas(x, log + [addr])| == |Replicas(x, log)| + if Acknowledges(x, addr) then 1 else 0
  {
    assert (log + [addr])[..|log|] == log;
  }

  /** `e` is the last attempted address that did not answer, if there is one. */
  ghost predicate LastSilent(x: Call, log: seq<Address>, e: Option<Address>)
    requires WellFormed(x)
  {
    e == LastOf(Silent(x, log))
  }

  function LastOf(s: seq<Address>): Option<Address> {
    if s == [] then None else Some(s[|s| - 1])
  }

  lemma SilentAppend(x: Call, log: seq<Address>, addr: Address)
    requires WellFormed(x)
    ensures Silent(x, log + [addr]) == Silent(x, log) + if Quiet(x, addr) then [addr] else []
  {
    assert (log + [addr])[..|log|] == log;
  }

  lemma SilentStep(x: Call, log: seq<Address>, addr: Address, e: Option<Address>)
    requires WellFormed(x) && LastSilent(x, log, e)
    ensures LastSilent(x, log + [addr], if Quiet(x, addr) then Some(addr) else e)
  {
    SilentAppend(x, log, addr);
    LastOfAppend(Silent(x, log), Quiet(x, addr), addr);
  }

  lemma LastOfAppend(s: seq<Address>, added: bool, a: Address)
    ensures LastOf(s + if added then [a] else []) == if added then Some(a) else LastOf(s)
  {
    assert s + [] == s;
  }

  /** The sender's bookkeeping while the queue is being drained. */
  datatype Progress = Progress(
    queue: seq<Address>,
    attempted: set<Address>,
    log: seq<Address>,
    net: map<Address, State>,
    mine: State,
    successCount: nat,
    lastErr: Option<Address>)

  /** No address twice, everything due is attempted or queued, and nothing else is. */
  ghost predicate Queueing(x: Call, p: Progress)
    requires WellFormed(x)
  {
    && Distinct(p.log) && p.attempted == Elements(p.log)
    && Covered(x, p.log, p.queue) && Justified(x, p.log, p.queue)
  }

  /** The nodes, the replica count and the last error are what the attempts so far make of them. */
  ghost predicate Tallied(x: Call, p: Progress)
    requires WellFormed(x)
  {
    && OthersAfter(x, p.log, p.net) && SenderAfter(x, p.log, p.mine)
    && p.successCount == |Replicas(x, p.log)|
    && LastSilent(x, p.log, p.lastErr)
  }

  ghost predicate Underway(x: Call, p: Progress)
    requires WellFormed(x)
  {
    Queueing(x, p) && Tallied(x, p)
  }

  /** What one attempt must do to the bookkeeping. */
  ghost predicate Attempted(x: Call, p: Progress, p': Progress, more: seq<Address>)
    requires WellFormed(x) && p.queue != []
  {
    var addr := p.queue[0];
    && p'.queue == p.queue[1..] + more
    && p'.attempted == p.attempted + {addr}
    && p'.log == p.log + [addr]
    && p'.net == (if Reached(x, addr)
                  then p.net[addr := Handle(x.c, x.net[addr], Request(x), x.now).state] else p.net)
    && p'.mine == (if addr == x.me then StoreTask(p.mine, x.task, x.address, x.now)
                   else Learn(x.c, p.mine, Suggestions(x, addr)))
    && p'.successCount == p.successCount + (if Acknowledges(x, addr) then 1 else 0)
    && p'.lastErr == (if Quiet(x, addr) then Some(addr) else p.lastErr)
    && (forall y :: y in Suggestions(x, addr) ==> y in p'.attempted || y in more)
    && (forall y :: y in more ==> y in Suggestions(x, addr))
  }

  lemma AttemptedQueueing(x: Call, p: Progress, p': Progress, more: seq<Address>)
    requires WellFormed(x) && Queueing(x, p) && p.queue != []
    requires p.queue[0] !in p.attempted
    requires Attempted(x, p, p', more)
    ensures Queueing(x, p')
  {
    assert p.queue[0] !in p.log;
    ElementsAppend(p.log, p.queue[0]);
    AttemptKeeps(x, p.log, p.queue, more);
  }

  lemma AttemptedTallied(x: Call, p: Progress, p': Progress, more: seq<Address>)
    requires WellFormed(x) && Tallied(x, p) && p.queue != []
    requires p.queue[0] !in p.log
    requires Attempted(x, p, p', more)
    ensures Tallied(x, p')
  {
    var addr := p.queue[0];
    assert OthersAfter(x, p'.log, p'.net) by { OthersStep(x, p.log, addr, p.net, p'.net); }
    assert SenderAfter(x, p'.log, p'.mine) by {
      if addr == x.me { SenderStepLocal(x, p.log, p.mine); } else { SenderStepRemote(x, p.log, addr, p.mine); }
    }
    assert p'.successCount == |Replicas(x, p'.log)| by { ReplicasStep(x, p.log, addr); }
    assert LastSilent(x, p'.log, p'.lastErr) by { SilentStep(x, p.log, addr, p.lastErr); }
  }

  lemma AttemptedUnderway(x: Call, p: Progress, p': Progress, more: seq<Address>)
    requires WellFormed(x) && Underway(x, p) && p.queue != []
    requires p.queue[0] !in p.attempted
    requires Attempted(x, p, p', more)
    ensures Underway(x, p')
  {
    assert p.queue[0] !in p.log;
    AttemptedQueueing(x, p, p', more);
    AttemptedTallied(x, p, p', more);
  }

  /** Every attempt uses up one of the finitely many addresses that can be suggested. */
  lemma AttemptedShrinks(x: Call, p: Progress, p': Progress, more: seq<Address>)
    requires WellFormed(x) && Underway(x, p) && p.queue != []
    requires p.queue[0] !in p.attempted
    requires Attempted(x, p, p', more)
    ensures |Reachable(x) - p'.attempted| < |Reachable(x) - p.attempted|
  {
    SupportedReachable(x, p.log, p.queue[0]);
    SetShrinks(Reachable(x), p.attempted, p.queue[0]);
  }

  /** What the sender does with a rejection. */
  method Redirect(x: Call, addr: Address, mine: State, attempted: set<Address>)
    returns (mine': State, more: seq<Address>)
    requires WellFormed(x) && addr in attempted && addr != x.me && ReplyFrom(x, addr).NotResponsible?
    ensures mine' == Learn(x.c, mine, Suggestions(x, addr))
    ensures forall y :: y in Suggestions(x, addr) ==> y in attempted || y in more
    ensures forall y :: y in more ==> y in Suggestions(x, addr)
  {
    var t := x.c.hashTask(x.task);
    var farthest := FarthestDistance(x.c, t, attempted);
    mine', more := FollowSuggestions(x.c, t, mine, attempted, farthest, ReplyFrom(x, addr).closest);
    forall y | y in Suggestions(x, addr) ensures y in attempted || y in more {
      SuggestionsAreCloser(x, addr, y);
    }
  }

  /** Contacts one address and does what comes back says: `acked` if it counts as a replica,
      `silent` if it did not answer, and the suggestions worth queueing. */
  method Contact(x: Call, addr: Address, mine: State, attempted: set<Address>)
    returns (mine': State, more: seq<Address>, acked: bool, silent: bool)
    requires WellFormed(x) && addr in attempted
    ensures mine' == if addr == x.me then StoreTask(mine, x.task, x.address, x.now)
                     else Learn(x.c, mine, Suggestions(x, addr))
    ensures forall y :: y in Suggestions(x, addr) ==> y in attempted || y in more
    ensures forall y :: y in more ==> y in Suggestions(x, addr)
    ensures acked == Acknowledges(x, addr) && (acked <==> addr == x.me || TakesStore(x, addr))
    ensures silent == Quiet(x, addr) && (silent <==> Unheard(x, addr))
  {
    AcknowledgesIff(x, addr);
    mine', more, acked, silent := mine, [], false, false;
    if addr == x.me {
      mine', acked := StoreTask(mine, x.task, x.address, x.now), true;
    } else if addr !in x.net || !x.link(addr).Answered? {
      silent := true;
    } else {
      StoreReplies(x, addr);
      if ReplyFrom(x, addr).StoreOk? {
        acked := true;
      } else {
        mine', more := Redirect(x, addr, mine, attempted);
      }
    }
  }

  /** Takes the head of the queue, contacts it, and updates the bookkeeping. */
  method Attempt(x: Call, p: Progress) returns (p': Progress, more: seq<Address>)
    requires WellFormed(x) && p.queue != []
    ensures Attempted(x, p, p', more)
  {
    var addr := p.queue[0];
    var attempted := p.attempted + {addr};
    var net := if Reached(x, addr) then p.net[addr := Handle(x.c, x.net[addr], Request(x), x.now).state] else p.net;
    var mine, acked, silent;
    mine, more, acked, silent := Contact(x, addr, p.mine, attempted);
    p' := Progress(p.queue[1..] + more, attempted, p.log + [addr], net, mine,
                   p.successCount + if acked then 1 else 0,
                   if silent then Some(addr) else p.lastErr);
  }

  lemma Begin(x: Call)
    requires WellFormed(x)
    ensures Underway(x, Progress(Candidates(x), {}, [], x.net, x.net[x.me], 0, None))
  {
    assert Suggested(x, []) == [];
  }

  /** Drains the queue; each round either attempts a new address or drops a duplicate. */
  method Drain(x: Call) returns (p: Progress)
    requires WellFormed(x)
    ensures Underway(x, p) && p.queue == []
  {
    p := Progress(Candidates(x), {}, [], x.net, x.net[x.me], 0, None);
    Begin(x);
    while p.queue != []
      invariant Underway(x, p)
      decreases |Reachable(x) - p.attempted|, |p.queue|
    {
      if p.queue[0] in p.attempted {
        SkipKeeps(x, p.log, p.queue);
        p := p.(queue := p.queue[1..]);
      } else {
        var p', more := Attempt(x, p);
        AttemptedUnderway(x, p, p', more);
        AttemptedShrinks(x, p, p', more);
        p := p';
      }
    }
  }

  function Verdict(successCount: nat, lastErr: Option<Address>): Result {
    if successCount > 0 then Stored(successCount)
    else if lastErr.Some? then SendFailed(lastErr.value) else NoReplica
  }

  lemma VerdictReports(replicas: seq<Address>, silent: seq<Address>)
    ensures Verdict(|replicas|, LastOf(silent)) == Reported(replicas, silent)
  {
  }

  lemma OwnEntryIrrelevant(x: Call, log: seq<Address>, net: map<Address, State>, mine: State)
    requires WellFormed(x) && OthersAfter(x, log, net)
    ensures OthersAfter(x, log, net[x.me := mine])
  {
  }

  /** A complete run of Store: `log` lists the attempted addresses in order, none twice;
      everything supported was attempted and nothing else; the result and the nodes are what the
      attempts make of them. */
  ghost predicate StoreRun(x: Call, net: map<Address, State>, result: Result, log: seq<Address>)
    requires WellFormed(x)
  {
    && Distinct(log)
    && Covered(x, log, []) && Justified(x, log, [])
    && Reports(x, log, result)
    && OthersAfter(x, log, net) && SenderAfter(x, log, net[x.me])
  }

  /** The attempted nodes that count. */
  function Takers(x: Call, log: seq<Address>): set<Address> {
    set a | a in log && (a == x.me || TakesStore(x, a))
  }

  /** The members of a sequence with a property, in order. */
  function Those(p: Address -> bool, s: seq<Address>): seq<Address> {
    if s == [] then [] else Those(p, s[..|s| - 1]) + if p(s[|s| - 1]) then [s[|s| - 1]] else []
  }

  function Taking(x: Call): Address -> bool {
    (a: Address) => a == x.me || TakesStore(x, a)
  }

  function Missing(x: Call): Address -> bool {
    (a: Address) => Unheard(x, a)
  }

  /** Who counts as a replica, and who as silent, among the attempted. */
  lemma {:induction false} TallyIs(x: Call, log: seq<Address>)
    requires WellFormed(x)
    ensures Replicas(x, log) == Those(Taking(x), log) && Silent(x, log) == Those(Missing(x), log)
  {
    if log == [] {
    } else {
      TallyIs(x, log[..|log| - 1]);
      AcknowledgesIff(x, log[|log| - 1]);
    }
  }

  function Having(p: Address -> bool, s: seq<Address>): set<Address> {
    set a | a in s && p(a)
  }

  lemma HavingAppend(p: Address -> bool, init: seq<Address>, last: Address)
    ensures Having(p, init + [last]) == Having(p, init) + if p(last) then {last} else {}
  {
  }

  lemma {:induction false} ThoseCount(p: Address -> bool, s: seq<Address>)
    requires Distinct(s)
    ensures |Those(p, s)| == |Having(p, s)|
  {
    if s == [] {
      assert Having(p, s) == {};
    } else {
      var init, last := s[..|s| - 1], s[|s| - 1];
      assert s == init + [last] && last !in init;
      HavingAppend(p, init, last);
      ThoseCount(p, init);
    }
  }

  lemma ReplicasAreTakers(x: Call, log: seq<Address>)
    requires WellFormed(x) && Distinct(log)
    ensures |Replicas(x, log)| == |Takers(x, log)|
  {
    TallyIs(x, log);
    ThoseCount(Taking(x), log);
    assert Takers(x, log) == Having(Taking(x), log);
  }

  /** Store succeeds exactly when it attempted its own node or one that answers and is one of the k holders of
      what it knows, whether that node was a candidate or suggested; it reports how many there were. */
  lemma StoreSucceedsIff(x: Call, net: map<Address, State>, result: Result, log: seq<Address>)
    requires WellFormed(x) && StoreRun(x, net, result, log)
    ensures result.Stored? <==> x.me in log || exists a :: a in log && TakesStore(x, a)
    ensures result.Stored? ==> result.replicas == |Takers(x, log)|
  {
    ReplicasAreTakers(x, log);
    if a :| a in Takers(x, log) {
      assert |Takers(x, log)| > 0;
    } else {
      assert Takers(x, log) == {};
    }
    if x.me in log { assert x.me in Takers(x, log); }
    if a :| a in log && TakesStore(x, a) { assert a in Takers(x, log); }
  }

  /** No node from position i on goes unheard, and the one before does, if there is one. */
  ghost predicate HeardFrom(x: Call, log: seq<Address>, i: nat) {
    && i <= |log| && (i > 0 ==> Unheard(x, log[i - 1]))
    && forall j :: i <= j < |log| ==> !Unheard(x, log[j])
  }

  lemma {:induction false} LastOfThose(x: Call, log: seq<Address>) returns (i: nat)
    ensures HeardFrom(x, log, i)
    ensures LastOf(Those(Missing(x), log)) == if i == 0 then None else Some(log[i - 1])
  {
    if log == [] {
      i := 0;
    } else {
      i := LastOfThose(x, log[..|log| - 1]);
      if Unheard(x, log[|log| - 1]) { i := |log|; }
    }
  }

  /** A Store that fails names the last attempted node it did not hear from, and no node exactly when it heard
      from all. */
  lemma StoreFailureNames(x: Call, net: map<Address, State>, result: Result, log: seq<Address>) returns (i: nat)
    requires WellFormed(x) && StoreRun(x, net, result, log) && !result.Stored?
    ensures HeardFrom(x, log, i)
    ensures result == if i == 0 then NoReplica else SendFailed(log[i - 1])
  {
    i := LastOfThose(x, log);
    TallyIs(x, log);
    FailureIs(Replicas(x, log), Silent(x, log), result);
  }

  lemma FailureIs(replicas: seq<Address>, silent: seq<Address>, result: Result)
    requires result == Reported(replicas, silent) && !result.Stored?
    ensures result == if LastOf(silent).None? then NoReplica else SendFailed(LastOf(silent).value)
  {
  }

  /** Sends the STORE to the closest known nodes and to every closer node suggested on the way. */
  method Store(x: Call) returns (net: map<Address, State>, result: Result, log: seq<Address>)
    requires WellFormed(x)
    ensures StoreRun(x, net, result, log)
    ensures result.Stored? <==> x.me in log || exists a :: a in log && TakesStore(x, a)
    ensures result.Stored? ==> result.replicas == |Takers(x, log)|
  {
    var p := Drain(x);
    VerdictReports(Replicas(x, p.log), Silent(x, p.log));
    OwnEntryIrrelevant(x, p.log, p.net, p.mine);
    log := p.log;
    net := p.net[x.me := p.mine];
    result := Verdict(p.successCount, p.lastErr);
    StoreSucceedsIff(x, net, result, log);
  }
}
