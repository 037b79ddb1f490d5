/** The life of one node: everything that can happen to its view and its storage, in any order. */
module DhtLife {
  import opened DhtNode
  import opened DhtProtocol
  import opened DhtPlacement

  datatype Event =
    | Receive(m: Message, now: int)       // a message arrives
    | StoredHere(task: string, address: Address, now: int)  // the node's own Store counts it as a holder
    | Learned(address: Address)           // a peer list or a suggestion names a node
    | PeerDown(address: Address)          // a ping goes unanswered
    | Expiry(now: int)                    // the expired-registration sweep
    | StaleSweep                          // the no-longer-responsible sweep

  function Step(c: Config, s: State, e: Event): State
    requires Valid(c, s)
  {
    match e
    case Receive(m, now) => Handle(c, s, m, now).state
    case StoredHere(task, address, now) => StoreTask(s, task, address, now)
    case Learned(address) => AddPeer(c, s, address)
    case PeerDown(address) => RemovePeer(s, c.hashAddr(address))
    case Expiry(now) => Expire(c, s, now)
    case StaleSweep => DropStale(c, s)
  }

  lemma StepValid(c: Config, s: State, e: Event)
    requires Valid(c, s)
    ensures Valid(c, Step(c, s, e)) && Step(c, s, e).self == s.self
  {
    match e
    case Receive(m, now) => HandleValid(c, s, m, now);
    case StoredHere(task, address, now) => StorageIrrelevant(c, s, StoreTask(s, task, address, now).storage);
    case Learned(address) => AddPeerValid(c, s, address);
    case PeerDown(address) => RemovePeerValid(c, s, c.hashAddr(address));
    case Expiry(now) => StorageIrrelevant(c, s, Expire(c, s, now).storage);
    case StaleSweep => StorageIrrelevant(c, s, DropStale(c, s).storage);
  }

  function Run(c: Config, s: State, es: seq<Event>): State
    requires Valid(c, s)
    decreases |es|
  {
    if es == [] then s
    else
      StepValid(c, s, es[0]);
      Run(c, Step(c, s, es[0]), es[1..])
  }

  /** The events take the node from `s` to `after`. */
  ghost predicate Lives(c: Config, s: State, es: seq<Event>, after: State) {
    Valid(c, s) && after == Run(c, s, es)
  }

  /** Only members of the population talk to the node or are named to it. */
  ghost predicate Among(nodes: set<Address>, e: Event) {
    match e
    case Receive(m, _) => m.sender == "" || m.sender in nodes
    case Learned(address) => address in nodes
    case _ => true
  }

  /** The clock has reached `since`, and a registration refreshed then is not yet expired. */
  ghost predicate Fresh(c: Config, since: int, e: Event) {
    match e
    case Receive(_, now) => now >= since
    case StoredHere(_, _, now) => now >= since
    case Expiry(now) => !(c.timeout > 0 && now - since >= c.timeout)
    case _ => true
  }

  /** The node holds the registration, with a heartbeat no older than `since`. */
  ghost predicate Holds(entries: seq<Registration>, a: Address, since: int) {
    exists e :: e in entries && e.address == a && e.heartbeat >= since
  }

  lemma {:induction false} RefreshKeeps(entries: seq<Registration>, address: Address, now: int, a: Address, since: int)
    requires Holds(entries, a, since) && now >= since
    ensures Holds(Refresh(entries, address, now), a, since)
  {
    var e :| e in entries && e.address == a && e.heartbeat >= since;
    var r := Refresh(entries, address, now);
    if entries[0].address == address {
      assert r[0] == Registration(address, now);
      if e != entries[0] { assert e in entries[1..] && e in r; } else { assert r[0] in r; }
    } else if e == entries[0] {
      assert r[0] == e;
    } else {
      assert e in entries[1..];
      RefreshKeeps(entries[1..], address, now, a, since);
      var f :| f in Refresh(entries[1..], address, now) && f.address == a && f.heartbeat >= since;
      assert f in r;
    }
  }

  lemma ExpiryKeeps(c: Config, s: State, now: int, task: string, a: Address, since: int)
    requires Holds(Entries(s, task), a, since)
    requires Fresh(c, since, Expiry(now))
    ensures Holds(Entries(Expire(c, s, now), task), a, since)
  {
    var e :| e in Entries(s, task) && e.address == a && e.heartbeat >= since;
    UnexpiredMembers(c.timeout, Entries(s, task), now, e);
  }

  lemma ViewStepWithin(c: Config, s: State, e: Event, nodes: set<Address>)
    requires Valid(c, s) && ViewWithin(s, nodes) && Among(nodes, e)
    ensures ViewWithin(Step(c, s, e), nodes)
  {
    match e
    case Receive(m, now) => HandleFrame(c, s, m, now);
    case _ =>
  }

  lemma ReceiveKeeps(c: Config, s: State, m: Message, now: int, task: string, a: Address, since: int)
    requires Valid(c, s) && now >= since
    requires Holds(Entries(s, task), a, since)
    ensures Holds(Entries(Handle(c, s, m, now).state, task), a, since)
  {
    HandleFrame(c, s, m, now);
    assert Entries(Greet(c, s, m.sender), task) == Entries(s, task);
    if m.StoreRequest? && m.task == task {
      RefreshKeeps(Entries(s, task), m.address, now, a, since);
    }
  }

  lemma StepKeeps(c: Config, s: State, e: Event, nodes: set<Address>, task: string, a: Address, since: int)
    requires Valid(c, s) && ViewWithin(s, nodes)
    requires s.self.address in TrueHolders(c, nodes, task)
    requires Holds(Entries(s, task), a, since) && Fresh(c, since, e)
    ensures Holds(Entries(Step(c, s, e), task), a, since)
  {
    match e
    case Receive(m, now) => ReceiveKeeps(c, s, m, now, task, a, since);
    case StoredHere(stored, address, now) =>
      if stored == task { RefreshKeeps(Entries(s, task), address, now, a, since); }
    case Expiry(now) => ExpiryKeeps(c, s, now, task, a, since);
    case StaleSweep =>
      KnownWithin(c, s, nodes);
      TrueHolderAccepts(c, s, task, Ids(c, nodes));
      AcceptsByRank(c, s, task);
      assert task !in Stale(c, s);
    case _ =>
  }

  /** A node that is one of the k closest of the population never drops a registration for the
      task before it expires: not through any messages, joins, failures and sweeps in any order,
      whatever part of the population it knows at each moment. */
  lemma {:induction false} TrueHolderKeeps(c: Config, s: State, es: seq<Event>, nodes: set<Address>, task: string,
                                           a: Address, since: int)
    requires Valid(c, s) && ViewWithin(s, nodes)
    requires forall i :: 0 <= i < |es| ==> Among(nodes, es[i]) && Fresh(c, since, es[i])
    requires s.self.address in TrueHolders(c, nodes, task)
    requires Holds(Entries(s, task), a, since)
    ensures Holds(Entries(Run(c, s, es), task), a, since)
    decreases |es|
  {
    if es == [] {
    } else {
      StepValid(c, s, es[0]);
      ViewStepWithin(c, s, es[0], nodes);
      StepKeeps(c, s, es[0], nodes, task, a, since);
      TrueHolderKeeps(c, Step(c, s, es[0]), es[1..], nodes, task, a, since);
    }
  }

  // ---------------------------------------------------------------------------
  // One entry per address
  // ---------------------------------------------------------------------------

  /** No task lists an address twice. */
  ghost predicate StoredOnce(s: State) {
    forall task :: task in s.storage ==> OncePerAddress(s.storage[task])
  }

  lemma {:induction false} UnexpiredOnce(timeout: int, entries: seq<Registration>, now: int)
    requires OncePerAddress(entries)
    ensures OncePerAddress(Unexpired(timeout, entries, now))
  {
    if entries == [] {
    } else {
      var rest := Unexpired(timeout, entries[1..], now);
      UnexpiredOnce(timeout, entries[1..], now);
      forall j | 0 <= j < |rest| ensures rest[j].address != entries[0].address {
        UnexpiredMembers(timeout, entries[1..], now, rest[j]);
        var i :| 0 <= i < |entries[1..]| && entries[1..][i] == rest[j];
        assert entries[i + 1] == rest[j];
      }
    }
  }

  lemma StoreKeepsOnce(s: State, task: string, address: Address, now: int)
    requires StoredOnce(s)
    ensures StoredOnce(StoreTask(s, task, address, now))
  {
    RefreshMembers(Entries(s, task), address, now);
  }

  lemma StepKeepsOnce(c: Config, s: State, e: Event)
    requires Valid(c, s) && StoredOnce(s)
    ensures StoredOnce(Step(c, s, e))
  {
    match e
    case Receive(m, now) =>
      HandleFrame(c, s, m, now);
      if m.StoreRequest? { StoreKeepsOnce(Greet(c, s, m.sender), m.task, m.address, now); }
    case StoredHere(task, address, now) => StoreKeepsOnce(s, task, address, now);
    case Expiry(now) =>
      forall task | task in s.storage ensures OncePerAddress(Unexpired(c.timeout, s.storage[task], now)) {
        UnexpiredOnce(c.timeout, s.storage[task], now);
      }
    case _ =>
  }

  /** Over the whole life of a node no task ever lists an address twice. */
  lemma {:induction false} RunKeepsOnce(c: Config, s: State, es: seq<Event>)
    requires Valid(c, s) && StoredOnce(s)
    ensures StoredOnce(Run(c, s, es))
    decreases |es|
  {
    if es == [] {
    } else {
      StepValid(c, s, es[0]);
      StepKeepsOnce(c, s, es[0]);
      RunKeepsOnce(c, Step(c, s, es[0]), es[1..]);
    }
  }

  /** In every state a new node can reach, registering leaves exactly one entry for the address, with the
      new heartbeat, and every other entry as it was. */
  lemma RegistersOnce(c: Config, self: Address, es: seq<Event>, task: string, address: Address, now: int,
                      e: Registration)
    ensures var s := Run(c, NewNode(c, self), es);
            && OncePerAddress(Entries(StoreTask(s, task, address, now), task))
            && (e in Entries(StoreTask(s, task, address, now), task)
                <==> e == Registration(address, now) || (e in Entries(s, task) && e.address != address))
  {
    RunKeepsOnce(c, NewNode(c, self), es);
    RefreshMembers(Entries(Run(c, NewNode(c, self), es), task), address, now);
  }
}
