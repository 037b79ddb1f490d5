/** Store and Find agree, with everything that may happen to the nodes in between. */
module DhtAgreement {
  import opened DhtNode
  import opened DhtStore
  import opened DhtPlacement
  import opened DhtFind
  import opened DhtLife

  /** A node that the STORE reached, whether or not its reply came back, still has the registration active
      after any events of its life, until the registration expires. */
  lemma ReplicaStillActive(x: Call, nodes: set<Address>, net: map<Address, State>, result: Result,
                           log: seq<Address>, h: Address, es: seq<Event>, now: int)
    requires WellFormed(x) && Agreed(x.c, x.net, nodes) && StoreRun(x, net, result, log)
    requires h in log && (h == x.me || Reached(x, h))
    requires forall i :: 0 <= i < |es| ==> Among(nodes, es[i]) && Fresh(x.c, x.now, es[i])
    requires !Expired(x.c.timeout, Registration(x.address, x.now), now)
    ensures h in TrueHolders(x.c, nodes, x.task)
    ensures h in net && Valid(x.c, net[h])
    ensures x.address in Active(x.c, Run(x.c, net[h], es), x.task, now)
  {
    AgreedAttempts(x, nodes, net, result, log, h);
    StoreKeepsAgreed(x, nodes, net, result, log);
    assert Valid(x.c, net[h]) && ViewWithin(net[h], nodes) && net[h].self.address == h;
    AttemptedHolderStores(x, nodes, net, result, log, h);
    TrueHolderKeeps(x.c, net[h], es, nodes, x.task, x.address, x.now);
    var s := Run(x.c, net[h], es);
    var e :| e in Entries(s, x.task) && e.address == x.address && e.heartbeat >= x.now;
    ActiveIff(x.c, s, x.task, now, x.address);
  }

  /** Store and Find agree: after a Store on agreed views, and after any messages, joins, failures and
      sweeps that the nodes have seen since, a Find from any node returns a non-empty list of addresses
      registered for the task, provided the views agree at that moment, one node that the STORE reached
      answers, and the registration has not expired. */
  lemma StoreThenFind(x: Call, nodes: set<Address>, net: map<Address, State>, result: Result, log: seq<Address>,
                      h: Address, es: seq<Event>, q: Query)
    requires WellFormed(x) && Agreed(x.c, x.net, nodes) && StoreRun(x, net, result, log)
    requires h in log && (h == x.me || Reached(x, h)) && h in net
    requires forall i :: 0 <= i < |es| ==> Among(nodes, es[i]) && Fresh(x.c, x.now, es[i])
    requires q.c == x.c && q.task == x.task && Ready(q) && Agreed(q.c, q.net, nodes)
    requires h in q.net && Lives(x.c, net[h], es, q.net[h])
    requires h == q.me || q.link(h).Answered?
    requires !Expired(x.c.timeout, Registration(x.address, x.now), q.now)
    ensures FindResult(q) != []
    ensures exists a :: a in q.net && FindResult(q) == Active(q.c, q.net[a], q.task, q.now)
  {
    ReplicaStillActive(x, nodes, net, result, log, h, es, q.now);
    if h != q.me {
      assert HolderHas(q, nodes, h);
    }
    FindServesIff(q, nodes);
    var a := FindSound(q);
  }

  /** A Store that succeeded has reached such a node. */
  lemma SuccessReachesReplica(x: Call, net: map<Address, State>, result: Result, log: seq<Address>)
    returns (h: Address)
    requires WellFormed(x) && StoreRun(x, net, result, log) && result.Stored?
    ensures h in log && (h == x.me || Reached(x, h))
  {
    SucceedsIffAcknowledged(x, net, result, log);
    h :| h in log && Acknowledges(x, h);
  }
}
