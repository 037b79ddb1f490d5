/** The DHT node as an object: each method works on the node's fields the way the program does and
    is proved to implement the function of the same name in `DhtNode`. */
module DhtObject {
  import opened Sorting
  import opened Ring
  import opened DhtNode
  import opened DhtProtocol

  // ---------------------------------------------------------------------------
  // Lists of (item, distance) sorted by distance
  // ---------------------------------------------------------------------------

  datatype Scored<T> = Scored(item: T, dist: int)

  function ByDist<T>(): Scored<T> -> int {
    (x: Scored<T>) => x.dist
  }

  /** `scored` lists, in the order of `ids`, an item standing for each identifier and its
      distance from `t`. */
  ghost predicate ScoredAs<T>(stands: (T, NodeId) -> bool, t: NodeId, ids: seq<NodeId>, scored: seq<Scored<T>>) {
    && |ids| == |scored|
    && forall i :: 0 <= i < |ids| ==> stands(scored[i].item, ids[i]) && scored[i].dist == Distance(t, ids[i])
  }

  /** A node stands for its identifier when the view resolves the identifier to it. */
  ghost function Resolves(s: State): (Node, NodeId) -> bool {
    (n: Node, id: NodeId) => (id == s.self.id || id in s.peers) && n == NodeOf(s, id)
  }

  ghost function Same(): (NodeId, NodeId) -> bool {
    (a: NodeId, b: NodeId) => a == b
  }

  lemma {:induction false} InsertAgrees<T>(stands: (T, NodeId) -> bool, t: NodeId, id: NodeId, x: Scored<T>,
                                           ids: seq<NodeId>, scored: seq<Scored<T>>)
    requires stands(x.item, id) && x.dist == Distance(t, id)
    requires ScoredAs(stands, t, ids, scored)
    ensures ScoredAs(stands, t, InsertBy(From(t), id, ids), InsertBy(ByDist(), x, scored))
  {
    if ids == [] || x.dist <= scored[0].dist {
    } else {
      InsertAgrees(stands, t, id, x, ids[1..], scored[1..]);
    }
  }

  /** Sorting the list of (node, distance) pairs, the list of (identifier, distance) pairs and the
      ring itself gives the same order, so the copies of this code agree. */
  lemma {:induction false} CopiesAgree<T>(stands: (T, NodeId) -> bool, t: NodeId, ids: seq<NodeId>,
                                          scored: seq<Scored<T>>)
    requires ScoredAs(stands, t, ids, scored)
    ensures ScoredAs(stands, t, SortBy(From(t), ids), SortBy(ByDist(), scored))
  {
    if ids == [] {
    } else {
      CopiesAgree(stands, t, ids[1..], scored[1..]);
      InsertAgrees(stands, t, ids[0], scored[0], SortBy(From(t), ids[1..]), SortBy(ByDist(), scored[1..]));
    }
  }

  /** Distance from a fixed task tells any two identifiers apart, so the order does not depend on
      the sorting algorithm, stable or not. */
  lemma FromDistinguishes(t: NodeId, ids: seq<NodeId>)
    ensures Distinguishes(From(t), ids)
  {
  }

  lemma AnySortAgrees(t: NodeId, ring: seq<NodeId>, sorted: seq<NodeId>)
    requires SortedBy(From(t), sorted) && multiset(sorted) == multiset(ring)
    ensures sorted == SortBy(From(t), ring)
  {
    SortBySorts(From(t), ring);
    FromDistinguishes(t, sorted);
    SortedUnique(From(t), sorted, SortBy(From(t), ring));
  }

  // ---------------------------------------------------------------------------
  // Binary search with wrap-around
  // ---------------------------------------------------------------------------

  lemma SortedHead<T>(key: T -> int, s: seq<T>, x: T)
    requires x in s
    ensures var sorted := SortBy(key, s); sorted != [] && sorted[0] in s && key(sorted[0]) <= key(x)
  {
    var sorted := SortBy(key, s);
    SortBySorts(key, s);
    assert x in multiset(s);
    var j :| 0 <= j < |sorted| && sorted[j] == x;
    assert sorted[0] in multiset(sorted);
  }

  lemma NearestIsFirst(ring: seq<NodeId>, t: NodeId, best: NodeId)
    requires best in ring
    requires forall i :: 0 <= i < |ring| ==> Distance(t, best) <= Distance(t, ring[i])
    ensures NearestIds(ring, t, 1) == [best]
  {
    var sorted := SortBy(From(t), ring);
    assert sorted != [] && sorted[0] in ring && From(t)(sorted[0]) <= From(t)(best) by {
      SortedHead(From(t), ring, best);
    }
    assert sorted[..1] == [sorted[0]];
  }

  /** On a sorted ring the first identifier at or after `t`, wrapping to the start, is the one
      at the smallest clockwise distance. */
  lemma FirstAtOrAfterIsNearest(ring: seq<NodeId>, t: NodeId, at: nat)
    requires SortedBy(Position(), ring)
    requires at <= |ring| && ring != []
    requires forall i :: 0 <= i < at ==> ring[i] < t
    requires forall i :: at <= i < |ring| ==> t <= ring[i]
    ensures NearestIds(ring, t, 1) == [ring[if at < |ring| then at else 0]]
  {
    var best := ring[if at < |ring| then at else 0];
    forall i | 0 <= i < |ring| ensures Distance(t, best) <= Distance(t, ring[i]) {
      if at < i < |ring| { assert Position()(ring[at]) <= Position()(ring[i]); }
      if 0 < i { assert Position()(ring[0]) <= Position()(ring[i]); }
    }
    NearestIsFirst(ring, t, best);
  }

  // ---------------------------------------------------------------------------
  // The loops over the ring, on the values they read
  // ---------------------------------------------------------------------------

  method ScoreNodes(s: State, t: NodeId) returns (scored: seq<Scored<Node>>)
    requires Resolvable(s, s.ring)
    ensures ScoredAs(Resolves(s), t, s.ring, scored)
  {
    scored := [];
    for i := 0 to |s.ring|
      invariant ScoredAs(Resolves(s), t, s.ring[..i], scored)
    {
      var node := if s.ring[i] == s.self.id then s.self else s.peers[s.ring[i]];
      assert node == NodeOf(s, s.ring[i]);
      assert Resolves(s)(node, s.ring[i]);
      assert s.ring[..i + 1] == s.ring[..i] + [s.ring[i]];
      scored := scored + [Scored(node, Distance(t, s.ring[i]))];
    }
    assert s.ring[..|s.ring|] == s.ring;
  }

  method ScoreIds(ring: seq<NodeId>, t: NodeId) returns (scored: seq<Scored<NodeId>>)
    ensures ScoredAs(Same(), t, ring, scored)
  {
    scored := [];
    for i := 0 to |ring|
      invariant ScoredAs(Same(), t, ring[..i], scored)
    {
      scored := scored + [Scored(ring[i], Distance(t, ring[i]))];
    }
    assert ring[..|ring|] == ring;
  }

  lemma RemovedCount<K, V>(m: map<K, V>, gone: set<K>)
    requires gone <= m.Keys
    ensures |m - gone| == |m| - |gone|
  {
    assert (m - gone).Keys == m.Keys - gone;
  }

  /** The items of the first k pairs. */
  method TakeItems<T>(scored: seq<Scored<T>>, k: nat) returns (items: seq<T>)
    ensures |items| == Min(k, |scored|)
    ensures forall j :: 0 <= j < |items| ==> items[j] == scored[j].item
  {
    items := [];
    var i := 0;
    while i < k && i < |scored|
      invariant 0 <= i <= k && i <= |scored| && |items| == i
      invariant forall j :: 0 <= j < i ==> items[j] == scored[j].item
    {
      items := items + [scored[i].item];
      i := i + 1;
    }
  }

  /** Library binary search: the first ring position at or after `t`. */
  method SearchRing(ring: seq<NodeId>, t: NodeId) returns (at: nat)
    requires SortedBy(Position(), ring)
    ensures at <= |ring|
    ensures forall i :: 0 <= i < at ==> ring[i] < t
    ensures forall i :: at <= i < |ring| ==> t <= ring[i]
  {
    var lo, hi := 0, |ring|;
    while lo < hi
      invariant 0 <= lo <= hi <= |ring|
      invariant forall i :: 0 <= i < lo ==> ring[i] < t
      invariant forall i :: hi <= i < |ring| ==> t <= ring[i]
    {
      var mid := (lo + hi) / 2;
      if ring[mid] >= t {
        forall i | mid < i < |ring| ensures t <= ring[i] {
          assert Position()(ring[mid]) <= Position()(ring[i]);
        }
        hi := mid;
      } else {
        forall i | 0 <= i < mid ensures ring[i] < t {
          assert Position()(ring[i]) <= Position()(ring[mid]);
        }
        lo := mid + 1;
      }
    }
    at := lo;
  }

  lemma {:induction false} RefreshFirst(entries: seq<Registration>, i: nat, address: Address, now: int)
    requires i <= |entries|
    requires forall j :: 0 <= j < i ==> entries[j].address != address
    requires i < |entries| ==> entries[i].address == address
    ensures Refresh(entries, address, now)
         == if i < |entries| then entries[i := Registration(address, now)] else entries + [Registration(address, now)]
  {
    if i == 0 {
    } else {
      RefreshFirst(entries[1..], i - 1, address, now);
    }
  }

  method RefreshEntries(entries: seq<Registration>, address: Address, now: int) returns (r: seq<Registration>)
    ensures r == Refresh(entries, address, now)
  {
    for i := 0 to |entries|
      invariant forall j :: 0 <= j < i ==> entries[j].address != address
    {
      if entries[i].address == address {
        RefreshFirst(entries, i, address, now);
        return entries[i := Registration(address, now)];
      }
    }
    RefreshFirst(entries, |entries|, address, now);
    return entries + [Registration(address, now)];
  }

  method ActiveEntries(timeout: int, entries: seq<Registration>, now: int) returns (kept: seq<Registration>)
    ensures kept == Unexpired(timeout, entries, now)
  {
    kept := [];
    for i := 0 to |entries|
      invariant Unexpired(timeout, entries, now) == kept + Unexpired(timeout, entries[i..], now)
    {
      assert entries[i..][0] == entries[i] && entries[i..][1..] == entries[i + 1..];
      if !(timeout > 0 && now - entries[i].heartbeat >= timeout) {
        kept := kept + [entries[i]];
      }
    }
  }

  /** A ring rebuilt from scratch is the ring with the one identifier inserted, or removed. */
  lemma AddThenRebuild(c: Config, s: State, address: Address, ring: seq<NodeId>)
    requires Valid(c, s) && c.hashAddr(address) !in s.peers
    requires IsRing(ring, s.self.id, s.peers[c.hashAddr(address) := Node(c.hashAddr(address), address)].Keys)
    ensures var id := c.hashAddr(address);
            State(s.self, s.peers[id := Node(id, address)], ring, s.storage) == DhtNode.AddPeer(c, s, address)
    ensures Valid(c, DhtNode.AddPeer(c, s, address))
  {
    AddPeerValid(c, s, address);
    var goal := DhtNode.AddPeer(c, s, address);
    RingUnique(ring, goal.ring, s.self.id, goal.peers.Keys);
  }

  lemma RemoveThenRebuild(c: Config, s: State, id: NodeId, ring: seq<NodeId>)
    requires Valid(c, s) && IsRing(ring, s.self.id, (s.peers - {id}).Keys)
    ensures State(s.self, s.peers - {id}, ring, s.storage) == DhtNode.RemovePeer(s, id)
    ensures Valid(c, DhtNode.RemovePeer(s, id))
  {
    var goal := DhtNode.RemovePeer(s, id);
    assert Valid(c, goal) by { RemovePeerValid(c, s, id); }
    assert s.peers - {id} == goal.peers;
    assert ring == goal.ring by { RingUnique(ring, goal.ring, s.self.id, goal.peers.Keys); }
  }

  /** `kept` is what the sweep makes of the tasks in `done`. */
  ghost predicate Swept(timeout: int, now: int, storage: map<string, seq<Registration>>, done: set<string>,
                        kept: map<string, seq<Registration>>)
  {
    && (forall task :: task in kept
          <==> task in storage && task in done && Unexpired(timeout, storage[task], now) != [])
    && (forall task :: task in kept ==> task in storage && kept[task] == Unexpired(timeout, storage[task], now))
  }

  lemma SweptAll(c: Config, s: State, now: int, kept: map<string, seq<Registration>>)
    requires Swept(c.timeout, now, s.storage, s.storage.Keys, kept) && c.timeout > 0
    ensures kept == Expire(c, s, now).storage
  {
  }

  /** How many registrations the tasks have together. */
  ghost function Size(storage: map<string, seq<Registration>>, tasks: set<string>): nat
    requires tasks <= storage.Keys
  {
    if tasks == {} then 0
    else
      var task :| task in tasks;
      |storage[task]| + Size(storage, tasks - {task})
  }

  lemma {:induction false} SizeWithout(storage: map<string, seq<Registration>>, tasks: set<string>, task: string)
    requires tasks <= storage.Keys && task in tasks
    ensures Size(storage, tasks) == |storage[task]| + Size(storage, tasks - {task})
    decreases |tasks|
  {
    var first :| first in tasks && Size(storage, tasks) == |storage[first]| + Size(storage, tasks - {first});
    if first == task {
    } else {
      SizeWithout(storage, tasks - {first}, task);
      SizeWithout(storage, tasks - {task}, first);
      assert tasks - {first} - {task} == tasks - {task} - {first};
    }
  }

  lemma {:induction false} SizeSame(a: map<string, seq<Registration>>, b: map<string, seq<Registration>>,
                                    tasks: set<string>)
    requires tasks <= a.Keys && tasks <= b.Keys && forall task :: task in tasks ==> a[task] == b[task]
    ensures Size(a, tasks) == Size(b, tasks)
    decreases |tasks|
  {
    if tasks == {} {
    } else {
      var task :| task in tasks;
      SizeWithout(a, tasks, task);
      SizeWithout(b, tasks, task);
      SizeSame(a, b, tasks - {task});
    }
  }

  lemma SizeWith(storage: map<string, seq<Registration>>, task: string, entries: seq<Registration>)
    requires task !in storage
    ensures Size(storage[task := entries], storage[task := entries].Keys) == Size(storage, storage.Keys) + |entries|
  {
    var after := storage[task := entries];
    SizeWithout(after, after.Keys, task);
    assert after.Keys - {task} == storage.Keys;
    SizeSame(storage, after, storage.Keys);
  }

  lemma {:induction false} UnexpiredShorter(timeout: int, entries: seq<Registration>, now: int)
    ensures |Unexpired(timeout, entries, now)| <= |entries|
  {
    if entries == [] {
    } else {
      UnexpiredShorter(timeout, entries[1..], now);
    }
  }

  lemma SizeDone(storage: map<string, seq<Registration>>, todo: set<string>, task: string)
    requires todo <= storage.Keys && task in todo
    ensures Size(storage, storage.Keys - (todo - {task})) == Size(storage, storage.Keys - todo) + |storage[task]|
  {
    SizeWithout(storage, storage.Keys - (todo - {task}), task);
    assert storage.Keys - (todo - {task}) - {task} == storage.Keys - todo;
  }

  method SweepExpired(timeout: int, storage: map<string, seq<Registration>>, now: int)
    returns (kept: map<string, seq<Registration>>, removed: nat)
    ensures Swept(timeout, now, storage, storage.Keys, kept)
    ensures removed + Size(kept, kept.Keys) == Size(storage, storage.Keys)
  {
    kept, removed := map[], 0;
    var todo := storage.Keys;
    while todo != {}
      invariant todo <= storage.Keys
      invariant Swept(timeout, now, storage, storage.Keys - todo, kept)
      invariant removed + Size(kept, kept.Keys) == Size(storage, storage.Keys - todo)
    {
      var task :| task in todo;
      var entries := ActiveEntries(timeout, storage[task], now);
      UnexpiredShorter(timeout, storage[task], now);
      SizeDone(storage, todo, task);
      removed := removed + |storage[task]| - |entries|;
      if entries != [] {
        SizeWith(kept, task, entries);
        kept := kept[task := entries];
      }
      todo := todo - {task};
    }
    assert storage.Keys - {} == storage.Keys;
  }

  lemma StaleSoFar(stale: set<string>, todo: set<string>, task: string)
    requires task in todo
    ensures stale - (todo - {task}) == (stale - todo) + if task in stale then {task} else {}
  {
  }

  class Dht {
    const c: Config
    var self: Node
    var peers: map<NodeId, Node>
    var ring: seq<NodeId>
    var storage: map<string, seq<Registration>>

    ghost function View(): State
      reads this
    {
      State(self, peers, ring, storage)
    }

    ghost predicate Ok()
      reads this
    {
      Valid(c, View())
    }

    constructor (c: Config, address: Address)
      ensures this.c == c && Ok() && View() == NewNode(c, address)
    {
      this.c := c;
      self := Node(c.hashAddr(address), address);
      peers := map[];
      ring := [c.hashAddr(address)];
      storage := map[];
    }

    /** Rebuilds the ring from scratch: self, then the peers in no particular order, then a sort. */
    method RebuildRing()
      modifies this`ring
      ensures IsRing(ring, self.id, peers.Keys)
    {
      var ids := [self.id];
      var todo := peers.Keys;
      while todo != {}
        invariant todo <= peers.Keys
        invariant multiset(ids) == multiset{self.id} + multiset(peers.Keys - todo)
      {
        var id :| id in todo;
        assert multiset(peers.Keys - (todo - {id})) == multiset(peers.Keys - todo) + multiset{id};
        ids := ids + [id];
        todo := todo - {id};
      }
      SortBySorts(Position(), ids);
      ring := SortBy(Position(), ids);
    }

    method AddPeer(address: Address)
      requires Ok()
      modifies this`peers, this`ring
      ensures Ok() && View() == DhtNode.AddPeer(c, old(View()), address)
    {
      var id := c.hashAddr(address);
      if id in peers { return; }
      peers := peers[id := Node(id, address)];
      RebuildRing();
      AddThenRebuild(c, old(View()), address, ring);
    }

    method RemovePeer(id: NodeId)
      requires Ok()
      modifies this`peers, this`ring
      ensures Ok() && View() == DhtNode.RemovePeer(old(View()), id)
    {
      ghost var before := View();
      peers := peers - {id};
      RebuildRing();
      assert View() == State(before.self, before.peers - {id}, ring, before.storage);
      RemoveThenRebuild(c, before, id, ring);
    }

    /** Binary search for the first ring entry at or after the task, wrapping around. */
    method FindClosestNode(task: string) returns (n: Node)
      requires Ok()
      ensures [n] == KClosest(c, View(), task, 1)
    {
      var t := c.hashTask(task);
      RingMembers(View(), self.id);
      var at := SearchRing(ring, t);
      FirstAtOrAfterIsNearest(ring, t, at);
      var idx := if at >= |ring| then 0 else at;
      RingMembers(View(), ring[idx]);
      n := if ring[idx] == self.id then self else peers[ring[idx]];
    }

    method FindKClosestNodes(task: string, k: nat) returns (result: seq<Node>)
      requires Ok()
      ensures result == KClosest(c, View(), task, k)
    {
      var t := c.hashTask(task);
      var v := State(self, peers, ring, storage);
      RingResolvable(v);
      var distances := ScoreNodes(v, t);
      result := TakeItems(SortBy(ByDist(), distances), k);
      NearestResolvable(v, t, k);
      CopiesAgree(Resolves(v), t, ring, distances);
      forall j | 0 <= j < |result| ensures result[j] == KClosest(c, v, task, k)[j] {
        assert Resolves(v)(result[j], SortBy(From(t), ring)[j]);
      }
    }

    method AmIInKClosest(task: string, k: nat) returns (mine: bool)
      requires Ok()
      ensures mine <==> |Closer(peers.Keys, c.hashTask(task), self.id)| < k
    {
      SelfAmongNearest(View(), c.hashTask(task), k);
      NearestResolvable(View(), c.hashTask(task), k);
      ghost var ids := NearestIds(ring, c.hashTask(task), k);
      var closest := FindKClosestNodes(task, k);
      for i := 0 to |closest|
        invariant forall j :: 0 <= j < i ==> ids[j] != self.id
      {
        assert closest[i].id == ids[i];
        if closest[i].id == self.id { return true; }
      }
      return false;
    }

    /** The second copy of the same test, on identifiers instead of nodes. */
    method AmIInKClosestLocked(task: string, k: nat) returns (mine: bool)
      requires Ok()
      ensures mine <==> |Closer(peers.Keys, c.hashTask(task), self.id)| < k
    {
      SelfAmongNearest(View(), c.hashTask(task), k);
      var t := c.hashTask(task);
      var scored := ScoreIds(ring, t);
      CopiesAgree(Same(), t, ring, scored);
      var distances := SortBy(ByDist(), scored);
      ghost var ids := NearestIds(ring, t, k);
      var i := 0;
      while i < k && i < |distances|
        invariant 0 <= i <= k && i <= |distances|
        invariant forall j :: 0 <= j < i ==> ids[j] != self.id
      {
        assert Same()(distances[i].item, SortBy(From(t), ring)[i]);
        if distances[i].item == self.id { return true; }
        i := i + 1;
      }
      return false;
    }

    method StoreTask(task: string, address: Address, now: int)
      modifies this`storage
      ensures View() == DhtNode.StoreTask(old(View()), task, address, now)
    {
      var entries := if task in storage then storage[task] else [];
      var refreshed := RefreshEntries(entries, address, now);
      storage := storage[task := refreshed];
    }

    /** The scan of CleanupStaleData: the tasks this node is no longer among the k closest for. */
    method FindStale() returns (gone: set<string>)
      requires Ok()
      ensures gone == Stale(c, View())
    {
      ghost var stale := Stale(c, View());
      gone := {};
      var todo := storage.Keys;
      while todo != {}
        invariant todo <= storage.Keys
        invariant gone == stale - todo
      {
        var task :| task in todo;
        var mine := AmIInKClosestLocked(task, c.k);
        if !mine { gone := gone + {task}; }
        StaleSoFar(stale, todo, task);
        todo := todo - {task};
      }
    }

    method CleanupStaleData() returns (removed: nat)
      requires Ok()
      modifies this`storage
      ensures Ok() && View() == DropStale(c, old(View()))
      ensures removed == |old(storage)| - |storage|
    {
      var gone := FindStale();
      RemovedCount(storage, gone);
      storage := storage - gone;
      removed := |gone|;
    }

    method CleanupExpiredRegistrations(now: int) returns (removed: nat)
      requires Ok()
      modifies this`storage
      ensures Ok() && View() == Expire(c, old(View()), now)
      ensures removed + Size(storage, storage.Keys) == old(Size(storage, storage.Keys))
    {
      if c.timeout <= 0 { return 0; }
      var kept;
      kept, removed := SweepExpired(c.timeout, storage, now);
      SweptAll(c, View(), now, kept);
      storage := kept;
    }

    method LookupTask(task: string, now: int, online: bool) returns (result: Lookup)
      requires Ok()
      ensures result == DhtNode.LookupTask(c, View(), task, now, online)
    {
      var active := ActiveEntries(c.timeout, if task in storage then storage[task] else [], now);
      if active != [] { return Local(Addresses(active)); }
      var mine := AmIInKClosest(task, c.k);
      if !mine && online {
        var closest := FindKClosestNodes(task, c.k);
        return Forward(closest);
      }
      return Nothing;
    }

    /** Processes a message and returns the reply. */
    method HandleMessage(m: Message, now: int) returns (reply: Reply)
      requires Ok()
      modifies this
      ensures Ok()
      ensures View() == Handle(c, old(View()), m, now).state
      ensures reply == Handle(c, old(View()), m, now).reply
      ensures m.sender != "" && m.sender != self.address ==> c.hashAddr(m.sender) in peers
    {
      HandleValid(c, View(), m, now);
      ReceiverLearnsSender(c, View(), m, now);
      if m.sender != "" && m.sender != self.address {
        AddPeer(m.sender);
      }
      reply := Respond(m, now);
    }

    method Respond(m: Message, now: int) returns (reply: Reply)
      requires Ok()
      modifies this`storage
      ensures View() == DhtProtocol.Respond(c, old(View()), m, now).state
      ensures reply == DhtProtocol.Respond(c, old(View()), m, now).reply
    {
      match m
      case Ping(_) => reply := Pong;
      case Join(_) => reply := PeerList(set id | id in peers :: peers[id].address);
      case StoreRequest(_, task, address) => reply := HandleStore(task, address, now);
      case FindRequest(_, task) => reply := HandleFind(task, now);
      case Garbled(_) => reply := NoReply;
    }

    method HandleStore(task: string, address: Address, now: int) returns (reply: Reply)
      requires Ok()
      modifies this`storage
      ensures View() == DhtProtocol.HandleStore(c, old(View()), task, address, now).state
      ensures reply == DhtProtocol.HandleStore(c, old(View()), task, address, now).reply
    {
      if |ring| <= c.k {
        StoreTask(task, address, now);
        return StoreOk;
      }
      var mine := AmIInKClosest(task, c.k);
      if mine {
        StoreTask(task, address, now);
        return StoreOk;
      }
      var closest := FindKClosestNodes(task, c.k);
      return NotResponsible(NodeAddresses(closest));
    }

    method HandleFind(task: string, now: int) returns (reply: Reply)
      requires Ok()
      ensures reply == DhtProtocol.HandleFind(c, View(), task, now).reply
    {
      var mine := AmIInKClosest(task, c.k);
      if |ring| <= c.k || mine {
        var found := LookupTask(task, now, true);
        return if found.Local? then Found(found.addresses) else NotFound;
      }
      return NotFound;
    }
  }
}
