/** One DHT node: its partial view of the ring, the registrations it stores, and the operations
    that change them, each as a function on the node's state, with what placement promises. */
module DhtNode {
  import opened Sorting
  import opened Ring

  type Address = string

  /** Process-wide settings. SHA-256 of a task name and of a canonical address are left
      uninterpreted; `timeout` is the heartbeat timeout. */
  datatype Config = Config(k: nat, timeout: int, hashTask: string -> NodeId, hashAddr: Address -> NodeId)

  datatype Node = Node(id: NodeId, address: Address)

  datatype Registration = Registration(address: Address, heartbeat: int)

  datatype State = State(
    self: Node,
    peers: map<NodeId, Node>,
    ring: seq<NodeId>,
    storage: map<string, seq<Registration>>)

  /** The ring lists self and every peer in increasing order. A node that has been told about its
      own address lists itself twice. */
  ghost predicate IsRing(ring: seq<NodeId>, self: NodeId, peers: set<NodeId>) {
    && SortedBy(Position(), ring)
    && multiset(ring) == multiset{self} + multiset(peers)
  }

  ghost predicate Valid(c: Config, s: State) {
    && s.self.id == c.hashAddr(s.self.address)
    && (forall id :: id in s.peers ==> s.peers[id].id == id && c.hashAddr(s.peers[id].address) == id)
    && IsRing(s.ring, s.self.id, s.peers.Keys)
  }

  /** Every identifier the node knows of, itself included. */
  function Known(s: State): set<NodeId> {
    {s.self.id} + s.peers.Keys
  }

  lemma RingUnique(a: seq<NodeId>, b: seq<NodeId>, self: NodeId, peers: set<NodeId>)
    requires IsRing(a, self, peers) && IsRing(b, self, peers)
    ensures a == b
  {
    SortedUnique(Position(), a, b);
  }

  lemma RingMembers(s: State, id: NodeId)
    requires IsRing(s.ring, s.self.id, s.peers.Keys)
    ensures id in s.ring <==> id in Known(s)
    ensures |s.ring| == 1 + |s.peers|
  {
    assert id in s.ring <==> id in multiset(s.ring);
    assert |multiset(s.ring)| == 1 + |s.peers.Keys|;
  }

  // ---------------------------------------------------------------------------
  // The view: adding and removing peers
  // ---------------------------------------------------------------------------

  function AddPeer(c: Config, s: State, address: Address): State {
    var id := c.hashAddr(address);
    if id in s.peers then s
    else s.(peers := s.peers[id := Node(id, address)], ring := InsertBy(Position(), id, s.ring))
  }

  function RemoveFirst(id: NodeId, ring: seq<NodeId>): seq<NodeId> {
    if ring == [] then []
    else if ring[0] == id then ring[1..]
    else [ring[0]] + RemoveFirst(id, ring[1..])
  }

  lemma {:induction false} RemoveFirstMembers(id: NodeId, ring: seq<NodeId>)
    ensures multiset(RemoveFirst(id, ring)) == multiset(ring) - multiset{id}
  {
    if ring == [] {
    } else {
      Behead(ring);
      if ring[0] != id {
        RemoveFirstMembers(id, ring[1..]);
      }
    }
  }

  lemma {:induction false} RemoveFirstSorted(id: NodeId, ring: seq<NodeId>)
    requires SortedBy(Position(), ring)
    ensures SortedBy(Position(), RemoveFirst(id, ring))
  {
    if ring == [] || ring[0] == id {
    } else {
      RemoveFirstSorted(id, ring[1..]);
      RemoveFirstMembers(id, ring[1..]);
      var rest := RemoveFirst(id, ring[1..]);
      forall i | 0 <= i < |rest| ensures ring[0] <= rest[i] {
        assert rest[i] in multiset(rest) && rest[i] in ring[1..];
        var j :| 0 <= j < |ring[1..]| && ring[1..][j] == rest[i];
        assert Position()(ring[0]) <= Position()(ring[j + 1]);
      }
    }
  }

  function RemovePeer(s: State, id: NodeId): State {
    if id !in s.peers then s
    else s.(peers := s.peers - {id}, ring := RemoveFirst(id, s.ring))
  }

  lemma RingInsert(ring: seq<NodeId>, self: NodeId, peers: set<NodeId>, id: NodeId)
    requires IsRing(ring, self, peers) && id !in peers
    ensures IsRing(InsertBy(Position(), id, ring), self, peers + {id})
  {
    InsertByMembers(Position(), id, ring);
    InsertBySorted(Position(), id, ring);
    assert multiset(peers + {id}) == multiset(peers) + multiset{id};
  }

  lemma RingRemove(ring: seq<NodeId>, self: NodeId, peers: set<NodeId>, id: NodeId)
    requires IsRing(ring, self, peers) && id in peers
    ensures IsRing(RemoveFirst(id, ring), self, peers - {id})
  {
    RemoveFirstMembers(id, ring);
    RemoveFirstSorted(id, ring);
    PeersWithout(multiset(ring), self, peers, id);
  }

  lemma PeersWithout(ring: multiset<NodeId>, self: NodeId, peers: set<NodeId>, id: NodeId)
    requires ring == multiset{self} + multiset(peers) && id in peers
    ensures id in ring && ring - multiset{id} == multiset{self} + multiset(peers - {id})
  {
    assert multiset(peers - {id}) == multiset(peers) - multiset{id};
  }

  lemma AddPeerKnown(c: Config, s: State, address: Address)
    ensures Known(AddPeer(c, s, address)) == Known(s) + {c.hashAddr(address)}
    ensures AddPeer(c, s, address).peers.Keys == s.peers.Keys + {c.hashAddr(address)}
  {
  }

  lemma RingPut(ring: seq<NodeId>, self: NodeId, peers: map<NodeId, Node>, id: NodeId, n: Node)
    requires IsRing(ring, self, peers.Keys) && id !in peers
    ensures IsRing(InsertBy(Position(), id, ring), self, peers[id := n].Keys)
  {
    RingInsert(ring, self, peers.Keys, id);
    assert peers[id := n].Keys == peers.Keys + {id};
  }

  lemma AddPeerValid(c: Config, s: State, address: Address)
    requires Valid(c, s)
    ensures Valid(c, AddPeer(c, s, address))
  {
    var id := c.hashAddr(address);
    if id !in s.peers {
      RingPut(s.ring, s.self.id, s.peers, id, Node(id, address));
    }
  }

  lemma RemovePeerValid(c: Config, s: State, id: NodeId)
    requires Valid(c, s)
    ensures Valid(c, RemovePeer(s, id))
    ensures Known(RemovePeer(s, id)) == Known(s) - ({id} - {s.self.id})
  {
    if id in s.peers {
      RingRemove(s.ring, s.self.id, s.peers.Keys, id);
      assert (s.peers - {id}).Keys == s.peers.Keys - {id};
    }
  }

  // ---------------------------------------------------------------------------
  // The k closest known nodes
  // ---------------------------------------------------------------------------

  /** The identifiers of the ring entries closest to `t`, nearest first. */
  function NearestIds(ring: seq<NodeId>, t: NodeId, k: nat): seq<NodeId> {
    SortBy(From(t), ring)[..Min(k, |ring|)]
  }

  predicate Resolvable(s: State, ids: seq<NodeId>) {
    forall i :: 0 <= i < |ids| ==> ids[i] == s.self.id || ids[i] in s.peers
  }

  function NodeOf(s: State, id: NodeId): Node
    requires id == s.self.id || id in s.peers
  {
    if id == s.self.id then s.self else s.peers[id]
  }

  function NodesOf(s: State, ids: seq<NodeId>): (r: seq<Node>)
    requires Resolvable(s, ids)
    ensures |r| == |ids|
    ensures forall i :: 0 <= i < |ids| ==> r[i] == NodeOf(s, ids[i])
  {
    if ids == [] then [] else [NodeOf(s, ids[0])] + NodesOf(s, ids[1..])
  }

  lemma RingResolvable(s: State)
    requires IsRing(s.ring, s.self.id, s.peers.Keys)
    ensures Resolvable(s, s.ring)
  {
    forall i | 0 <= i < |s.ring| ensures s.ring[i] == s.self.id || s.ring[i] in s.peers {
      assert s.ring[i] in multiset(s.ring);
    }
  }

  lemma NearestResolvable(s: State, t: NodeId, k: nat)
    requires IsRing(s.ring, s.self.id, s.peers.Keys)
    ensures Resolvable(s, NearestIds(s.ring, t, k))
  {
    var sorted := SortBy(From(t), s.ring);
    SortBySorts(From(t), s.ring);
    forall i | 0 <= i < |sorted| ensures sorted[i] == s.self.id || sorted[i] in s.peers {
      assert sorted[i] in multiset(sorted);
    }
  }

  function KClosest(c: Config, s: State, task: string, k: nat): (r: seq<Node>)
    requires Valid(c, s)
  {
    NearestResolvable(s, c.hashTask(task), k);
    NodesOf(s, NearestIds(s.ring, c.hashTask(task), k))
  }

  lemma SortedRing(t: NodeId, ring: seq<NodeId>)
    ensures var sorted := SortBy(From(t), ring);
            && |sorted| == |ring|
            && forall i, j :: 0 <= i < j < |sorted| ==> Distance(t, sorted[i]) <= Distance(t, sorted[j])
  {
    var sorted := SortBy(From(t), ring);
    SortBySorts(From(t), ring);
    assert |multiset(sorted)| == |multiset(ring)|;
    forall i, j | 0 <= i < j < |sorted| ensures Distance(t, sorted[i]) <= Distance(t, sorted[j]) {
      assert From(t)(sorted[i]) <= From(t)(sorted[j]);
    }
  }

  /** The ring entries nearest to the task, nearest first. */
  lemma NearestInOrder(s: State, t: NodeId, k: nat)
    requires IsRing(s.ring, s.self.id, s.peers.Keys)
    ensures |NearestIds(s.ring, t, k)| == Min(k, 1 + |s.peers|)
    ensures forall i, j :: 0 <= i < j < |NearestIds(s.ring, t, k)| ==>
              Distance(t, NearestIds(s.ring, t, k)[i]) <= Distance(t, NearestIds(s.ring, t, k)[j])
  {
    RingMembers(s, s.self.id);
    SortedRing(t, s.ring);
  }

  /** The k closest are as many as asked for or as there are ring entries, nearest first, and each is a node
      the view knows under that identifier. */
  lemma KClosestInOrder(c: Config, s: State, task: string, k: nat)
    requires Valid(c, s)
    ensures var r, t := KClosest(c, s, task, k), c.hashTask(task);
            && |r| == Min(k, 1 + |s.peers|)
            && (forall i, j :: 0 <= i < j < |r| ==> Distance(t, r[i].id) <= Distance(t, r[j].id))
            && (forall i :: 0 <= i < |r| ==> r[i] == s.self || (r[i].id in s.peers && r[i] == s.peers[r[i].id]))
  {
    var t := c.hashTask(task);
    var ids, r := NearestIds(s.ring, t, k), KClosest(c, s, task, k);
    NearestInOrder(s, t, k);
    NearestResolvable(s, t, k);
    assert forall i :: 0 <= i < |r| ==> r[i] == NodeOf(s, ids[i]) && r[i].id == ids[i];
  }

  lemma SplitRing(s: State) returns (others: seq<NodeId>)
    requires IsRing(s.ring, s.self.id, s.peers.Keys)
    ensures multiset(others) == multiset(s.peers.Keys)
    ensures multiset([s.self.id] + others) == multiset(s.ring)
  {
    assert s.self.id in multiset(s.ring);
    var i :| 0 <= i < |s.ring| && s.ring[i] == s.self.id;
    others := s.ring[..i] + s.ring[i + 1..];
    RemoveAt(s.ring, i);
    ConsMultiset(s.self.id, others);
    RingWithoutSelf(multiset(s.ring), s.self.id, s.peers.Keys);
  }

  lemma ConsMultiset<T>(x: T, s: seq<T>)
    ensures multiset([x] + s) == multiset{x} + multiset(s)
  {
  }

  lemma RingWithoutSelf(ring: multiset<NodeId>, self: NodeId, peers: set<NodeId>)
    requires ring == multiset{self} + multiset(peers)
    ensures ring - multiset{self} == multiset(peers) && multiset{self} + (ring - multiset{self}) == ring
  {
  }

  /** How many ring entries beat `x`: the strictly closer peers, and self if it is closer too. */
  lemma RingRank(s: State, t: NodeId, x: NodeId)
    requires IsRing(s.ring, s.self.id, s.peers.Keys)
    ensures CountCloser(s.ring, t, x)
         == |Closer(s.peers.Keys, t, x)| + if Distance(t, s.self.id) < Distance(t, x) then 1 else 0
  {
    var others := SplitRing(s);
    CountCloserOfSet(others, s.peers.Keys, t, x);
    CountCloserPermutation(s.ring, [s.self.id] + others, t, x);
    assert ([s.self.id] + others)[1..] == others;
  }

  lemma NearestByRank(s: State, t: NodeId, k: nat, x: NodeId)
    requires IsRing(s.ring, s.self.id, s.peers.Keys)
    ensures x in NearestIds(s.ring, t, k) <==> x in Known(s) && CountCloser(s.ring, t, x) < k
  {
    var sorted := SortBy(From(t), s.ring);
    SortBySorts(From(t), s.ring);
    TopKByRank(sorted, t, k, x);
    CountCloserPermutation(sorted, s.ring, t, x);
    RingMembers(s, x);
    assert x in sorted <==> x in multiset(sorted);
    assert x in s.ring <==> x in multiset(s.ring);
  }

  /** Self is among its own k closest exactly when fewer than k known peers are strictly closer,
      listed twice or not. */
  lemma SelfAmongNearest(s: State, t: NodeId, k: nat)
    requires IsRing(s.ring, s.self.id, s.peers.Keys)
    ensures s.self.id in NearestIds(s.ring, t, k) <==> |Closer(s.peers.Keys, t, s.self.id)| < k
    ensures Closer(Known(s), t, s.self.id) == Closer(s.peers.Keys, t, s.self.id)
  {
    NearestByRank(s, t, k, s.self.id);
    RingRank(s, t, s.self.id);
  }

  lemma RankInView(s: State, t: NodeId, x: NodeId)
    ensures |Closer(Known(s), t, x)|
         == |Closer(s.peers.Keys, t, x)|
            + if Distance(t, s.self.id) < Distance(t, x) && s.self.id !in s.peers then 1 else 0
  {
    if Distance(t, s.self.id) < Distance(t, x) && s.self.id !in s.peers {
      assert Closer(Known(s), t, x) == Closer(s.peers.Keys, t, x) + {s.self.id};
    } else {
      assert Closer(Known(s), t, x) == Closer(s.peers.Keys, t, x);
    }
  }

  /** The node set that sorting by distance and taking k selects. */
  ghost function NearestSet(s: State, t: NodeId, k: nat): set<NodeId> {
    set x | x in NearestIds(s.ring, t, k)
  }

  /** How many ring entries beat `x`: a node that lists itself as a peer counts twice. */
  function Rank(s: State, t: NodeId, x: NodeId): nat {
    |Closer(s.peers.Keys, t, x)| + if Distance(t, s.self.id) < Distance(t, x) then 1 else 0
  }

  lemma NearestIffRank(s: State, t: NodeId, k: nat, x: NodeId)
    requires IsRing(s.ring, s.self.id, s.peers.Keys)
    ensures x in NearestSet(s, t, k) <==> x in Known(s) && Rank(s, t, x) < k
  {
    NearestByRank(s, t, k, x);
    RingRank(s, t, x);
  }

  lemma RankOfView(s: State, t: NodeId, x: NodeId)
    ensures Rank(s, t, x)
         == |Closer(Known(s), t, x)|
            + if s.self.id in s.peers && Distance(t, s.self.id) < Distance(t, x) then 1 else 0
  {
    RankInView(s, t, x);
  }

  // ---------------------------------------------------------------------------
  // What sorting finds, and when a node's own listing gets in its way
  // ---------------------------------------------------------------------------

  /** The node lists itself as a peer and its second entry takes a place that a farther holder should
      have. */
  predicate CrowdsOut(s: State, t: NodeId, k: nat) {
    s.self.id in s.peers && |Closer(s.peers.Keys, t, s.self.id)| + 1 < k <= |s.peers|
  }

  lemma HolderByRank(s: State, t: NodeId, k: nat, x: NodeId)
    requires x in Known(s)
    ensures !CrowdsOut(s, t, k) ==> (Rank(s, t, x) < k <==> |Closer(Known(s), t, x)| < k)
    ensures CrowdsOut(s, t, k) ==> (Rank(s, t, x) < k <==> |Closer(Known(s), t, x)| < k - 1)
  {
    RankOfView(s, t, x);
    if s.self.id in s.peers {
      assert Known(s) == s.peers.Keys;
      SubsetCard(Closer(Known(s), t, x), Known(s) - {x});
      if Distance(t, s.self.id) < Distance(t, x) {
        RankStrict(Known(s), t, s.self.id, x);
      } else {
        SubsetCard(Closer(Known(s), t, x), Closer(Known(s), t, s.self.id));
      }
    }
  }

  /** Sorting the ring by distance and taking k yields the k holders of the view if and only if the
      node's own second listing crowds nobody out; if it does, exactly the farthest holder is lost. */
  lemma NearestAreHolders(s: State, t: NodeId, k: nat)
    requires IsRing(s.ring, s.self.id, s.peers.Keys)
    ensures NearestSet(s, t, k) == Holders(Known(s), t, k) <==> !CrowdsOut(s, t, k)
    ensures CrowdsOut(s, t, k) ==> NearestSet(s, t, k) == Holders(Known(s), t, k - 1)
  {
    var found := if CrowdsOut(s, t, k) then k - 1 else k;
    forall x ensures x in NearestSet(s, t, k) <==> x in Holders(Known(s), t, found) {
      NearestIffRank(s, t, k, x);
      if x in Known(s) { HolderByRank(s, t, k, x); }
    }
    assert NearestSet(s, t, k) == Holders(Known(s), t, found);
    if CrowdsOut(s, t, k) {
      assert Known(s) == s.peers.Keys && |s.peers| == |s.peers.Keys|;
      HoldersCount(Known(s), t, k);
      HoldersCount(Known(s), t, k - 1);
    }
  }

  /** A node that knows only itself. */
  function NewNode(c: Config, address: Address): (s: State)
    ensures Valid(c, s) && Known(s) == {c.hashAddr(address)}
  {
    State(Node(c.hashAddr(address), address), map[], [c.hashAddr(address)], map[])
  }

  /** A node that is told its own address and then another loses that other node although only two
      nodes are known and two are asked for. */
  lemma OwnAddressCrowdsOut(c: Config, a: Address, b: Address, t: NodeId)
    requires Distance(t, c.hashAddr(a)) < Distance(t, c.hashAddr(b))
    ensures var s := AddPeer(c, AddPeer(c, NewNode(c, a), a), b);
            && Valid(c, s)
            && c.hashAddr(b) in Holders(Known(s), t, 2)
            && NearestSet(s, t, 2) == {c.hashAddr(a)}
  {
    SelfListed(c, a, b);
    TwoKnown(c, AddPeer(c, AddPeer(c, NewNode(c, a), a), b), c.hashAddr(a), c.hashAddr(b), t);
  }

  /** A node that has put its own address into its peers, and then met another node. */
  lemma SelfListed(c: Config, a: Address, b: Address)
    ensures var s := AddPeer(c, AddPeer(c, NewNode(c, a), a), b);
            Valid(c, s) && s.self.id == c.hashAddr(a) && s.peers.Keys == {c.hashAddr(a), c.hashAddr(b)}
  {
    var s1 := AddPeer(c, NewNode(c, a), a);
    AddPeerValid(c, NewNode(c, a), a);
    AddPeerKnown(c, NewNode(c, a), a);
    AddPeerValid(c, s1, b);
    AddPeerKnown(c, s1, b);
  }

  lemma TwoKnown(c: Config, s: State, me: NodeId, other: NodeId, t: NodeId)
    requires Valid(c, s) && s.self.id == me && s.peers.Keys == {me, other}
    requires Distance(t, me) < Distance(t, other)
    ensures other in Holders(Known(s), t, 2) && NearestSet(s, t, 2) == {me}
  {
    assert Known(s) == {me, other};
    assert Closer({me, other}, t, me) == {};
    assert Closer({me, other}, t, other) == {me};
    assert |s.peers| == |{me, other}| == 2;
    NearestAreHolders(s, t, 2);
    assert Holders({me, other}, t, 1) == {me};
  }

  // ---------------------------------------------------------------------------
  // Minimal disruption of one node's view
  // ---------------------------------------------------------------------------

  /** No two known nodes have the same rank. */
  lemma RankGrows(s: State, t: NodeId, x: NodeId, y: NodeId)
    requires x in Known(s) && Distance(t, x) < Distance(t, y)
    ensures Rank(s, t, x) < Rank(s, t, y)
  {
    SubsetCard(Closer(s.peers.Keys, t, x), Closer(s.peers.Keys, t, y));
    if x in s.peers {
      assert x in Closer(s.peers.Keys, t, y) && x !in Closer(s.peers.Keys, t, x);
    }
  }

  lemma AtMostOne<T>(s: set<T>)
    requires forall x, y :: x in s && y in s ==> x == y
    ensures |s| <= 1
  {
    if s != {} {
      var x :| x in s;
      assert s == {x};
    }
  }

  lemma AddPeerRank(c: Config, s: State, address: Address, t: NodeId, x: NodeId)
    requires c.hashAddr(address) !in s.peers
    ensures Rank(AddPeer(c, s, address), t, x)
         == Rank(s, t, x) + if Distance(t, c.hashAddr(address)) < Distance(t, x) then 1 else 0
  {
    var id := c.hashAddr(address);
    AddPeerKnown(c, s, address);
    CloserWithout(s.peers.Keys + {id}, id, t, x);
    assert s.peers.Keys + {id} - {id} == s.peers.Keys;
  }

  lemma AddPeerNearest(c: Config, s: State, address: Address, t: NodeId, k: nat, x: NodeId)
    requires Valid(c, s) && c.hashAddr(address) !in s.peers
    ensures x in NearestSet(s, t, k) <==> x in Known(s) && Rank(s, t, x) < k
    ensures x in NearestSet(AddPeer(c, s, address), t, k)
       <==> (x in Known(s) || x == c.hashAddr(address))
            && Rank(s, t, x) + (if Distance(t, c.hashAddr(address)) < Distance(t, x) then 1 else 0) < k
  {
    AddPeerValid(c, s, address);
    AddPeerKnown(c, s, address);
    AddPeerRank(c, s, address, t, x);
    NearestIffRank(s, t, k, x);
    NearestIffRank(AddPeer(c, s, address), t, k, x);
  }

  /** Learning of a peer, even of the node's own address, makes at most that peer a new member of the k
      closest and drops at most one old member. */
  lemma AddPeerDisruption(c: Config, s: State, address: Address, t: NodeId, k: nat)
    requires Valid(c, s)
    ensures var s' := AddPeer(c, s, address);
            && NearestSet(s', t, k) <= NearestSet(s, t, k) + {c.hashAddr(address)}
            && |NearestSet(s, t, k) - NearestSet(s', t, k)| <= 1
  {
    var s' := AddPeer(c, s, address);
    var dropped := NearestSet(s, t, k) - NearestSet(s', t, k);
    if s' != s {
      forall x ensures x in NearestSet(s', t, k) ==> x in NearestSet(s, t, k) + {c.hashAddr(address)} {
        AddPeerNearest(c, s, address, t, k, x);
      }
      forall x, y | x in dropped && y in dropped ensures x == y {
        AddPeerNearest(c, s, address, t, k, x);
        AddPeerNearest(c, s, address, t, k, y);
        SameRank(s, t, x, y);
      }
    }
    AtMostOne(dropped);
  }

  lemma SameRank(s: State, t: NodeId, x: NodeId, y: NodeId)
    requires x in Known(s) && y in Known(s) && Rank(s, t, x) == Rank(s, t, y)
    ensures x == y
  {
    if Distance(t, x) < Distance(t, y) {
      RankGrows(s, t, x, y);
    } else if Distance(t, y) < Distance(t, x) {
      RankGrows(s, t, y, x);
    }
  }

  lemma RemovePeerNearest(c: Config, s: State, id: NodeId, t: NodeId, k: nat, x: NodeId)
    requires Valid(c, s) && id in s.peers
    ensures x in NearestSet(s, t, k)
       <==> x in Known(s)
            && Rank(RemovePeer(s, id), t, x) + (if Distance(t, id) < Distance(t, x) then 1 else 0) < k
    ensures x in NearestSet(RemovePeer(s, id), t, k)
       <==> x in Known(RemovePeer(s, id)) && Rank(RemovePeer(s, id), t, x) < k
  {
    RemovePeerValid(c, s, id);
    assert (s.peers - {id}).Keys == s.peers.Keys - {id};
    CloserWithout(s.peers.Keys, id, t, x);
    NearestIffRank(s, t, k, x);
    NearestIffRank(RemovePeer(s, id), t, k, x);
  }

  /** Losing a peer admits at most one new member of the k closest and drops nobody else. */
  lemma RemovePeerDisruption(c: Config, s: State, id: NodeId, t: NodeId, k: nat)
    requires Valid(c, s)
    ensures var s' := RemovePeer(s, id);
            && NearestSet(s, t, k) - {id} <= NearestSet(s', t, k)
            && |NearestSet(s', t, k) - NearestSet(s, t, k)| <= 1
  {
    var s' := RemovePeer(s, id);
    var admitted := NearestSet(s', t, k) - NearestSet(s, t, k);
    if id in s.peers {
      RemovePeerValid(c, s, id);
      forall x ensures x in NearestSet(s, t, k) && x != id ==> x in NearestSet(s', t, k) {
        RemovePeerNearest(c, s, id, t, k, x);
      }
      forall x, y | x in admitted && y in admitted ensures x == y {
        RemovePeerNearest(c, s, id, t, k, x);
        RemovePeerNearest(c, s, id, t, k, y);
        SameRank(s', t, x, y);
      }
    }
    AtMostOne(admitted);
  }

  // ---------------------------------------------------------------------------
  // Responsibility
  // ---------------------------------------------------------------------------

  /** Whether the node finds itself among the k nodes it knows closest to the task, put as a
      count: fewer than k of its peers are strictly closer. `SelfAmongNearest` shows that this is
      what sorting the ring and scanning the first k entries decides. */
  predicate InKClosest(c: Config, s: State, task: string) {
    |Closer(s.peers.Keys, c.hashTask(task), s.self.id)| < c.k
  }

  /** The responsibility test of a STORE or FIND: the ring is no larger than k, or self is among the
      k closest. */
  predicate Accepts(c: Config, s: State, task: string) {
    |s.ring| <= c.k || InKClosest(c, s, task)
  }

  /** The shortcut for small rings never changes the answer: a node accepts exactly when fewer
      than k known peers are strictly closer. */
  lemma AcceptsByRank(c: Config, s: State, task: string)
    requires Valid(c, s)
    ensures Accepts(c, s, task) <==> InKClosest(c, s, task)
    ensures Accepts(c, s, task) <==> s.self.id in Holders(Known(s), c.hashTask(task), c.k)
    ensures Accepts(c, s, task) <==> s.self.id in NearestIds(s.ring, c.hashTask(task), c.k)
  {
    var t := c.hashTask(task);
    SelfAmongNearest(s, t, c.k);
    RingMembers(s, s.self.id);
    SubsetCard(Closer(s.peers.Keys, t, s.self.id), s.peers.Keys);
  }

  /** Anti-monotonicity: a node that is one of the k closest of a larger population accepts
      whatever part of that population it knows. */
  lemma TrueHolderAccepts(c: Config, s: State, task: string, population: set<NodeId>)
    requires Valid(c, s)
    requires Known(s) <= population
    requires s.self.id in Holders(population, c.hashTask(task), c.k)
    ensures Accepts(c, s, task)
  {
    AcceptsByRank(c, s, task);
    RankMonotone(s.peers.Keys, population, c.hashTask(task), s.self.id);
  }

  lemma RejectionIsFarther(c: Config, s: State, task: string, x: NodeId)
    requires Valid(c, s)
    requires !Accepts(c, s, task)
    requires x in Holders(Known(s), c.hashTask(task), c.k)
    ensures x in s.peers && x != s.self.id
    ensures Distance(c.hashTask(task), x) < Distance(c.hashTask(task), s.self.id)
  {
    var t := c.hashTask(task);
    AcceptsByRank(c, s, task);
    if Distance(t, x) > Distance(t, s.self.id) {
      RankStrict(Known(s), t, s.self.id, x);
    }
  }

  /** A node that rejects knows k nodes that are all strictly closer than itself; they are the k
      closest of everything it knows. */
  lemma RejectionSuggestsHolders(c: Config, s: State, task: string, x: NodeId)
    requires Valid(c, s)
    requires !Accepts(c, s, task)
    ensures x in Holders(Known(s), c.hashTask(task), c.k)
       <==> x in s.peers && s.peers[x] in KClosest(c, s, task, c.k)
    ensures x in Holders(Known(s), c.hashTask(task), c.k) ==>
              Distance(c.hashTask(task), x) < Distance(c.hashTask(task), s.self.id)
  {
    var t := c.hashTask(task);
    var ids := NearestIds(s.ring, t, c.k);
    var closest := KClosest(c, s, task, c.k);
    NearestResolvable(s, t, c.k);
    AcceptsByRank(c, s, task);
    NearestAreHolders(s, t, c.k);
    assert x in NearestSet(s, t, c.k) <==> x in ids;
    assert x in Holders(Known(s), t, c.k) <==> x in ids;
    if x in ids {
      RejectionIsFarther(c, s, task, x);
      var i :| 0 <= i < |ids| && ids[i] == x;
      assert closest[i] == s.peers[x];
    }
  }

  // ---------------------------------------------------------------------------
  // Stored registrations
  // ---------------------------------------------------------------------------

  /** Refreshes the heartbeat of an existing registration, or appends a new one. */
  function Refresh(entries: seq<Registration>, address: Address, now: int): seq<Registration> {
    if entries == [] then [Registration(address, now)]
    else if entries[0].address == address then [Registration(address, now)] + entries[1..]
    else [entries[0]] + Refresh(entries[1..], address, now)
  }

  function Entries(s: State, task: string): seq<Registration> {
    if task in s.storage then s.storage[task] else []
  }

  function StoreTask(s: State, task: string, address: Address, now: int): State {
    s.(storage := s.storage[task := Refresh(Entries(s, task), address, now)])
  }

  predicate Expired(timeout: int, e: Registration, now: int) {
    timeout > 0 && now - e.heartbeat >= timeout
  }

  function Unexpired(timeout: int, entries: seq<Registration>, now: int): seq<Registration> {
    if entries == [] then []
    else
      var rest := Unexpired(timeout, entries[1..], now);
      if Expired(timeout, entries[0], now) then rest else [entries[0]] + rest
  }

  function Addresses(entries: seq<Registration>): (r: seq<Address>)
    ensures |r| == |entries|
    ensures forall i :: 0 <= i < |r| ==> r[i] == entries[i].address
  {
    seq(|entries|, i requires 0 <= i < |entries| => entries[i].address)
  }

  function Active(c: Config, s: State, task: string, now: int): seq<Address> {
    Addresses(Unexpired(c.timeout, Entries(s, task), now))
  }

  lemma {:induction false} UnexpiredMembers(timeout: int, entries: seq<Registration>, now: int, e: Registration)
    ensures e in Unexpired(timeout, entries, now) <==> e in entries && !Expired(timeout, e, now)
  {
    if entries == [] {
    } else {
      UnexpiredMembers(timeout, entries[1..], now, e);
      assert e in entries <==> e == entries[0] || e in entries[1..];
    }
  }

  /** A registration is active exactly when one of its entries is unexpired. */
  lemma ActiveIff(c: Config, s: State, task: string, now: int, a: Address)
    ensures a in Active(c, s, task, now)
       <==> exists e :: e in Entries(s, task) && e.address == a && !Expired(c.timeout, e, now)
  {
    var kept := Unexpired(c.timeout, Entries(s, task), now);
    if a in Addresses(kept) {
      var i :| 0 <= i < |kept| && Addresses(kept)[i] == a;
      UnexpiredMembers(c.timeout, Entries(s, task), now, kept[i]);
    }
    if e :| e in Entries(s, task) && e.address == a && !Expired(c.timeout, e, now) {
      UnexpiredMembers(c.timeout, Entries(s, task), now, e);
      var i :| 0 <= i < |kept| && kept[i] == e;
      assert Addresses(kept)[i] == a;
    }
  }

  lemma {:induction false} UnexpiredConcat(timeout: int, a: seq<Registration>, b: seq<Registration>, now: int)
    ensures Unexpired(timeout, a + b, now) == Unexpired(timeout, a, now) + Unexpired(timeout, b, now)
  {
    if a == [] {
      assert a + b == b;
    } else {
      assert (a + b)[1..] == a[1..] + b;
      UnexpiredConcat(timeout, a[1..], b, now);
    }
  }

  /** No address is registered twice under one task. */
  ghost predicate OncePerAddress(entries: seq<Registration>) {
    forall i, j :: 0 <= i < j < |entries| ==> entries[i].address != entries[j].address
  }

  /** Registering leaves exactly one entry for the address, with the new heartbeat, and every
      other entry as it was. */
  lemma {:induction false} RefreshMembers(entries: seq<Registration>, address: Address, now: int)
    requires OncePerAddress(entries)
    ensures OncePerAddress(Refresh(entries, address, now))
    ensures forall e :: e in Refresh(entries, address, now)
              <==> e == Registration(address, now) || (e in entries && e.address != address)
  {
    if entries == [] {
    } else {
      var rest := Refresh(entries[1..], address, now);
      RefreshMembers(entries[1..], address, now);
      forall e ensures e in Refresh(entries, address, now)
                 <==> e == Registration(address, now) || (e in entries && e.address != address) {
        assert e in entries <==> e == entries[0] || e in entries[1..];
      }
      if entries[0].address != address {
        forall j | 0 <= j < |rest| ensures rest[j].address != entries[0].address {
          assert rest[j] in rest;
          if rest[j] in entries[1..] {
            var m :| 0 <= m < |entries[1..]| && entries[1..][m] == rest[j];
            assert entries[m + 1] == rest[j];
          }
        }
      }
    }
  }

  lemma AddressesCons(e: Registration, rest: seq<Registration>)
    ensures Addresses([e] + rest) == [e.address] + Addresses(rest)
  {
  }

  /** An address stays where it is among the entries, and a new one goes to the end. */
  lemma {:induction false} RefreshInPlace(entries: seq<Registration>, address: Address, now: int)
    ensures Addresses(Refresh(entries, address, now))
         == Addresses(entries) + if address in Addresses(entries) then [] else [address]
  {
    if entries == [] {
      assert Addresses([Registration(address, now)]) == [address];
    } else {
      var first, rest := entries[0], entries[1..];
      assert entries == [first] + rest;
      AddressesCons(first, rest);
      if first.address == address {
        AddressesCons(Registration(address, now), rest);
        assert Addresses(entries)[0] == address;
        assert Addresses(entries) + [] == Addresses(entries);
      } else {
        RefreshInPlace(rest, address, now);
        AddressesCons(first, Refresh(rest, address, now));
        OneMore(first.address, Addresses(rest), address);
      }
    }
  }

  lemma OneMore(first: Address, rest: seq<Address>, address: Address)
    requires first != address
    ensures [first] + (rest + if address in rest then [] else [address])
         == ([first] + rest) + if address in [first] + rest then [] else [address]
  {
  }

  /** Storing a registration touches that task's entries and nothing else of the node. */
  lemma StoreTaskFrame(s: State, task: string, address: Address, now: int, other: string)
    ensures var s' := StoreTask(s, task, address, now);
            && s'.self == s.self && s'.peers == s.peers && s'.ring == s.ring
            && (other != task ==> Entries(s', other) == Entries(s, other))
            && Addresses(Entries(s', task))
               == Addresses(Entries(s, task)) + if address in Addresses(Entries(s, task)) then [] else [address]
  {
    RefreshInPlace(Entries(s, task), address, now);
  }

  /** A registration is looked up for exactly the heartbeat timeout, or for ever when there is none. */
  lemma LookedUpUntilTimeout(c: Config, s: State, task: string, address: Address, since: int, now: int)
    requires OncePerAddress(Entries(s, task))
    ensures address in Active(c, StoreTask(s, task, address, since), task, now)
       <==> c.timeout <= 0 || now < since + c.timeout
  {
    var s' := StoreTask(s, task, address, since);
    RefreshMembers(Entries(s, task), address, since);
    assert Registration(address, since) in Entries(s', task);
    ActiveIff(c, s', task, now, address);
  }

  lemma {:induction false} ExpiryInvisible(timeout: int, entries: seq<Registration>, now: int)
    ensures Unexpired(timeout, Unexpired(timeout, entries, now), now) == Unexpired(timeout, entries, now)
  {
    if entries == [] {
    } else {
      var rest := Unexpired(timeout, entries[1..], now);
      ExpiryInvisible(timeout, entries[1..], now);
      assert ([entries[0]] + rest)[1..] == rest;
    }
  }

  /** Stored tasks the node no longer finds itself responsible for. */
  function Stale(c: Config, s: State): set<string> {
    set task | task in s.storage && !InKClosest(c, s, task)
  }

  function DropStale(c: Config, s: State): State {
    s.(storage := s.storage - Stale(c, s))
  }

  function Expire(c: Config, s: State, now: int): State {
    if c.timeout <= 0 then s
    else s.(storage := map task | task in s.storage && Unexpired(c.timeout, s.storage[task], now) != []
                               :: Unexpired(c.timeout, s.storage[task], now))
  }

  /** The stale sweep keeps a task, with its entries, exactly when the node is one of the k holders of what it
      knows. */
  lemma StaleSweepKeepsHeld(c: Config, s: State, task: string)
    requires Valid(c, s)
    ensures var s' := DropStale(c, s);
            && s'.self == s.self && s'.peers == s.peers && s'.ring == s.ring
            && (task in s'.storage
                <==> task in s.storage && s.self.id in Holders(Known(s), c.hashTask(task), c.k))
            && (task in s'.storage ==> s'.storage[task] == s.storage[task])
  {
    AcceptsByRank(c, s, task);
  }

  /** The expiry sweep removes exactly the entries whose timeout has passed, and the tasks left without any. */
  lemma ExpirySweepRemoves(c: Config, s: State, now: int, task: string, e: Registration)
    ensures var s' := Expire(c, s, now);
            && s'.self == s.self && s'.peers == s.peers && s'.ring == s.ring
            && (e in Entries(s', task)
                <==> e in Entries(s, task) && (c.timeout <= 0 || now < e.heartbeat + c.timeout))
            && (c.timeout > 0 && task in s'.storage ==> s'.storage[task] != [])
  {
    UnexpiredMembers(c.timeout, Entries(s, task), now, e);
  }

  /** The sweep of expired registrations is invisible to a lookup at the same moment. */
  lemma SweepInvisible(c: Config, s: State, task: string, now: int)
    ensures Active(c, Expire(c, s, now), task, now) == Active(c, s, task, now)
  {
    ExpiryInvisible(c.timeout, Entries(s, task), now);
  }

  /** What a lookup on one node does: answer from local storage, forward, or report nothing. */
  datatype Lookup = Local(addresses: seq<Address>) | Forward(to: seq<Node>) | Nothing

  function LookupTask(c: Config, s: State, task: string, now: int, online: bool): Lookup
    requires Valid(c, s)
  {
    var addresses := Active(c, s, task, now);
    if addresses != [] then Local(addresses)
    else if !InKClosest(c, s, task) && online then
      Forward(KClosest(c, s, task, c.k))
    else Nothing
  }
}
