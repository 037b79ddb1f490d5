/** The 256-bit identifier ring: clockwise distance, rank, and the k identifiers closest to a task. */
module Ring {
  import opened Sorting

  const MODULUS: int := 0x1_0000000000000000_0000000000000000_0000000000000000_0000000000000000

  /** A 256-bit identifier, read as the big-endian number its 32 bytes spell. */
  type NodeId = n: int | 0 <= n < MODULUS

  /** Clockwise distance: how far to walk from `a` to reach `b`. */
  function Distance(a: NodeId, b: NodeId): (d: int)
    ensures 0 <= d < MODULUS
  {
    var diff := b - a;
    if diff < 0 then diff + MODULUS else diff
  }

  /** Walking that distance clockwise from `a` lands on `b`, and no shorter walk does. */
  lemma DistanceLands(a: NodeId, b: NodeId, d: nat)
    requires d < MODULUS
    ensures (a + d) % MODULUS == b <==> d == Distance(a, b)
  {
    if a + d < MODULUS {
      assert (a + d) % MODULUS == a + d;
    } else {
      assert (a + d) % MODULUS == a + d - MODULUS;
    }
  }

  /** Distance from a fixed identifier, as a sorting key. */
  function From(t: NodeId): NodeId -> int {
    (id: NodeId) => Distance(t, id)
  }

  /** Position on the ring, as a sorting key. */
  function Position(): NodeId -> int {
    (id: NodeId) => id
  }

  // ---------------------------------------------------------------------------
  // Rank: how many identifiers are strictly closer
  // ---------------------------------------------------------------------------

  /** The members of `ids` that are strictly closer to `t` than `x` is. */
  function Closer(ids: set<NodeId>, t: NodeId, x: NodeId): set<NodeId> {
    set y | y in ids && Distance(t, y) < Distance(t, x)
  }

  /** The k members of `ids` closest to `t`, defined without any order: those that fewer than
      k members beat. */
  function Holders(ids: set<NodeId>, t: NodeId, k: nat): set<NodeId> {
    set x | x in ids && |Closer(ids, t, x)| < k
  }

  lemma SubsetCard<T>(a: set<T>, b: set<T>)
    requires a <= b
    ensures |a| <= |b|
    ensures a < b ==> |a| < |b|
  {
    assert b == a + (b - a);
  }

  /** Knowing fewer identifiers only makes a node look closer. */
  lemma RankMonotone(small: set<NodeId>, large: set<NodeId>, t: NodeId, x: NodeId)
    requires small <= large
    ensures |Closer(small, t, x)| <= |Closer(large, t, x)|
  {
    SubsetCard(Closer(small, t, x), Closer(large, t, x));
  }

  /** Rank grows strictly with distance. */
  lemma RankStrict(ids: set<NodeId>, t: NodeId, x: NodeId, y: NodeId)
    requires x in ids
    requires Distance(t, x) < Distance(t, y)
    ensures |Closer(ids, t, x)| < |Closer(ids, t, y)|
  {
    assert x in Closer(ids, t, y) && x !in Closer(ids, t, x);
    SubsetCard(Closer(ids, t, x), Closer(ids, t, y));
  }

  lemma {:induction false} Nearest(ids: set<NodeId>, t: NodeId) returns (m: NodeId)
    requires ids != {}
    ensures m in ids
    ensures forall x :: x in ids ==> Distance(t, m) <= Distance(t, x)
    decreases |ids|
  {
    m :| m in ids;
    var rest := ids - {m};
    if rest == {} {
      assert ids == {m};
    } else {
      var n := Nearest(rest, t);
      if Distance(t, n) < Distance(t, m) { m := n; }
    }
  }

  /** When `ids` has more than k members, some member has rank exactly k and the closer ones are
      exactly the k holders. */
  lemma {:induction false} RankAttained(ids: set<NodeId>, t: NodeId, k: nat) returns (m: NodeId)
    requires k < |ids|
    ensures m in ids && Closer(ids, t, m) == Holders(ids, t, k)
    ensures |Closer(ids, t, m)| == k
    decreases k, 1
  {
    HoldersCount(ids, t, k);
    var rest := ids - Holders(ids, t, k);
    assert ids == Holders(ids, t, k) + rest;
    m := Nearest(rest, t);
    NearestOfTheRest(ids, t, k, m);
  }

  /** The holders are exactly what is closer than the nearest of the others. */
  lemma NearestOfTheRest(ids: set<NodeId>, t: NodeId, k: nat, m: NodeId)
    requires m in ids && m !in Holders(ids, t, k)
    requires forall x :: x in ids && x !in Holders(ids, t, k) ==> Distance(t, m) <= Distance(t, x)
    ensures Closer(ids, t, m) == Holders(ids, t, k)
  {
    forall h | h in Holders(ids, t, k) ensures h in Closer(ids, t, m) {
      if Distance(t, h) > Distance(t, m) { RankStrict(ids, t, m, h); }
    }
  }

  /** There are k holders, or as many as there are identifiers when those are fewer. */
  lemma {:induction false} HoldersCount(ids: set<NodeId>, t: NodeId, k: nat)
    ensures |Holders(ids, t, k)| == if k <= |ids| then k else |ids|
    decreases k, 0
  {
    if k > |ids| {
      forall x | x in ids ensures x in Holders(ids, t, k) {
        SubsetCard(Closer(ids, t, x), ids);
      }
      assert Holders(ids, t, k) == ids;
    } else if k == 0 {
      assert Holders(ids, t, k) == {};
    } else {
      var m := RankAttained(ids, t, k - 1);
      HoldersNext(ids, t, k, m);
    }
  }

  /** The next holder is the one with as many closer members as there are holders. */
  lemma HoldersNext(ids: set<NodeId>, t: NodeId, k: nat, m: NodeId)
    requires k > 0 && m in ids && |Closer(ids, t, m)| == k - 1
    ensures Holders(ids, t, k) == Holders(ids, t, k - 1) + {m} && m !in Holders(ids, t, k - 1)
  {
    forall x | x in ids ensures x in Holders(ids, t, k) <==> x in Holders(ids, t, k - 1) + {m} {
      if Distance(t, m) < Distance(t, x) {
        RankStrict(ids, t, m, x);
      } else if Distance(t, x) < Distance(t, m) {
        RankStrict(ids, t, x, m);
      }
    }
  }

  // ---------------------------------------------------------------------------
  // Minimal disruption
  // ---------------------------------------------------------------------------

  /** A newcomer takes over at most its own share: nobody else becomes a holder, and at most one
      holder is pushed out. */
  lemma JoinDisruption(ids: set<NodeId>, p: NodeId, t: NodeId, k: nat)
    requires p !in ids
    ensures Holders(ids + {p}, t, k) <= Holders(ids, t, k) + {p}
    ensures |Holders(ids, t, k) - Holders(ids + {p}, t, k)|
         == if p in Holders(ids + {p}, t, k) && k <= |ids| then 1 else 0
  {
    LeaveDisruption(ids + {p}, p, t, k);
    assert ids + {p} - {p} == ids;
    forall x | x in Holders(ids + {p}, t, k) && x != p ensures x in Holders(ids, t, k) {
      RankMonotone(ids, ids + {p}, t, x);
    }
  }

  /** When a member leaves, the remaining holders stay, and exactly one new holder is admitted if
      the leaver was a holder and somebody is left to take its place; otherwise nobody is. */
  lemma LeaveDisruption(ids: set<NodeId>, p: NodeId, t: NodeId, k: nat)
    requires p in ids
    ensures Holders(ids, t, k) - {p} <= Holders(ids - {p}, t, k)
    ensures |Holders(ids - {p}, t, k) - Holders(ids, t, k)|
         == if p in Holders(ids, t, k) && k < |ids| then 1 else 0
  {
    var before, after := Holders(ids, t, k), Holders(ids - {p}, t, k);
    forall x | x in before && x != p ensures x in after {
      RankMonotone(ids - {p}, ids, t, x);
    }
    HoldersCount(ids, t, k);
    HoldersCount(ids - {p}, t, k);
    assert after == (after - before) + (before - {p});
    assert |before - {p}| == |before| - if p in before then 1 else 0;
    if p !in before {
      SubsetCard(before - {p}, ids - {p});
    }
  }

  // ---------------------------------------------------------------------------
  // Sorting by distance and taking the first k
  // ---------------------------------------------------------------------------

  function CountCloser(s: seq<NodeId>, t: NodeId, x: NodeId): nat {
    if s == [] then 0
    else (if Distance(t, s[0]) < Distance(t, x) then 1 else 0) + CountCloser(s[1..], t, x)
  }

  lemma {:induction false} CountCloserSplit(a: seq<NodeId>, b: seq<NodeId>, t: NodeId, x: NodeId)
    ensures CountCloser(a + b, t, x) == CountCloser(a, t, x) + CountCloser(b, t, x)
  {
    if a == [] {
      assert a + b == b;
    } else {
      assert (a + b)[1..] == a[1..] + b;
      CountCloserSplit(a[1..], b, t, x);
    }
  }

  /** Counting ignores order. */
  lemma {:induction false} CountCloserPermutation(a: seq<NodeId>, b: seq<NodeId>, t: NodeId, x: NodeId)
    requires multiset(a) == multiset(b)
    ensures CountCloser(a, t, x) == CountCloser(b, t, x)
    decreases |a|
  {
    assert |multiset(a)| == |multiset(b)|;
    if a == [] {
    } else {
      assert a[0] in multiset(b);
      var i :| 0 <= i < |b| && b[i] == a[0];
      Behead(a);
      RemoveAt(b, i);
      CountCloserSplit(b[..i], [b[i]] + b[i + 1..], t, x);
      CountCloserSplit(b[..i], b[i + 1..], t, x);
      assert ([b[i]] + b[i + 1..])[1..] == b[i + 1..];
      CountCloserPermutation(a[1..], b[..i] + b[i + 1..], t, x);
    }
  }

  lemma CloserWithout(ids: set<NodeId>, y: NodeId, t: NodeId, x: NodeId)
    requires y in ids
    ensures |Closer(ids, t, x)| == |Closer(ids - {y}, t, x)| + if Distance(t, y) < Distance(t, x) then 1 else 0
  {
    assert Closer(ids, t, x) == Closer(ids - {y}, t, x) + if Distance(t, y) < Distance(t, x) then {y} else {};
  }

  lemma {:induction false} CountCloserOfSet(s: seq<NodeId>, ids: set<NodeId>, t: NodeId, x: NodeId)
    requires multiset(s) == multiset(ids)
    ensures CountCloser(s, t, x) == |Closer(ids, t, x)|
    decreases |s|
  {
    if s == [] {
      assert |ids| == |multiset(ids)|;
      assert Closer(ids, t, x) == {};
    } else {
      var y := s[0];
      Behead(s);
      assert y in multiset(s) && y in ids;
      assert multiset(ids - {y}) == multiset(ids) - multiset{y};
      CountCloserOfSet(s[1..], ids - {y}, t, x);
      CloserWithout(ids, y, t, x);
    }
  }

  /** In a list sorted by distance, the entries closer than `x` come first. */
  lemma {:induction false} CloserComeFirst(s: seq<NodeId>, t: NodeId, x: NodeId)
    requires SortedBy(From(t), s)
    ensures CountCloser(s, t, x) <= |s|
    ensures forall i :: 0 <= i < CountCloser(s, t, x) ==> Distance(t, s[i]) < Distance(t, x)
    ensures forall i :: CountCloser(s, t, x) <= i < |s| ==> Distance(t, s[i]) >= Distance(t, x)
  {
    if s == [] {
    } else {
      var tail := s[1..];
      assert SortedBy(From(t), tail);
      CloserComeFirst(tail, t, x);
      assert forall i :: 0 <= i < |tail| ==> tail[i] == s[i + 1];
      assert forall i :: 0 < i < |s| ==> s[i] == tail[i - 1];
      if Distance(t, s[0]) >= Distance(t, x) {
        forall i | 0 <= i < |s| ensures Distance(t, s[i]) >= Distance(t, x) {
          if i > 0 { assert From(t)(s[0]) <= From(t)(s[i]); }
        }
      }
    }
  }

  function Min(a: nat, b: nat): nat { if a <= b then a else b }

  /** The first k entries of a list sorted by distance are exactly the entries that fewer than k
      list members beat. */
  lemma TopKByRank(s: seq<NodeId>, t: NodeId, k: nat, x: NodeId)
    requires SortedBy(From(t), s)
    ensures x in s[..Min(k, |s|)] <==> x in s && CountCloser(s, t, x) < k
  {
    CloserComeFirst(s, t, x);
    var c := CountCloser(s, t, x);
    if x in s {
      var i :| 0 <= i < |s| && s[i] == x;
      assert c <= i;
      if c < i { assert From(t)(s[c]) <= From(t)(s[i]); }
      assert s[c] == x;
      if c < k { assert s[..Min(k, |s|)][c] == x; }
    }
  }
}
