/** Capacity-weighted round-robin: a running sum over the entries picks from a pool that is never
    built. */
module Selection {

  datatype Service = Service(address: string, heartbeat: int, capacity: int)

  /** A capacity that is not positive counts as one. */
  function Normalized(capacity: int): (w: nat)
    ensures w >= 1
  {
    if capacity <= 0 then 1 else capacity
  }

  function Weight(e: Service): nat {
    Normalized(e.capacity)
  }

  function Repeat(x: string, n: nat): (r: seq<string>)
    ensures |r| == n
    ensures forall i :: 0 <= i < n ==> r[i] == x
  {
    if n == 0 then [] else [x] + Repeat(x, n - 1)
  }

  /** Every address as often as its weight, in entry order. */
  function Pool(entries: seq<Service>): seq<string> {
    if entries == [] then []
    else Pool(entries[..|entries| - 1]) + Repeat(entries[|entries| - 1].address, Weight(entries[|entries| - 1]))
  }

  lemma {:induction false} PoolPrefix(entries: seq<Service>, i: nat)
    requires i <= |entries|
    ensures Pool(entries[..i]) <= Pool(entries)
    ensures entries != [] ==> Pool(entries) != []
  {
    if i < |entries| {
      PoolPrefix(entries[..|entries| - 1], i);
      assert entries[..|entries| - 1][..i] == entries[..i];
    } else {
      assert entries[..i] == entries;
    }
  }

  /** The capacities of the first n entries together, where one that is not positive counts as one. */
  function CapacityBefore(entries: seq<Service>, n: nat): nat
    requires n <= |entries|
  {
    if n == 0 then 0
    else CapacityBefore(entries, n - 1) + if entries[n - 1].capacity > 0 then entries[n - 1].capacity else 1
  }

  lemma {:induction false} PoolLength(entries: seq<Service>, n: nat)
    requires n <= |entries|
    ensures |Pool(entries[..n])| == CapacityBefore(entries, n)
  {
    if n == 0 {
    } else {
      PoolLength(entries, n - 1);
      assert entries[..n][..n - 1] == entries[..n - 1];
    }
  }

  /** The pool has the first entry's address as often as its capacity, then the second one's, and so on. */
  lemma PoolAt(entries: seq<Service>, j: nat, slot: nat)
    requires j < |entries| && CapacityBefore(entries, j) <= slot < CapacityBefore(entries, j + 1)
    ensures |Pool(entries)| == CapacityBefore(entries, |entries|)
    ensures slot < |Pool(entries)| && Pool(entries)[slot] == entries[j].address
  {
    assert entries[..|entries|] == entries && entries[..j + 1][..j] == entries[..j];
    PoolLength(entries, |entries|);
    PoolLength(entries, j);
    PoolLength(entries, j + 1);
    PoolPrefix(entries, j + 1);
    assert Pool(entries[..j + 1])[slot] == entries[j].address;
  }

  method TotalServiceWeight(entries: seq<Service>) returns (total: nat)
    ensures total == |Pool(entries)|
  {
    total := 0;
    for i := 0 to |entries|
      invariant total == |Pool(entries[..i])|
    {
      assert entries[..i + 1][..i] == entries[..i];
      total := total + Weight(entries[i]);
    }
    assert entries[..|entries|] == entries;
  }

  /** Picks by running sum what indexing the expanded pool would pick. */
  method SelectWeightedAddress(entries: seq<Service>, slot: int) returns (address: string, ok: bool)
    ensures ok <==> entries != [] && slot < |Pool(entries)|
    ensures ok && slot >= 0 ==> address == Pool(entries)[slot]
    ensures ok && slot < 0 ==> address == entries[0].address
  {
    PoolPrefix(entries, 0);
    var running := 0;
    for i := 0 to |entries|
      invariant running == |Pool(entries[..i])| && (i > 0 ==> running <= slot)
    {
      assert entries[..i + 1][..i] == entries[..i];
      running := running + Weight(entries[i]);
      if slot < running {
        PoolPrefix(entries, i + 1);
        return entries[i].address, true;
      }
    }
    assert entries[..|entries|] == entries;
    return "", false;
  }

  // ---------------------------------------------------------------------------
  // Fairness
  // ---------------------------------------------------------------------------

  lemma ModOnce(c: nat, i: nat, w: nat)
    requires i < w
    ensures (c + i) % w == if c % w + i < w then c % w + i else c % w + i - w
  {
    var q := c / w;
    assert c == q * w + c % w;
    if c % w + i < w {
      ModUnique(c + i, q, c % w + i, w);
    } else {
      assert c + i == (q + 1) * w + (c % w + i - w);
      ModUnique(c + i, q + 1, c % w + i - w, w);
    }
  }

  lemma ModUnique(x: nat, q: nat, r: nat, w: nat)
    requires r < w && x == q * w + r
    ensures x % w == r
  {
    var d := q - x / w;
    assert x == x / w * w + x % w;
    assert d * w == x % w - r;
  }

  /** The picks of |pool| consecutive slots, starting at any cursor value. */
  ghost function Round(pool: seq<string>, cursor: nat): seq<string>
    requires pool != []
  {
    seq(|pool|, i requires 0 <= i < |pool| => pool[(cursor + i) % |pool|])
  }

  /** One full turn of the cursor picks every pool position exactly once, wherever it starts. */
  lemma FullTurn(pool: seq<string>, cursor: nat)
    requires pool != []
    ensures multiset(Round(pool, cursor)) == multiset(pool)
  {
    var w := |pool|;
    var c := cursor % w;
    forall i | 0 <= i < w ensures Round(pool, cursor)[i] == (pool[c..] + pool[..c])[i] {
      ModOnce(cursor, i, w);
    }
    assert Round(pool, cursor) == pool[c..] + pool[..c];
    assert pool == pool[..c] + pool[c..];
  }

  /** The picks of n consecutive slots. */
  ghost function Window(pool: seq<string>, cursor: nat, n: nat): (r: seq<string>)
    requires pool != []
    ensures |r| == n
    decreases n
  {
    if n == 0 then [] else [pool[cursor % |pool|]] + Window(pool, cursor + 1, n - 1)
  }

  lemma {:induction false} WindowAt(pool: seq<string>, cursor: nat, n: nat, i: nat)
    requires pool != [] && i < n
    ensures Window(pool, cursor, n)[i] == pool[(cursor + i) % |pool|]
    decreases n
  {
    if i == 0 {
    } else {
      WindowAt(pool, cursor + 1, n - 1, i - 1);
      assert cursor + 1 + (i - 1) == cursor + i;
    }
  }

  lemma WindowIsRound(pool: seq<string>, cursor: nat)
    requires pool != []
    ensures Window(pool, cursor, |pool|) == Round(pool, cursor)
  {
    forall j | 0 <= j < |pool| ensures Window(pool, cursor, |pool|)[j] == Round(pool, cursor)[j] {
      WindowAt(pool, cursor, |pool|, j);
    }
  }

  /** The weights of the entries that carry the address. */
  function WeightOf(entries: seq<Service>, address: string): nat {
    if entries == [] then 0
    else
      var last := entries[|entries| - 1];
      WeightOf(entries[..|entries| - 1], address) + if last.address == address then Weight(last) else 0
  }

  lemma {:induction false} RepeatCount(x: string, n: nat, a: string)
    ensures multiset(Repeat(x, n))[a] == if x == a then n else 0
  {
    if n == 0 {
    } else {
      RepeatCount(x, n - 1, a);
    }
  }

  /** Each address occupies exactly its weight in the pool. */
  lemma {:induction false} PoolCounts(entries: seq<Service>, address: string)
    ensures multiset(Pool(entries))[address] == WeightOf(entries, address)
  {
    if entries == [] {
    } else {
      PoolCounts(entries[..|entries| - 1], address);
      RepeatCount(entries[|entries| - 1].address, Weight(entries[|entries| - 1]), address);
    }
  }

  ghost predicate DistinctAddresses(entries: seq<Service>) {
    forall i, j :: 0 <= i < j < |entries| ==> entries[i].address != entries[j].address
  }

  lemma {:induction false} WeightOfAbsent(entries: seq<Service>, address: string)
    requires forall i :: 0 <= i < |entries| ==> entries[i].address != address
    ensures WeightOf(entries, address) == 0
  {
    if entries == [] {
    } else {
      WeightOfAbsent(entries[..|entries| - 1], address);
    }
  }

  lemma {:induction false} WeightOfEntry(entries: seq<Service>, i: nat)
    requires DistinctAddresses(entries) && i < |entries|
    ensures WeightOf(entries, entries[i].address) == Weight(entries[i])
  {
    if i == |entries| - 1 {
      WeightOfAbsent(entries[..i], entries[i].address);
    } else {
      WeightOfEntry(entries[..|entries| - 1], i);
    }
  }

  /** Fairness: any |pool| consecutive picks hand out each address exactly its capacity times. */
  lemma RoundIsFair(entries: seq<Service>, cursor: nat, i: nat)
    requires DistinctAddresses(entries) && i < |entries|
    requires Pool(entries) != []
    ensures multiset(Round(Pool(entries), cursor))[entries[i].address] == Weight(entries[i])
  {
    FullTurn(Pool(entries), cursor);
    PoolCounts(entries, entries[i].address);
    WeightOfEntry(entries, i);
  }

  /** Shares are capacities, and one for a capacity that is not positive. */
  lemma SharesAreCapacities(entries: seq<Service>, cursor: nat, i: nat)
    requires DistinctAddresses(entries) && i < |entries|
    ensures Pool(entries) != []
    ensures multiset(Round(Pool(entries), cursor))[entries[i].address]
         == if entries[i].capacity > 0 then entries[i].capacity else 1
  {
    PoolPrefix(entries, 0);
    RoundIsFair(entries, cursor, i);
  }

  // ---------------------------------------------------------------------------
  // The store's wrapped cursor
  // ---------------------------------------------------------------------------

  /** The store's cursor after a pick: kept below the total weight. */
  function NextWrapped(cursor: nat, w: nat): nat
    requires w > 0
  {
    (cursor % w + 1) % w
  }

  /** The picks of n consecutive lookups with the wrapped cursor. */
  ghost function StorePicks(pool: seq<string>, cursor: nat, n: nat): seq<string>
    requires pool != []
    decreases n
  {
    if n == 0 then [] else [pool[cursor % |pool|]] + StorePicks(pool, NextWrapped(cursor, |pool|), n - 1)
  }

  lemma NextWrappedAgrees(c: nat, d: nat, w: nat)
    requires w > 0 && c % w == d % w
    ensures NextWrapped(c, w) % w == (d + 1) % w
  {
    var next := NextWrapped(c, w);
    ModUnique(next, 0, next, w);
    if w == 1 {
      assert next == 0 && (d + 1) % w == 0;
    } else {
      ModOnce(d, 1, w);
      ModOnce(d % w, 1, w);
      ModUnique(d % w, 0, d % w, w);
    }
  }

  /** The wrapped cursor and the ever-growing counter give out the same addresses forever. */
  lemma {:induction false} StorePicksAreWindow(pool: seq<string>, wrapped: nat, growing: nat, n: nat)
    requires pool != [] && wrapped % |pool| == growing % |pool|
    ensures StorePicks(pool, wrapped, n) == Window(pool, growing, n)
    decreases n
  {
    if n == 0 {
    } else {
      NextWrappedAgrees(wrapped, growing, |pool|);
      StorePicksAreWindow(pool, NextWrapped(wrapped, |pool|), growing + 1, n - 1);
    }
  }
}
