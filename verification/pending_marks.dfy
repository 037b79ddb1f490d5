/** When pending marks collide: a mark is the joined key of a task and an address, so two pairs may share
    one, and then a write of either clears it for both. */
module PendingMarks {
  import opened Strings
  import opened Firewall
  import opened MemoryRegistry
  import opened ServiceStore
  import opened StoreBacked
  import opened StoreBackedRuns
  import opened StoreBackedWarm
  import opened WarmOutcomes

  /** No two different pairs of `pairs` share a pending mark. */
  ghost predicate KeysDistinct(pairs: set<Pair>) {
    forall p :: p in pairs ==> Unshared(pairs, p)
  }

  /** Task names without a colon make the joined key unambiguous. */
  lemma ColonFreeKeysDistinct(pairs: set<Pair>)
    requires forall p :: p in pairs ==> ':' !in p.task
    ensures KeysDistinct(pairs)
  {
    forall p, q | p in pairs && q in pairs && PairKey(q) == PairKey(p) ensures q == p {
      var key, m, n := PairKey(p), |p.task|, |q.task|;
      assert key[m] == ':' && key[n] == ':';
      assert m == n;
      assert p.task == key[..m] && p.address == key[m + 1..];
      assert q.task == key[..n] && q.address == key[n + 1..];
    }
  }

  /** The colliding keys: of two different pairs with one key, the longer task continues the shorter one with a
      colon and what the other address begins with. */
  lemma KeysCollideIff(p: Pair, q: Pair)
    requires |p.task| < |q.task|
    ensures PairKey(p) == PairKey(q)
       <==> exists b :: q.task == p.task + ":" + b && p.address == b + ":" + q.address
  {
    var m, n := |p.task|, |q.task|;
    if PairKey(p) == PairKey(q) {
      var key := PairKey(p);
      assert key[m] == ':' && key[n] == ':';
      var b := key[m + 1..n];
      assert q.task == key[..n] == key[..m] + [key[m]] + b;
      assert p.address == key[m + 1..] == b + [key[n]] + key[n + 1..];
      assert q.address == key[n + 1..] && p.task == key[..m];
    }
    if b :| q.task == p.task + ":" + b && p.address == b + ":" + q.address {
      SameKey(p.task, b, q.address);
    }
  }

  lemma SameKey(a: string, b: string, c: string)
    ensures PairKey(Pair(a, b + ":" + c)) == PairKey(Pair(a + ":" + b, c))
  {
    assert a + ":" + (b + ":" + c) == (a + ":" + b) + ":" + c;
  }

  /** Pairs of one task, or of tasks of one length, never collide. */
  lemma EqualLengthsApart(p: Pair, q: Pair)
    requires |p.task| == |q.task| && PairKey(p) == PairKey(q)
    ensures p == q
  {
    var key, m := PairKey(p), |p.task|;
    assert p.task == key[..m] == q.task && p.address == key[m + 1..] == q.address;
  }

  /** A registry just started on a table: nothing cached, marked or missed yet. */
  function Started(table: Table, threshold: nat, maxSize: int): Registry {
    Registry(EmptyMem(), {}, map[], map[], threshold, maxSize, table)
  }

  /** A pair whose names survive trimming, as those of every registration do. */
  predicate Proper(p: Pair) {
    && p.task != "" && p.address != "" && Trim(p.task) == p.task && Trim(p.address) == p.address
  }

  /** The event that registers a pair. */
  function Registering(p: Pair, stored: bool): Event {
    Registration(p.task, p.address, 1, 0, stored)
  }

  /** If the run registers only the given pairs, and `p` among them, then `p` is not lost. */
  ghost predicate NotLost(env: Env, s: Registry, pairs: set<Pair>, es: seq<Event>, p: Pair)
    requires Orders(env.order)
  {
    (PossibleRun(env, s, es) && (forall q :: RegisteredIn(es, q) ==> q in pairs) && RegisteredIn(es, p))
    ==> Accounted(Run(env, s, es), p)
  }

  lemma {:induction false} RunAppend(env: Env, s: Registry, es: seq<Event>, e: Event)
    requires Orders(env.order) && PossibleRun(env, s, es) && Possible(Run(env, s, es), e)
    ensures PossibleRun(env, s, es + [e])
    ensures Run(env, s, es + [e]) == Step(env, Run(env, s, es), e)
    decreases |es|
  {
    if es == [] {
      assert (es + [e])[1..] == [];
    } else {
      RunAppend(env, Step(env, s, es[0]), es[1..], e);
      assert (es + [e])[1..] == es[1..] + [e];
    }
  }

  // ---------------------------------------------------------------------------
  // Two registered pairs
  // ---------------------------------------------------------------------------

  /** Two different pairs with the same key: when the first write fails and the second succeeds, the
      second clears the first one's mark, and the first registration is neither stored nor marked. */
  lemma CollisionLoses(env: Env, s: Registry, p: Pair, q: Pair)
    requires Orders(env.order) && Proper(p) && Proper(q)
    requires p != q && PairKey(p) == PairKey(q) && !IsActive(s.table, p)
    ensures var es := [Registering(p, false), Registering(q, true)];
            && PossibleRun(env, s, es) && RegisteredIn(es, p)
            && (forall r :: RegisteredIn(es, r) ==> r == p || r == q)
            && !Accounted(Run(env, s, es), p)
  {
    var es := [Registering(p, false), Registering(q, true)];
    var s1 := Step(env, s, es[0]);
    assert es[1..] == [es[1]] && es[1..][1..] == [];
    assert Run(env, s, es) == Run(env, s1, es[1..]) == Step(env, s1, es[1]);
    assert Registers(es[0], p);
  }

  // ---------------------------------------------------------------------------
  // A registered pair and a stored row
  // ---------------------------------------------------------------------------

  /** The task's active pairs are cached and nothing else has changed that matters here. */
  ghost predicate Admitted(s: Registry, s': Registry, task: string) {
    && s'.table == s.table && s'.pending == s.pending
    && forall p :: Cached(s'.cache, p) <==> Cached(s.cache, p) || (p.task == task && IsActive(s.table, p))
  }

  /** A task that the store lists and the cache does not. */
  ghost predicate Uncached(s: Registry, task: string) {
    && Trim(task) == task && task != ""
    && task !in s.cache.services && ActiveAddresses(s.table, task) != {}
  }

  lemma UncachedMisses(env: Env, s: Registry, task: string)
    requires Orders(env.order) && Uncached(s, task)
    ensures ListTask(env.order, s.table, task) != []
    ensures Query(env, s, task, NoIp, true, false) == ServeMiss(env, s, task, NoIp, false)
  {
    var a :| a in ActiveAddresses(s.table, task);
    ListTaskMembers(env.order, s.table, task, a);
  }

  lemma MissAdmits(env: Env, s: Registry, task: string, p: Pair)
    requires Orders(env.order) && ListTask(env.order, s.table, task) != [] && CountMiss(s, task).1
    ensures var s' := ServeMiss(env, s, task, NoIp, false).state;
            && s'.table == s.table && s'.pending == s.pending
            && (Cached(s'.cache, p) <==> Cached(s.cache, p) || (p.task == task && IsActive(s.table, p)))
  {
    var listing := ListTask(env.order, s.table, task);
    LoadLists(s.cache, task, listing, p.task, p.address);
    GetKeepsListing(Load(s.cache, task, listing), env.cacheDest, task, NoIp);
    if p.task == task { ListTaskMembers(env.order, s.table, task, p.address); }
  }

  lemma MissCaches(env: Env, s: Registry, task: string)
    requires Orders(env.order) && ListTask(env.order, s.table, task) != [] && CountMiss(s, task).1
    ensures Admitted(s, ServeMiss(env, s, task, NoIp, false).state, task)
  {
    MissAdmits(env, s, task, Pair("", ""));
    var s' := ServeMiss(env, s, task, NoIp, false).state;
    forall p ensures Cached(s'.cache, p) <==> Cached(s.cache, p) || (p.task == task && IsActive(s.table, p)) {
      MissAdmits(env, s, task, p);
    }
  }

  lemma MissCounts(env: Env, s: Registry, task: string)
    requires Orders(env.order) && ListTask(env.order, s.table, task) != [] && !CountMiss(s, task).1
    ensures var s' := ServeMiss(env, s, task, NoIp, false).state;
            s' == s.(misses := CountMiss(s, task).0.misses, fallback := s'.fallback)
  {
    ListingIsActive(env.order, s.table, task);
  }

  /** Misses still missing before the task is admitted. */
  function MissesLeft(s: Registry, task: string): nat {
    var n := if task in s.misses then s.misses[task] else 0;
    if n < s.threshold then s.threshold - n else 0
  }

  /** Enough lookups bring a task's rows into the cache. */
  lemma {:induction false} AdmissionRun(env: Env, s: Registry, task: string) returns (es: seq<Event>)
    requires Orders(env.order) && Uncached(s, task)
    ensures PossibleRun(env, s, es) && Admitted(s, Run(env, s, es), task)
    ensures forall i :: 0 <= i < |es| ==> es[i].Lookup?
    decreases MissesLeft(s, task)
  {
    var e := Lookup(task, NoIp, true, false);
    var s' := Step(env, s, e);
    UncachedMisses(env, s, task);
    es := [e];
    if CountMiss(s, task).1 {
      MissCaches(env, s, task);
      assert es[1..] == [];
    } else {
      MissCounts(env, s, task);
      var rest := AdmissionRun(env, s', task);
      es := [e] + rest;
      assert es[1..] == rest;
    }
  }

  // ---------------------------------------------------------------------------
  // A warm cycle in which one retry succeeds
  // ---------------------------------------------------------------------------

  function CachedPairs(m: Mem): set<Pair> {
    set t, i | t in m.services && 0 <= i < |m.services[t]| :: Pair(t, m.services[t][i].address)
  }

  lemma {:induction false} InSomeOrder(pairs: set<Pair>) returns (visit: seq<Pair>)
    ensures forall p :: p in visit <==> p in pairs
    ensures forall i, j :: 0 <= i < j < |visit| ==> visit[i] != visit[j]
  {
    if pairs == {} {
      visit := [];
    } else {
      var p :| p in pairs;
      var rest := InSomeOrder(pairs - {p});
      visit := [p] + rest;
    }
  }

  /** Every cache has an order in which to visit it. */
  lemma SomeVisit(m: Mem) returns (visit: seq<Pair>)
    ensures Visits(m, visit)
  {
    visit := InSomeOrder(CachedPairs(m));
    forall p ensures p in CachedPairs(m) <==> Cached(m, p) {
      if Cached(m, p) {
        var i :| 0 <= i < |EntriesOf(m, p.task)| && EntriesOf(m, p.task)[i].address == p.address;
        assert p == Pair(p.task, m.services[p.task][i].address);
      }
      if p in CachedPairs(m) {
        var t, i :| t in m.services && 0 <= i < |m.services[t]| && p == Pair(t, m.services[t][i].address);
        assert EntriesOf(m, p.task)[i].address == p.address;
      }
    }
  }

  lemma {:induction false} SyncPendingActive(s: Registry, visit: seq<Pair>, ok: Pair -> bool, p: Pair)
    requires forall q :: q in visit ==> Cached(s.cache, q)
    requires !ok(p) && !IsActive(s.table, p)
    ensures !IsActive(SyncPending(s, visit, ok).table, p)
  {
    if visit == [] {
    } else {
      SyncPendingActive(s, visit[..|visit| - 1], ok, p);
    }
  }

  lemma {:induction false} NoCountWritten(s: Registry, visit: seq<Pair>, ok: Pair -> bool)
    requires forall q :: q in visit ==> Cached(s.cache, q) && !ok(q)
    ensures SyncCounts(s, visit, ok) == s
  {
    if visit == [] {
    } else {
      NoCountWritten(s, visit[..|visit| - 1], ok);
    }
  }

  /** A warm cycle may clear the mark of a pair that is not stored, by writing another pair of that key. */
  lemma WarmClears(env: Env, s: Registry, p: Pair, q: Pair) returns (w: Plan)
    requires Orders(env.order) && Cached(s.cache, q)
    requires p != q && PairKey(p) == PairKey(q) && !IsActive(s.table, p)
    ensures Follows(s.cache, w) && !Accounted(Warm(env, s, w), p)
  {
    var visit := SomeVisit(s.cache);
    w := Plan(visit, _ => false, visit, r => r == q, visit, false);
    NoCountWritten(s, visit, w.countsOk);
    SyncPendingActive(s, visit, w.retriesOk, p);
    SyncPendingMark(s, visit, w.retriesOk, PairKey(q));
  }

  lemma RegisterThenWarm(env: Env, s: Registry, p: Pair, q: Pair) returns (w: Plan)
    requires Orders(env.order) && Proper(p) && Cached(s.cache, q)
    requires p != q && PairKey(p) == PairKey(q) && !IsActive(s.table, p)
    ensures var s' := Step(env, s, Registering(p, false));
            Follows(s'.cache, w) && !Accounted(Warm(env, s', w), p)
  {
    RegisterEffect(s, p.task, p.address, 1, 0, false, q);
    w := WarmClears(env, Step(env, s, Registering(p, false)), p, q);
  }

  lemma OnlyRegisters(lookups: seq<Event>, p: Pair, w: Plan, r: Pair)
    requires Proper(p) && forall i :: 0 <= i < |lookups| ==> lookups[i].Lookup?
    ensures RegisteredIn(lookups + [Registering(p, false)] + [WarmCycle(w)], r) <==> r == p
  {
    var es := lookups + [Registering(p, false)] + [WarmCycle(w)];
    assert es[|lookups|] == Registering(p, false) && es[|lookups| + 1] == WarmCycle(w);
    assert Registers(es[|lookups|], p);
    if RegisteredIn(es, r) {
      var i :| 0 <= i < |es| && Registers(es[i], r);
      assert i < |lookups| ==> es[i] == lookups[i];
    }
  }

  /** A stored row with the key of a pair that is not active: once lookups have cached the row, a retry of
      the row clears the pair's mark. Only the pair is registered. */
  lemma StoredRowLoses(env: Env, table: Table, threshold: nat, maxSize: int, p: Pair, q: Pair)
    returns (es: seq<Event>)
    requires Orders(env.order) && Proper(p) && Proper(q) && IsActive(table, q)
    requires p != q && PairKey(p) == PairKey(q) && !IsActive(table, p)
    ensures var s := Started(table, threshold, maxSize);
            && PossibleRun(env, s, es) && RegisteredIn(es, p)
            && (forall r :: RegisteredIn(es, r) ==> r == p)
            && !Accounted(Run(env, s, es), p)
  {
    var s, e := Started(table, threshold, maxSize), Registering(p, false);
    assert q.address in ActiveAddresses(table, q.task);
    var lookups := AdmissionRun(env, s, q.task);
    var w := RegisterThenWarm(env, Run(env, s, lookups), p, q);
    RunAppend(env, s, lookups, e);
    RunAppend(env, s, lookups + [e], WarmCycle(w));
    es := lookups + [e] + [WarmCycle(w)];
    forall r ensures RegisteredIn(es, r) <==> r == p { OnlyRegisters(lookups, p, w, r); }
  }

  // ---------------------------------------------------------------------------
  // Exactly when nothing is lost
  // ---------------------------------------------------------------------------

  function ActivePairs(table: Table): set<Pair> {
    set p | p in table && table[p].active
  }

  /** No given pair that is not yet active shares its key with another given pair or an active row. */
  ghost predicate MarksApart(pairs: set<Pair>, table: Table) {
    forall p :: p in pairs && !IsActive(table, p) ==> Unshared(pairs + ActivePairs(table), p)
  }

  lemma MarksApartKeep(env: Env, pairs: set<Pair>, table: Table, threshold: nat, maxSize: int, es: seq<Event>, p: Pair)
    requires Orders(env.order) && MarksApart(pairs, table)
    ensures NotLost(env, Started(table, threshold, maxSize), pairs, es, p)
  {
    var s, all := Started(table, threshold, maxSize), pairs + ActivePairs(table);
    if PossibleRun(env, s, es) && (forall q :: RegisteredIn(es, q) ==> q in pairs) && RegisteredIn(es, p) {
      NoLostRegistration(env, s, es, all, p);
    }
  }

  /** A shared key loses a registration in some run. */
  lemma SharedMarkLoses(env: Env, pairs: set<Pair>, table: Table, threshold: nat, maxSize: int, p: Pair, q: Pair)
    returns (es: seq<Event>)
    requires Orders(env.order) && Proper(p) && Proper(q)
    requires p in pairs && !IsActive(table, p) && (q in pairs || IsActive(table, q))
    requires p != q && PairKey(p) == PairKey(q)
    ensures !NotLost(env, Started(table, threshold, maxSize), pairs, es, p)
  {
    if q in pairs {
      es := [Registering(p, false), Registering(q, true)];
      CollisionLoses(env, Started(table, threshold, maxSize), p, q);
    } else {
      es := StoredRowLoses(env, table, threshold, maxSize, p, q);
    }
  }

  /** Started on any table, no run that registers only the given pairs loses one, exactly when no given pair
      that is not yet active shares its key with another given pair or with an active row. */
  lemma NoLossIffMarksApart(env: Env, pairs: set<Pair>, table: Table, threshold: nat, maxSize: int)
    requires Orders(env.order)
    requires forall p :: p in pairs || IsActive(table, p) ==> Proper(p)
    ensures MarksApart(pairs, table)
       <==> forall es, p :: NotLost(env, Started(table, threshold, maxSize), pairs, es, p)
  {
    if MarksApart(pairs, table) {
      forall es, p ensures NotLost(env, Started(table, threshold, maxSize), pairs, es, p) {
        MarksApartKeep(env, pairs, table, threshold, maxSize, es, p);
      }
    } else {
      var p :| p in pairs && !IsActive(table, p) && !Unshared(pairs + ActivePairs(table), p);
      var q :| q in pairs + ActivePairs(table) && PairKey(q) == PairKey(p) && q != p;
      var es := SharedMarkLoses(env, pairs, table, threshold, maxSize, p, q);
    }
  }

  // ---------------------------------------------------------------------------
  // Every registration gets there
  // ---------------------------------------------------------------------------

  lemma {:induction false} RunWithin(env: Env, s: Registry, es: seq<Event>, pairs: set<Pair>)
    requires Orders(env.order) && PossibleRun(env, s, es) && Within(s, pairs)
    requires forall q :: RegisteredIn(es, q) ==> q in pairs
    ensures Within(Run(env, s, es), pairs)
    decreases |es|
  {
    if es == [] {
    } else {
      forall q | Registers(es[0], q) ensures q in pairs { assert RegisteredIn(es, q); }
      StepKeeps(env, s, es[0], pairs, Pair("", ""));
      forall q | RegisteredIn(es[1..], q) ensures q in pairs {
        var i :| 0 <= i < |es[1..]| && Registers(es[1..][i], q);
        assert Registers(es[i + 1], q);
      }
      RunWithin(env, Step(env, s, es[0]), es[1..], pairs);
    }
  }

  /** Whatever has failed before, a registration whose mark is its own is in the store after the first warm cycle
      that can write it. */
  lemma EventuallyStored(env: Env, s: Registry, es: seq<Event>, w: Plan, pairs: set<Pair>, p: Pair)
    requires Orders(env.order) && PossibleRun(env, s, es) && Within(s, pairs)
    requires forall q :: RegisteredIn(es, q) ==> q in pairs
    requires RegisteredIn(es, p) && Unshared(pairs, p)
    requires Follows(Run(env, s, es).cache, w) && w.retriesOk(p)
    ensures PossibleRun(env, s, es + [WarmCycle(w)])
    ensures IsActive(Run(env, s, es + [WarmCycle(w)]).table, p)
  {
    NoLostRegistration(env, s, es, pairs, p);
    RunWithin(env, s, es, pairs);
    RunAppend(env, s, es, WarmCycle(w));
    RetrySettles(env, Run(env, s, es), w, p);
  }
}
