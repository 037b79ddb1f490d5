/** What a warm cycle loads into the new cache and writes to the store, entry by entry and row by row. */
module WarmOutcomes {
  import opened Options
  import opened Selection
  import opened MemoryRegistry
  import opened ServiceStore
  import opened StoreBacked
  import opened StoreBackedRuns
  import opened StoreBackedWarm

  // ---------------------------------------------------------------------------
  // An unbounded cache loads everything
  // ---------------------------------------------------------------------------

  lemma AllTasksLoaded(order: Order, table: Table, maxSize: int)
    requires Orders(order) && maxSize <= 0
    ensures Names(WarmTasks(order, table, maxSize)) == ActiveTasks(table)
    ensures forall t :: t in WarmTasks(order, table, maxSize) <==> t in ActiveTasks(table)
  {
    assert Enumerates(order(ActiveTasks(table)), ActiveTasks(table));
  }

  /** After a successful warm of a cache without a bound, exactly the active pairs are cached, and those whose
      write is still pending. */
  lemma UnboundedWarmLoadsAll(env: Env, s: Registry, w: Plan, p: Pair)
    requires Orders(env.order) && Follows(s.cache, w) && w.listed && s.maxSize <= 0
    ensures var s' := Warm(env, s, w);
            Cached(s'.cache, p) <==> IsActive(s'.table, p) || (Cached(s.cache, p) && PairKey(p) in s'.pending)
  {
    var table := Synced(s, w).table;
    FreshCacheLists(env, s, w, p);
    AllTasksLoaded(env.order, table, s.maxSize);
    if IsActive(table, p) { assert p.task in ActiveTasks(table); }
  }

  /** ... and its tasks are exactly the active ones and those with writes still pending. */
  lemma UnboundedWarmTasks(env: Env, s: Registry, w: Plan)
    requires Orders(env.order) && Follows(s.cache, w) && w.listed && s.maxSize <= 0
    ensures var s' := Warm(env, s, w);
            s'.cache.services.Keys == ActiveTasks(s'.table) + PendingTasks(s.cache, s'.pending)
  {
    var s2 := Synced(s, w);
    var tasks, empty := WarmTasks(env.order, s2.table, s.maxSize), EmptyMem().(firewall := s.cache.firewall);
    AllTasksLoaded(env.order, s2.table, s.maxSize);
    LoadTasksKeys(env.order, empty, s2.table, tasks);
    PreserveKeys(s.cache, LoadTasks(env.order, empty, s2.table, tasks), s2.pending, w.carried);
    MarkedArePending(s.cache, s2.pending, w.carried);
  }

  /** A warm that cannot list the store keeps the cache; no warm touches the misses or the fallback cursors. */
  lemma WarmLeaves(env: Env, s: Registry, w: Plan)
    requires Orders(env.order) && Follows(s.cache, w)
    ensures var s' := Warm(env, s, w);
            && (!w.listed ==> s'.cache == s.cache)
            && s'.misses == s.misses && s'.fallback == s.fallback
            && s'.threshold == s.threshold && s'.maxSize == s.maxSize
  {
    SyncLeaves(s, w.counts, w.countsOk, w.retries, w.retriesOk);
  }

  lemma SyncLeaves(s: Registry, counts: seq<Pair>, countsOk: Pair -> bool, retries: seq<Pair>, retriesOk: Pair -> bool)
    requires forall p :: p in counts ==> Cached(s.cache, p)
    requires forall p :: p in retries ==> Cached(s.cache, p)
    ensures var s' := SyncPending(SyncCounts(s, counts, countsOk), retries, retriesOk);
            s' == s.(table := s'.table, pending := s'.pending)
  {
    SyncCountsLeaves(s, counts, countsOk);
    SyncPendingLeaves(SyncCounts(s, counts, countsOk), retries, retriesOk);
  }

  lemma {:induction false} SyncCountsLeaves(s: Registry, visit: seq<Pair>, ok: Pair -> bool)
    requires forall p :: p in visit ==> Cached(s.cache, p)
    ensures var s' := SyncCounts(s, visit, ok); s' == s.(table := s'.table, pending := s'.pending)
  {
    if visit == [] {
    } else {
      SyncCountsLeaves(s, visit[..|visit| - 1], ok);
    }
  }

  lemma {:induction false} SyncPendingLeaves(s: Registry, visit: seq<Pair>, ok: Pair -> bool)
    requires forall p :: p in visit ==> Cached(s.cache, p)
    ensures var s' := SyncPending(s, visit, ok); s' == s.(table := s'.table, pending := s'.pending)
  {
    if visit == [] {
    } else {
      SyncPendingLeaves(s, visit[..|visit| - 1], ok);
    }
  }

  // ---------------------------------------------------------------------------
  // Which rows are written, and with what
  // ---------------------------------------------------------------------------

  function RowIn(table: Table, p: Pair): Option<Row> {
    if p in table then Some(table[p]) else None
  }

  /** Either pass writes the pair. */
  ghost predicate Written(s: Registry, w: Plan, p: Pair) {
    Cached(s.cache, p) && ((Queried(s.cache, p) && w.countsOk(p)) || Retried(s, w, p))
  }

  /** The row the cache has for the pair, over what the store counted. */
  function CachedRow(m: Mem, p: Pair, counted: nat): Row
    requires Cached(m, p)
  {
    var e, n := EntryAt(EntriesOf(m, p.task), p.address), CountOf(m, p.task, p.address);
    Row(e.heartbeat, if n > 0 then n else counted, if e.capacity > 0 then e.capacity else 1, true)
  }

  lemma WriteBackRow(s: Registry, q: Pair, p: Pair)
    requires Cached(s.cache, q)
    ensures RowIn(WriteBack(s, q).table, p)
         == if q == p then Some(CachedRow(s.cache, p, StoreCount(s.table, p))) else RowIn(s.table, p)
  {
  }

  /** What a write-back leaves does not change when it is repeated. */
  lemma WrittenTwice(m: Mem, p: Pair, counted: nat)
    requires Cached(m, p)
    ensures CachedRow(m, p, CachedRow(m, p, counted).count) == CachedRow(m, p, counted)
  {
  }

  lemma {:induction false} SyncCountsRow(s: Registry, visit: seq<Pair>, ok: Pair -> bool, p: Pair)
    requires forall q :: q in visit ==> Cached(s.cache, q)
    ensures RowIn(SyncCounts(s, visit, ok).table, p)
         == if p in visit && Queried(s.cache, p) && ok(p) then Some(CachedRow(s.cache, p, StoreCount(s.table, p)))
            else RowIn(s.table, p)
  {
    if visit == [] {
    } else {
      var init, q := visit[..|visit| - 1], visit[|visit| - 1];
      SyncCountsRow(s, init, ok, p);
      assert q in visit && (p in visit <==> p in init || p == q);
      WriteBackRow(SyncCounts(s, init, ok), q, p);
    }
  }

  /** The second pass writes the pair at position i exactly if its mark is there when its turn comes. */
  lemma {:induction false} SyncPendingRow(s: Registry, visit: seq<Pair>, ok: Pair -> bool, p: Pair, i: nat)
    requires forall q :: q in visit ==> Cached(s.cache, q)
    requires forall j, k :: 0 <= j < k < |visit| ==> visit[j] != visit[k]
    requires i <= |visit| && (i < |visit| ==> visit[i] == p) && p !in visit[..i]
    ensures RowIn(SyncPending(s, visit, ok).table, p)
         == if i < |visit| && PairKey(p) in SyncPending(s, visit[..i], ok).pending && ok(p)
            then Some(CachedRow(s.cache, p, StoreCount(s.table, p))) else RowIn(s.table, p)
  {
    if visit == [] {
    } else {
      var init, q := visit[..|visit| - 1], visit[|visit| - 1];
      assert q in visit;
      WriteBackRow(SyncPending(s, init, ok), q, p);
      if i < |visit| - 1 {
        SyncPendingRow(s, init, ok, p, i);
        assert init[..i] == visit[..i];
      } else {
        SyncPendingRow(s, init, ok, p, |init|);
        assert i == |init| ==> visit[..i] == init;
      }
    }
  }

  /** After both passes, a row that was written has the time and capacity of the cached entry, and its count if
      it has one; every other row is as it was. */
  lemma SyncedRow(s: Registry, w: Plan, p: Pair)
    requires Follows(s.cache, w)
    ensures RowIn(Synced(s, w).table, p)
         == if Written(s, w, p) then Some(CachedRow(s.cache, p, StoreCount(s.table, p))) else RowIn(s.table, p)
  {
    var s1 := SyncCounts(s, w.counts, w.countsOk);
    SyncCountsRow(s, w.counts, w.countsOk, p);
    if p in w.retries {
      var i :| 0 <= i < |w.retries| && w.retries[i] == p;
      SyncPendingRow(s1, w.retries, w.retriesOk, p, i);
      RetriedIff(s, w, p, i);
      WrittenTwice(s.cache, p, StoreCount(s.table, p));
    } else {
      SyncPendingRow(s1, w.retries, w.retriesOk, p, |w.retries|);
    }
  }

  // ---------------------------------------------------------------------------
  // What the new cache has of each pair
  // ---------------------------------------------------------------------------

  function Usable(e: Service): Service {
    Service(e.address, e.heartbeat, if e.capacity > 0 then e.capacity else 1)
  }

  lemma KeepsTwice(a: Mem, b: Mem, c: Mem, t: string, x: string)
    requires KeepsEntry(a, b, t, x) && KeepsEntry(b, c, t, x)
    ensures KeepsEntry(a, c, t, x)
  {
  }

  lemma KeepsHas(m: Mem, m': Mem, t: string, e: Service)
    requires HasEntry(m, t, e) && KeepsEntry(m, m', t, e.address)
    ensures HasEntry(m', t, e)
  {
  }

  lemma {:induction false} LoadKeeps(m: Mem, task: string, listing: seq<Listed>, t: string, a: string)
    requires !(t == task && InListing(listing, a))
    ensures KeepsEntry(m, Load(m, task, listing), t, a)
  {
    if listing == [] {
    } else {
      var init, last := listing[..|listing| - 1], listing[|listing| - 1];
      assert listing == init + [last];
      InListingAppend(init, last, a);
      LoadKeeps(m, task, init, t, a);
      PopulateEntry(Load(m, task, init), task, last.service, last.count, t, a);
      KeepsTwice(m, Load(m, task, init), Load(m, task, listing), t, a);
    }
  }

  /** The last entry of the listing with an address decides what is loaded for it. */
  lemma {:induction false} LoadEntry(m: Mem, task: string, listing: seq<Listed>, i: nat)
    requires i < |listing|
    requires forall j :: i < j < |listing| ==> listing[j].service.address != listing[i].service.address
    ensures HasEntry(Load(m, task, listing), task, Usable(listing[i].service))
  {
    var init, last := listing[..|listing| - 1], listing[|listing| - 1];
    var a := listing[i].service.address;
    PopulateEntry(Load(m, task, init), task, last.service, last.count, task, a);
    if i == |listing| - 1 {
    } else {
      LoadEntry(m, task, init, i);
      KeepsHas(Load(m, task, init), Load(m, task, listing), task, Usable(listing[i].service));
    }
  }

  /** The row as a service. */
  function RowService(table: Table, p: Pair): Service
    requires p in table
  {
    Usable(Service(p.address, table[p].heartbeat, table[p].capacity))
  }

  lemma LoadActive(order: Order, m: Mem, table: Table, p: Pair)
    requires Orders(order) && IsActive(table, p)
    ensures HasEntry(Load(m, p.task, ListTask(order, table, p.task)), p.task, RowService(table, p))
  {
    var listing := ListTask(order, table, p.task);
    ListTaskMembers(order, table, p.task, p.address);
    var i :| 0 <= i < |listing| && listing[i].service.address == p.address;
    forall j | i < j < |listing| ensures listing[j].service.address != p.address {
      ListedRows(order, table, p.task, j);
    }
    ListedRows(order, table, p.task, i);
    LoadEntry(m, p.task, listing, i);
  }

  lemma {:induction false} LoadTasksEntry(order: Order, m: Mem, table: Table, tasks: seq<string>, p: Pair)
    requires Orders(order) && p.task in tasks && IsActive(table, p)
    ensures HasEntry(LoadTasks(order, m, table, tasks), p.task, RowService(table, p))
  {
    var init, last := tasks[..|tasks| - 1], tasks[|tasks| - 1];
    var before := LoadTasks(order, m, table, init);
    if last == p.task {
      LoadActive(order, before, table, p);
    } else {
      LoadTasksEntry(order, m, table, init, p);
      LoadKeeps(before, last, ListTask(order, table, last), p.task, p.address);
      KeepsHas(before, LoadTasks(order, m, table, tasks), p.task, RowService(table, p));
    }
  }

  lemma {:induction false} PreserveKeeps(from: Mem, to: Mem, pending: set<string>, visit: seq<Pair>, p: Pair)
    requires forall q :: q in visit ==> Cached(from, q)
    requires !(p in visit && PairKey(p) in pending)
    ensures KeepsEntry(to, PreservePending(from, to, pending, visit), p.task, p.address)
  {
    if visit == [] {
    } else {
      var init, q := visit[..|visit| - 1], visit[|visit| - 1];
      assert q in visit && Cached(from, q);
      PreserveKeeps(from, to, pending, init, p);
      EntryAtAddress(EntriesOf(from, q.task), q.address);
      var m := PreservePending(from, to, pending, init);
      PopulateEntry(m, q.task, EntryAt(EntriesOf(from, q.task), q.address), CountOf(from, q.task, q.address),
                    p.task, p.address);
      KeepsTwice(to, m, PreservePending(from, to, pending, visit), p.task, p.address);
    }
  }

  lemma {:induction false} PreserveEntry(from: Mem, to: Mem, pending: set<string>, visit: seq<Pair>, p: Pair)
    requires forall q :: q in visit ==> Cached(from, q)
    requires p in visit && PairKey(p) in pending
    ensures HasEntry(PreservePending(from, to, pending, visit), p.task,
                     Usable(EntryAt(EntriesOf(from, p.task), p.address)))
  {
    var init, q := visit[..|visit| - 1], visit[|visit| - 1];
    assert q in visit && Cached(from, q);
    var m, e := PreservePending(from, to, pending, init), EntryAt(EntriesOf(from, q.task), q.address);
    EntryAtAddress(EntriesOf(from, q.task), q.address);
    EntryAtAddress(EntriesOf(from, p.task), p.address);
    PopulateEntry(m, q.task, e, CountOf(from, q.task, q.address), p.task, p.address);
    if q == p {
    } else {
      assert p in init;
      PreserveEntry(from, to, pending, init, p);
      KeepsHas(m, PreservePending(from, to, pending, visit), p.task,
               Usable(EntryAt(EntriesOf(from, p.task), p.address)));
    }
  }

  lemma CursorsIrrelevant(from: Mem, to: Mem, t: string, e: Service)
    ensures HasEntry(CopyCursors(from, to), t, e) <==> HasEntry(to, t, e)
  {
  }

  /** The new cache has a pair whose write is still pending as the old cache had it, and every other pair as its
      row says. */
  lemma FreshCacheEntry(env: Env, s: Registry, w: Plan, p: Pair)
    requires Orders(env.order) && Follows(s.cache, w) && Cached(FreshCache(env, s, w), p)
    ensures var s2 := Synced(s, w);
            if Cached(s.cache, p) && PairKey(p) in s2.pending
            then HasEntry(FreshCache(env, s, w), p.task, Usable(EntryAt(EntriesOf(s.cache, p.task), p.address)))
            else p in s2.table && HasEntry(FreshCache(env, s, w), p.task, RowService(s2.table, p))
  {
    var s2, empty := Synced(s, w), EmptyMem().(firewall := s.cache.firewall);
    var tasks := WarmTasks(env.order, s2.table, s.maxSize);
    var loaded := LoadTasks(env.order, empty, s2.table, tasks);
    var carried := PreservePending(s.cache, loaded, s2.pending, w.carried);
    FreshCacheLists(env, s, w, p);
    if Cached(s.cache, p) && PairKey(p) in s2.pending {
      PreserveEntry(s.cache, loaded, s2.pending, w.carried, p);
      CursorsIrrelevant(s.cache, carried, p.task, Usable(EntryAt(EntriesOf(s.cache, p.task), p.address)));
    } else {
      LoadTasksEntry(env.order, empty, s2.table, tasks, p);
      PreserveKeeps(s.cache, loaded, s2.pending, w.carried, p);
      KeepsHas(loaded, carried, p.task, RowService(s2.table, p));
      CursorsIrrelevant(s.cache, carried, p.task, RowService(s2.table, p));
    }
  }

  // ---------------------------------------------------------------------------
  // ... and how often it has counted it
  // ---------------------------------------------------------------------------

  function CountFor(m: Mem, p: Pair): nat {
    CountOf(m, p.task, p.address)
  }

  lemma PopulateCount(m: Mem, q: Pair, e: Service, count: nat, p: Pair)
    requires e.address == q.address
    ensures CountFor(Populate(m, q.task, e, count), p) == if PairKey(q) == PairKey(p) then count else CountFor(m, p)
  {
    PopulateEntry(m, q.task, e, count, p.task, p.address);
  }

  lemma {:induction false} LoadCountKeeps(m: Mem, task: string, listing: seq<Listed>, p: Pair)
    requires forall i :: 0 <= i < |listing| ==> Key(task, listing[i].service.address) != PairKey(p)
    ensures CountFor(Load(m, task, listing), p) == CountFor(m, p)
  {
    if listing == [] {
    } else {
      var init, last := listing[..|listing| - 1], listing[|listing| - 1];
      LoadCountKeeps(m, task, init, p);
      PopulateCount(Load(m, task, init), Pair(task, last.service.address), last.service, last.count, p);
    }
  }

  lemma {:induction false} LoadCount(m: Mem, task: string, listing: seq<Listed>, i: nat)
    requires i < |listing|
    requires forall j :: i < j < |listing| ==> listing[j].service.address != listing[i].service.address
    ensures CountFor(Load(m, task, listing), Pair(task, listing[i].service.address)) == listing[i].count
  {
    var init, last, p := listing[..|listing| - 1], listing[|listing| - 1], Pair(task, listing[i].service.address);
    PopulateCount(Load(m, task, init), Pair(task, last.service.address), last.service, last.count, p);
    if i == |listing| - 1 {
    } else {
      LoadCount(m, task, init, i);
      KeyOfTask(task, last.service.address, p.address);
    }
  }

  lemma LoadActiveCount(order: Order, m: Mem, table: Table, p: Pair)
    requires Orders(order) && IsActive(table, p)
    ensures CountFor(Load(m, p.task, ListTask(order, table, p.task)), p) == StoreCount(table, p)
  {
    var listing := ListTask(order, table, p.task);
    ListTaskMembers(order, table, p.task, p.address);
    var i :| 0 <= i < |listing| && listing[i].service.address == p.address;
    forall j | i < j < |listing| ensures listing[j].service.address != p.address {
      ListedRows(order, table, p.task, j);
    }
    ListedRows(order, table, p.task, i);
    LoadCount(m, p.task, listing, i);
  }

  /** No other active pair of these tasks has the key. */
  ghost predicate AloneIn(table: Table, tasks: seq<string>, p: Pair) {
    forall q: Pair :: q.task in tasks && IsActive(table, q) && PairKey(q) == PairKey(p) ==> q == p
  }

  lemma OtherTaskKeeps(order: Order, m: Mem, table: Table, tasks: seq<string>, task: string, p: Pair)
    requires Orders(order) && AloneIn(table, tasks, p) && task in tasks && task != p.task
    ensures CountFor(Load(m, task, ListTask(order, table, task)), p) == CountFor(m, p)
  {
    var listing := ListTask(order, table, task);
    forall i | 0 <= i < |listing| ensures Key(task, listing[i].service.address) != PairKey(p) {
      ListedRows(order, table, task, i);
      assert PairKey(Pair(task, listing[i].service.address)) == Key(task, listing[i].service.address);
    }
    LoadCountKeeps(m, task, listing, p);
  }

  lemma {:induction false} LoadTasksCount(order: Order, m: Mem, table: Table, tasks: seq<string>, p: Pair)
    requires Orders(order) && p.task in tasks && IsActive(table, p) && AloneIn(table, tasks, p)
    ensures CountFor(LoadTasks(order, m, table, tasks), p) == StoreCount(table, p)
  {
    var init, last := tasks[..|tasks| - 1], tasks[|tasks| - 1];
    if last == p.task {
      LoadActiveCount(order, LoadTasks(order, m, table, init), table, p);
    } else {
      assert p.task in init && last in tasks;
      LoadTasksCount(order, m, table, init, p);
      OtherTaskKeeps(order, LoadTasks(order, m, table, init), table, tasks, last, p);
    }
  }

  /** No other visited pair with a mark has the key. */
  ghost predicate AloneAmong(pending: set<string>, visit: seq<Pair>, p: Pair) {
    PairKey(p) in pending ==> forall q :: q in visit && PairKey(q) == PairKey(p) ==> q == p
  }

  lemma {:induction false} PreserveCount(from: Mem, to: Mem, pending: set<string>, visit: seq<Pair>, p: Pair)
    requires forall q :: q in visit ==> Cached(from, q)
    requires AloneAmong(pending, visit, p)
    ensures CountFor(PreservePending(from, to, pending, visit), p)
         == if p in visit && PairKey(p) in pending then CountFor(from, p) else CountFor(to, p)
  {
    if visit == [] {
    } else {
      var init, q := visit[..|visit| - 1], visit[|visit| - 1];
      assert q in visit && Cached(from, q) && (p in visit <==> p in init || p == q);
      PreserveCount(from, to, pending, init, p);
      EntryAtAddress(EntriesOf(from, q.task), q.address);
      PopulateCount(PreservePending(from, to, pending, init), q, EntryAt(EntriesOf(from, q.task), q.address),
                    CountFor(from, q), p);
    }
  }

  /** Unless another cached pair shares its key, a pair whose write is still pending keeps its count, and every
      other pair starts from what the store counts. */
  lemma FreshCacheCount(env: Env, s: Registry, w: Plan, p: Pair)
    requires Orders(env.order) && Follows(s.cache, w) && Cached(FreshCache(env, s, w), p)
    requires forall q :: Cached(FreshCache(env, s, w), q) && PairKey(q) == PairKey(p) ==> q == p
    ensures var s2 := Synced(s, w);
            CountFor(FreshCache(env, s, w), p)
            == if Cached(s.cache, p) && PairKey(p) in s2.pending then CountFor(s.cache, p) else StoreCount(s2.table, p)
  {
    var s2, empty := Synced(s, w), EmptyMem().(firewall := s.cache.firewall);
    var tasks := WarmTasks(env.order, s2.table, s.maxSize);
    FreshCacheLists(env, s, w, p);
    forall q | PairKey(q) == PairKey(p) && (q in w.carried && PairKey(q) in s2.pending) ensures q == p {
      FreshCacheLists(env, s, w, q);
    }
    forall q: Pair | q.task in tasks && IsActive(s2.table, q) && PairKey(q) == PairKey(p) ensures q == p {
      FreshCacheLists(env, s, w, q);
    }
    PreserveCount(s.cache, LoadTasks(env.order, empty, s2.table, tasks), s2.pending, w.carried, p);
    if !(Cached(s.cache, p) && PairKey(p) in s2.pending) {
      LoadTasksCount(env.order, empty, s2.table, tasks, p);
    }
  }

  // ---------------------------------------------------------------------------
  // ... and in which order
  // ---------------------------------------------------------------------------

  function NamesOf(m: Mem, t: string): seq<string> {
    AddressesOf(EntriesOf(m, t))
  }

  function ListedNames(listing: seq<Listed>): seq<string> {
    AddressesOf(Services(listing))
  }

  lemma PopulateNames(m: Mem, task: string, e: Service, count: nat, t: string)
    ensures NamesOf(Populate(m, task, e, count), t)
         == if t == task && e.address !in NamesOf(m, t) then NamesOf(m, t) + [e.address] else NamesOf(m, t)
  {
    PopulateEntry(m, task, e, count, "", "");
  }

  lemma ListedNamesAt(listing: seq<Listed>, i: nat)
    requires i < |listing|
    ensures |ListedNames(listing)| == |listing| && ListedNames(listing)[i] == listing[i].service.address
    ensures ListedNames(listing)[..i] == ListedNames(listing[..i])
  {
  }

  /** Loading what a task lists already changes no names. */
  lemma {:induction false} LoadNamesKnown(m: Mem, task: string, listing: seq<Listed>, t: string)
    requires t == task ==> forall i :: 0 <= i < |listing| ==> listing[i].service.address in NamesOf(m, t)
    ensures NamesOf(Load(m, task, listing), t) == NamesOf(m, t)
  {
    if listing == [] {
    } else {
      var init, last := listing[..|listing| - 1], listing[|listing| - 1];
      LoadNamesKnown(m, task, init, t);
      PopulateNames(Load(m, task, init), task, last.service, last.count, t);
    }
  }

  ghost predicate NoNameTwice(listing: seq<Listed>) {
    forall i, j :: 0 <= i < j < |listing| ==> listing[i].service.address != listing[j].service.address
  }

  lemma LastIsNew(listing: seq<Listed>)
    requires NoNameTwice(listing) && listing != []
    ensures var init, a := listing[..|listing| - 1], listing[|listing| - 1].service.address;
            && NoNameTwice(init) && a !in ListedNames(init)
            && ListedNames(listing) == ListedNames(init) + [a]
  {
    var n := |listing| - 1;
    ListedNamesAt(listing, n);
    assert ListedNames(listing) == ListedNames(listing)[..n] + [ListedNames(listing)[n]];
  }

  /** Loading a task of which nothing is listed gives its listing's names, in order. */
  lemma {:induction false} LoadNamesNew(m: Mem, task: string, listing: seq<Listed>)
    requires NoNameTwice(listing)
    requires NamesOf(m, task) == []
    ensures NamesOf(Load(m, task, listing), task) == ListedNames(listing)
  {
    if listing == [] {
    } else {
      var n := |listing| - 1;
      var init, last := listing[..n], listing[n];
      LastIsNew(listing);
      LoadNamesNew(m, task, init);
      PopulateNames(Load(m, task, init), task, last.service, last.count, task);
    }
  }

  lemma LoadNames(m: Mem, task: string, listing: seq<Listed>, t: string)
    requires NoNameTwice(listing)
    requires t == task ==> NamesOf(m, t) == [] || NamesOf(m, t) == ListedNames(listing)
    ensures NamesOf(Load(m, task, listing), t)
         == if t == task then ListedNames(listing) else NamesOf(m, t)
  {
    if t == task && NamesOf(m, t) == [] {
      LoadNamesNew(m, task, listing);
    } else {
      forall i | 0 <= i < |listing| && t == task ensures listing[i].service.address in NamesOf(m, t) {
        ListedNamesAt(listing, i);
      }
      LoadNamesKnown(m, task, listing, t);
    }
  }

  lemma ListingNames(order: Order, table: Table, t: string)
    requires Orders(order)
    ensures ListedNames(ListTask(order, table, t)) == order(ActiveAddresses(table, t))
    ensures var l := ListTask(order, table, t);
            NoNameTwice(l)
  {
    assert Enumerates(order(ActiveAddresses(table, t)), ActiveAddresses(table, t));
  }

  lemma {:induction false} LoadTasksNames(order: Order, m: Mem, table: Table, tasks: seq<string>, t: string)
    requires Orders(order) && NamesOf(m, t) == []
    ensures NamesOf(LoadTasks(order, m, table, tasks), t)
         == if t in tasks then order(ActiveAddresses(table, t)) else []
  {
    if tasks == [] {
    } else {
      var init, last := tasks[..|tasks| - 1], tasks[|tasks| - 1];
      LoadTasksNames(order, m, table, init, t);
      ListingNames(order, table, last);
      LoadNames(LoadTasks(order, m, table, init), last, ListTask(order, table, last), t);
      assert t in tasks <==> t in init || t == last;
    }
  }

  lemma {:induction false} PreserveNames(from: Mem, to: Mem, pending: set<string>, visit: seq<Pair>, t: string)
    requires forall q :: q in visit ==> Cached(from, q)
    requires forall q :: q in visit && PairKey(q) in pending ==> q.task != t
    ensures NamesOf(PreservePending(from, to, pending, visit), t) == NamesOf(to, t)
  {
    if visit == [] {
    } else {
      var init, q := visit[..|visit| - 1], visit[|visit| - 1];
      assert q in visit && Cached(from, q);
      PreserveNames(from, to, pending, init, t);
      PopulateNames(PreservePending(from, to, pending, init), q.task, EntryAt(EntriesOf(from, q.task), q.address),
                    CountOf(from, q.task, q.address), t);
    }
  }

  /** A loaded task without pending entries lists its active addresses in the store's order, so that is the order
      in which the new cache gives them out. */
  lemma FreshCacheOrder(env: Env, s: Registry, w: Plan, t: string)
    requires Orders(env.order) && Follows(s.cache, w)
    requires s.maxSize <= 0 || t in TopTasks(env.order, Synced(s, w).table, s.maxSize)
    requires t !in PendingTasks(s.cache, Synced(s, w).pending)
    ensures NamesOf(FreshCache(env, s, w), t) == env.order(ActiveAddresses(Synced(s, w).table, t))
  {
    var s2, empty := Synced(s, w), EmptyMem().(firewall := s.cache.firewall);
    var tasks := WarmTasks(env.order, s2.table, s.maxSize);
    var loaded := LoadTasks(env.order, empty, s2.table, tasks);
    LoadTasksNames(env.order, empty, s2.table, tasks, t);
    if t !in tasks { NothingToList(env.order, s2.table, s.maxSize, t); }
    MarkedArePending(s.cache, s2.pending, w.carried);
    forall q | q in w.carried && PairKey(q) in s2.pending ensures q.task != t {
      assert q.task in MarkedTasks(s2.pending, w.carried);
    }
    PreserveNames(s.cache, loaded, s2.pending, w.carried, t);
  }

  lemma NothingToList(order: Order, table: Table, maxSize: int, t: string)
    requires Orders(order) && maxSize <= 0 && t !in WarmTasks(order, table, maxSize)
    ensures order(ActiveAddresses(table, t)) == []
  {
    AllTasksLoaded(order, table, maxSize);
    var names := order(ActiveAddresses(table, t));
    assert Enumerates(names, ActiveAddresses(table, t));
    assert ActiveAddresses(table, t) == {};
    EnumerationSize(names, {});
  }

  // ---------------------------------------------------------------------------
  // A warm settles what is pending
  // ---------------------------------------------------------------------------

  lemma SoonerDiffers(visit: seq<Pair>, q: Pair, p: Pair)
    requires Sooner(visit, q, p) && forall i, j :: 0 <= i < j < |visit| ==> visit[i] != visit[j]
    ensures q in visit && q != p
  {
    var i, j :| 0 <= i < j < |visit| && visit[i] == q && visit[j] == p;
  }

  /** A registration that is stored, or cached under a mark no other cached pair has, is stored after a warm whose
      retry of it succeeds. */
  lemma RetrySettles(env: Env, s: Registry, w: Plan, p: Pair)
    requires Orders(env.order) && Follows(s.cache, w) && Accounted(s, p) && w.retriesOk(p)
    requires forall q :: Cached(s.cache, q) && PairKey(q) == PairKey(p) ==> q == p
    ensures IsActive(Warm(env, s, w).table, p)
  {
    SyncedRow(s, w, p);
    if !IsActive(s.table, p) {
      assert Cached(s.cache, p) && PairKey(p) in s.pending;
      forall q | Sooner(w.retries, q, p) ensures q in w.retries && q != p { SoonerDiffers(w.retries, q, p); }
      assert Written(s, w, p);
    }
  }
}
