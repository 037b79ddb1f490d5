/** The two registries as objects, proved against the functions of `MemoryRegistry` and
    `StoreBacked`. */
module RegistryObjects {
  import opened Options
  import opened Strings
  import opened Selection
  import opened Firewall
  import MR = MemoryRegistry
  import opened ServiceStore
  import SB = StoreBacked
  import Runs = StoreBackedRuns
  import WarmOutcomes

  lemma {:induction false} UpsertFirst(entries: seq<Service>, i: nat, e: Service)
    requires i <= |entries|
    requires forall j :: 0 <= j < i ==> entries[j].address != e.address
    requires i < |entries| ==> entries[i].address == e.address
    ensures MR.Upsert(entries, e) == if i < |entries| then entries[i := e] else entries + [e]
  {
    if i == 0 {
    } else {
      UpsertFirst(entries[1..], i - 1, e);
    }
  }

  /** Finds the address and updates its entry, or appends one. */
  method UpsertEntry(entries: seq<Service>, e: Service) returns (r: seq<Service>, found: bool)
    ensures r == MR.Upsert(entries, e)
    ensures found == MR.HasAddress(entries, e.address)
  {
    for i := 0 to |entries|
      invariant forall j :: 0 <= j < i ==> entries[j].address != e.address
    {
      if entries[i].address == e.address {
        UpsertFirst(entries, i, e);
        return entries[i := e], true;
      }
    }
    UpsertFirst(entries, |entries|, e);
    return entries + [e], false;
  }

  /** Keeps the entries the requestor may reach. */
  method FilterEntries(rules: seq<Rule>, destOf: string -> Ip, requestor: Ip, entries: seq<Service>)
    returns (allowed: seq<Service>)
    ensures allowed == MR.Permit(rules, destOf, requestor, entries)
  {
    allowed := [];
    for i := 0 to |entries|
      invariant allowed == MR.Permit(rules, destOf, requestor, entries[..i])
    {
      assert entries[..i + 1][..i] == entries[..i];
      var dest := destOf(entries[i].address);
      if dest != NoIp && Allowed(rules, requestor, dest) {
        allowed := allowed + [entries[i]];
      }
    }
    assert entries[..|entries|] == entries;
  }

  /** The slot under the cursor, by running sum. */
  method PickSlot(allowed: seq<Service>, cursor: nat) returns (address: string)
    requires allowed != []
    ensures Pool(allowed) != [] && address == Pool(allowed)[cursor % |Pool(allowed)|]
  {
    PoolPrefix(allowed, 0);
    var total := TotalServiceWeight(allowed);
    var ok;
    address, ok := SelectWeightedAddress(allowed, cursor % total);
  }

  class Cache {
    var services: map<string, seq<Service>>
    var cursor: map<string, nat>
    var counts: map<string, nat>
    var queries: nat
    var firewall: Option<seq<Rule>>

    function View(): MR.Mem
      reads this
    {
      MR.Mem(services, cursor, counts, queries, firewall)
    }

    constructor ()
      ensures View() == MR.EmptyMem()
    {
      services, cursor, counts, queries, firewall := map[], map[], map[], 0, None;
    }

    method Put(task: string, e: Service)
      modifies this`services, this`cursor
      ensures View() == MR.Put(old(View()), task, e)
    {
      var entries := if task in services then services[task] else [];
      var updated, found := UpsertEntry(entries, e);
      services := services[task := updated];
      if !found && task !in cursor { cursor := cursor[task := 0]; }
    }

    method RegisterWithCapacity(task: string, address: string, capacity: int, now: int)
      modifies this`services, this`cursor
      ensures View() == MR.Register(old(View()), task, address, capacity, now)
      ensures forall x, y :: MR.Lists(View(), x, y)
                <==> MR.Lists(old(View()), x, y) || (x == Trim(task) && y == Trim(address) && x != "" && y != "")
    {
      var t, a := Trim(task), Trim(address);
      if t == "" || a == "" { return; }
      forall x, y
        ensures MR.Lists(MR.Put(View(), t, Service(a, now, Normalized(capacity))), x, y)
           <==> MR.Lists(View(), x, y) || (x == t && y == a)
      {
        MR.PutLists(View(), t, Service(a, now, Normalized(capacity)), x, y);
      }
      Put(t, Service(a, now, Normalized(capacity)));
    }

    method PopulateEntry(task: string, e: Service, count: nat)
      modifies this`services, this`cursor, this`counts
      ensures View() == MR.Populate(old(View()), task, e, count)
      ensures forall x, y :: MR.Lists(View(), x, y) <==> MR.Lists(old(View()), x, y) || (x == task && y == e.address)
      ensures MR.CountOf(View(), task, e.address) == count
    {
      forall x, y
        ensures MR.Lists(MR.Populate(View(), task, e, count), x, y)
           <==> MR.Lists(View(), x, y) || (x == task && y == e.address)
      {
        Runs.PopulateLists(View(), task, e, count, x, y);
      }
      Put(task, e.(capacity := Normalized(e.capacity)));
      counts := counts[MR.Key(task, e.address) := count];
    }

    method PermittedEntries(destOf: string -> Ip, requestor: Ip, entries: seq<Service>) returns (allowed: seq<Service>)
      ensures allowed == MR.Candidates(firewall, destOf, requestor, entries)
    {
      allowed := entries;
      if firewall.Some? && requestor != NoIp {
        allowed := FilterEntries(firewall.value, destOf, requestor, entries);
      }
    }

    /** Advances the task's cursor and the query counters. */
    method Count(task: string, address: string)
      modifies this`cursor, this`counts, this`queries
      ensures View() == MR.Advance(old(View()), task, address)
    {
      cursor := cursor[task := (if task in cursor then cursor[task] else 0) + 1];
      var key := MR.Key(task, address);
      counts := counts[key := (if key in counts then counts[key] else 0) + 1];
      queries := queries + 1;
    }

    method GetServiceForRequestor(destOf: string -> Ip, task: string, requestor: Ip) returns (answer: MR.Answer)
      modifies this`cursor, this`counts, this`queries
      ensures View() == MR.Get(old(View()), destOf, task, requestor).mem
      ensures answer == MR.Get(old(View()), destOf, task, requestor).answer
    {
      var t := Trim(task);
      if t == "" { return MR.InvalidTask; }
      if t !in services || services[t] == [] { return MR.NotFound; }
      var allowed := PermittedEntries(destOf, requestor, services[t]);
      if allowed == [] { return MR.NoAllowedService; }
      var address := PickSlot(allowed, if t in cursor then cursor[t] else 0);
      Count(t, address);
      return MR.Answer.Served(address);
    }

    /** Loads a listing entry by entry. */
    method LoadListing(task: string, listing: seq<Listed>)
      modifies this`services, this`cursor, this`counts
      ensures View() == SB.Load(old(View()), task, listing)
    {
      ghost var before := View();
      for i := 0 to |listing|
        invariant View() == SB.Load(before, task, listing[..i])
      {
        assert listing[..i + 1][..i] == listing[..i];
        PopulateEntry(task, listing[i].service, listing[i].count);
      }
      assert listing[..|listing|] == listing;
    }
  }

  /** What a miss served from the store comes to, when some entry is allowed. */
  lemma SelectIs(env: SB.Env, s: SB.Registry, task: string, entries: seq<Service>, requestor: Ip, counted: bool,
                 allowed: seq<Service>, at: nat, address: string)
    requires entries != []
    requires forall i :: 0 <= i < |entries| ==> IsActive(s.table, Pair(task, entries[i].address))
    requires allowed == MR.Candidates(s.cache.firewall, env.storeDest, requestor, entries) && allowed != []
    requires at == if task in s.fallback then s.fallback[task] else 0
    requires Pool(allowed) != [] && address == Pool(allowed)[at % |Pool(allowed)|]
    ensures IsActive(s.table, Pair(task, address))
    ensures SB.SelectFromStore(env, s, task, entries, requestor, counted)
         == SB.ServePicked(s, task, address, at, counted)
  {
    SB.PickIsActive(env, s, task, entries, requestor, address);
  }

  class StoreBackedRegistry {
    const env: SB.Env
    var memCache: Cache
    var pending: set<string>
    var misses: map<string, nat>
    var fallback: map<string, nat>
    var threshold: nat
    var maxSize: int
    var table: Table  // what the store holds

    function View(): SB.Registry
      reads this, memCache
    {
      SB.Registry(memCache.View(), pending, misses, fallback, threshold, maxSize, table)
    }

    constructor (env: SB.Env, table: Table, maxSize: int)
      ensures this.env == env && fresh(memCache)
      ensures View() == SB.Registry(MR.EmptyMem(), {}, map[], map[], 1, maxSize, table)
    {
      this.env := env;
      memCache := new Cache();
      pending, misses, fallback, threshold := {}, map[], map[], 1;
      this.maxSize, this.table := maxSize, table;
    }

    method RegisterWithCapacity(task: string, address: string, capacity: int, now: int, stored: bool)
      modifies this`table, this`pending, memCache
      ensures View() == SB.Register(old(View()), task, address, capacity, now, stored)
      ensures Trim(task) != "" && Trim(address) != "" ==>
                Runs.Accounted(View(), Pair(Trim(task), Trim(address)))
    {
      Runs.RegisterEffect(View(), task, address, capacity, now, stored, Pair("", ""));
      var t, a := Trim(task), Trim(address);
      if t == "" || a == "" { return; }
      memCache.RegisterWithCapacity(t, a, Normalized(capacity), now);
      if !stored {
        pending := pending + {MR.Key(t, a)};
        return;
      }
      table := ServiceStore.Register(table, Pair(t, a), Service(a, now, Normalized(capacity)), 0);
      pending := pending - {MR.Key(t, a)};
    }

    method ShouldAdmitTaskOnMiss(task: string) returns (admit: bool)
      modifies this`misses
      ensures (View(), admit) == SB.CountMiss(old(View()), task)
    {
      if threshold <= 1 { return true; }
      var n := (if task in misses then misses[task] else 0) + 1;
      misses := misses[task := n];
      return n >= threshold;
    }

    method SelectFromStoreEntries(task: string, entries: seq<Service>, requestor: Ip, counted: bool)
      returns (answer: MR.Answer)
      requires entries != []
      requires forall i :: 0 <= i < |entries| ==> IsActive(table, Pair(task, entries[i].address))
      modifies this`fallback, this`table
      ensures View() == SB.SelectFromStore(env, old(View()), task, entries, requestor, counted).state
      ensures answer == SB.SelectFromStore(env, old(View()), task, entries, requestor, counted).answer
    {
      ghost var before := View();
      var allowed := memCache.PermittedEntries(env.storeDest, requestor, entries);
      if allowed == [] { return MR.NoAllowedService; }
      var at := if task in fallback then fallback[task] else 0;
      var address := PickSlot(allowed, at);
      SelectIs(env, before, task, entries, requestor, counted, allowed, at, address);
      fallback := fallback[task := at + 1];
      if !counted { return MR.StoreError; }
      table := IncrementQueryCount(table, Pair(task, address));
      return MR.Answer.Served(address);
    }

    method GetServiceForRequestor(task: string, requestor: Ip, listed: bool, counted: bool) returns (answer: MR.Answer)
      requires Orders(env.order)
      modifies this`misses, this`fallback, this`table, memCache
      ensures View() == SB.Query(env, old(View()), task, requestor, listed, counted).state
      ensures answer == SB.Query(env, old(View()), task, requestor, listed, counted).answer
    {
      var t := Trim(task);
      if t == "" { return MR.InvalidTask; }
      answer := memCache.GetServiceForRequestor(env.cacheDest, t, requestor);
      if answer.Served? { return; }
      if !listed { return MR.StoreError; }
      var listing := ListTask(env.order, table, t);
      if listing == [] { return MR.NotFound; }
      var admit := ShouldAdmitTaskOnMiss(t);
      if !admit {
        SB.ListingIsActive(env.order, table, t);
        answer := SelectFromStoreEntries(t, SB.Services(listing), requestor, counted);
      } else {
        memCache.LoadListing(t, listing);
        misses := misses - {t};
        answer := memCache.GetServiceForRequestor(env.cacheDest, t, requestor);
      }
    }

    /** Writes one cached entry to the store and clears its mark. */
    method WriteEntry(p: Pair)
      requires SB.Cached(memCache.View(), p)
      modifies this`table, this`pending
      ensures View() == SB.WriteBack(old(View()), p)
    {
      var m := memCache.View();
      var entry := MR.EntryAt(MR.EntriesOf(m, p.task), p.address);
      table := ServiceStore.Register(table, p, entry, MR.CountOf(m, p.task, p.address));
      pending := pending - {SB.PairKey(p)};
    }

    method SyncQueryCountsToDB(visit: seq<Pair>, ok: Pair -> bool)
      requires forall p :: p in visit ==> SB.Cached(memCache.View(), p)
      modifies this`table, this`pending
      ensures View() == SB.SyncCounts(old(View()), visit, ok)
    {
      ghost var before := View();
      for i := 0 to |visit|
        invariant memCache.View() == before.cache
        invariant View() == SB.SyncCounts(before, visit[..i], ok)
      {
        assert visit[..i + 1][..i] == visit[..i];
        var p := visit[i];
        assert p in visit;
        if MR.CountOf(memCache.View(), p.task, p.address) > 0 && ok(p) { WriteEntry(p); }
      }
      assert visit[..|visit|] == visit;
    }

    method SyncPendingRegistrations(visit: seq<Pair>, ok: Pair -> bool)
      requires forall p :: p in visit ==> SB.Cached(memCache.View(), p)
      modifies this`table, this`pending
      ensures View() == SB.SyncPending(old(View()), visit, ok)
    {
      ghost var before := View();
      for i := 0 to |visit|
        invariant memCache.View() == before.cache
        invariant View() == SB.SyncPending(before, visit[..i], ok)
      {
        assert visit[..i + 1][..i] == visit[..i];
        var p := visit[i];
        assert p in visit;
        if SB.PairKey(p) in pending && ok(p) { WriteEntry(p); }
      }
      assert visit[..|visit|] == visit;
    }

    /** Carries pending entries over into the new cache. */
    method PreservePendingEntries(to: Cache, visit: seq<Pair>)
      requires to != memCache
      requires forall p :: p in visit ==> SB.Cached(memCache.View(), p)
      modifies to
      ensures to.View() == SB.PreservePending(memCache.View(), old(to.View()), pending, visit)
    {
      ghost var before := to.View();
      var m := memCache.View();
      for i := 0 to |visit|
        invariant memCache.View() == m
        invariant to.View() == SB.PreservePending(m, before, pending, visit[..i])
      {
        assert visit[..i + 1][..i] == visit[..i];
        var p := visit[i];
        assert p in visit;
        if SB.PairKey(p) in pending {
          to.PopulateEntry(p.task, MR.EntryAt(MR.EntriesOf(m, p.task), p.address), MR.CountOf(m, p.task, p.address));
        }
      }
      assert visit[..|visit|] == visit;
    }

    /** Loads the services of the given tasks into a cache. */
    method LoadInto(to: Cache, tasks: seq<string>)
      requires Orders(env.order)
      modifies to
      ensures to.View() == SB.LoadTasks(env.order, old(to.View()), table, tasks)
    {
      ghost var before := to.View();
      for i := 0 to |tasks|
        invariant to.View() == SB.LoadTasks(env.order, before, table, tasks[..i])
      {
        assert tasks[..i + 1][..i] == tasks[..i];
        to.LoadListing(tasks[i], ListTask(env.order, table, tasks[i]));
      }
      assert tasks[..|tasks|] == tasks;
    }

    /** Copies the cursors of the tasks that the new cache has. */
    method CopyRoundRobinState(to: Cache)
      requires to != memCache
      modifies to`cursor
      ensures to.View() == SB.CopyCursors(memCache.View(), old(to.View()))
    {
      ghost var before := to.View();
      var from := memCache.View();
      var todo := from.cursor.Keys;
      while todo != {}
        invariant todo <= from.cursor.Keys && memCache.View() == from
        invariant to.View() == before.(cursor := to.cursor)
        invariant forall t :: t in to.cursor
                    <==> t in before.cursor || (t in from.cursor && t !in todo && t in before.services)
        invariant forall t :: t in to.cursor ==>
                    to.cursor[t] == if t in from.cursor && t !in todo && t in before.services then from.cursor[t]
                                    else MR.CursorOf(before, t)
      {
        var t :| t in todo;
        if t in to.services { to.cursor := to.cursor[t := from.cursor[t]]; }
        todo := todo - {t};
      }
      assert to.cursor == SB.CopyCursors(from, before).cursor;
    }

    /** Writes back what it can, builds a new cache from the store, and swaps it in; when the store
        cannot be listed the current cache stays. */
    method WarmCacheFromDB(w: SB.Plan) returns (ok: bool)
      requires Orders(env.order) && SB.Follows(memCache.View(), w)
      modifies this`table, this`pending, this`memCache
      ensures View() == SB.Warm(env, old(View()), w)
      ensures ok == w.listed && (if ok then fresh(memCache) else memCache == old(memCache))
      ensures ok && maxSize <= 0 ==>
                forall p :: IsActive(table, p) ==> MR.Lists(memCache.View(), p.task, p.address)
    {
      ghost var before := View();
      SyncQueryCountsToDB(w.counts, w.countsOk);
      SyncPendingRegistrations(w.retries, w.retriesOk);
      assert View() == SB.Synced(before, w);
      if !w.listed { return false; }
      var newCache := new Cache();
      newCache.firewall := memCache.firewall;
      LoadInto(newCache, SB.WarmTasks(env.order, table, maxSize));
      PreservePendingEntries(newCache, w.carried);
      CopyRoundRobinState(newCache);
      assert newCache.View() == SB.FreshCache(env, before, w);
      memCache := newCache;
      LoadsAll(env, before, w);
      return true;
    }
  }

  lemma LoadsAll(env: SB.Env, s: SB.Registry, w: SB.Plan)
    requires Orders(env.order) && SB.Follows(s.cache, w) && w.listed
    ensures s.maxSize <= 0 ==>
              forall p :: IsActive(SB.Warm(env, s, w).table, p) ==> SB.Cached(SB.Warm(env, s, w).cache, p)
  {
    if s.maxSize <= 0 {
      forall p | IsActive(SB.Warm(env, s, w).table, p) ensures SB.Cached(SB.Warm(env, s, w).cache, p) {
        WarmOutcomes.UnboundedWarmLoadsAll(env, s, w, p);
      }
    }
  }

  lemma ListedPick(order: Order, table: Table, task: string, address: string)
    requires Orders(order) && address in Pool(SB.Services(ListTask(order, table, task)))
    ensures IsActive(table, Pair(task, address))
  {
    SB.ListingIsActive(order, table, task);
    MR.PoolMembers(SB.Services(ListTask(order, table, task)), address);
  }

  datatype Picked = Missing | Failed | Found(address: string, count: nat)

  /** The store's own weighted selection, with a cursor that wraps at the total weight. */
  class PostgresStore {
    const order: Order
    var table: Table
    var roundRobinIndex: map<string, nat>

    ghost function At(task: string): nat
      reads this
    {
      if task in roundRobinIndex then roundRobinIndex[task] else 0
    }

    constructor (order: Order, table: Table)
      ensures this.order == order && this.table == table && roundRobinIndex == map[]
    {
      this.order, this.table, roundRobinIndex := order, table, map[];
    }

    /** The service the task's cursor points at, and the wrapped cursor after it. */
    method NextSlot(task: string) returns (p: Pair, next: nat)
      requires Orders(order) && ListTask(order, table, task) != []
      ensures p == PickedPair(order, table, task, At(task)) && IsActive(table, p)
      ensures next == NextWrapped(At(task), |TaskPool(order, table, task)|)
    {
      var entries := SB.Services(ListTask(order, table, task));
      var total := TotalServiceWeight(entries);
      var slot := (if task in roundRobinIndex then roundRobinIndex[task] else 0) % total;
      var chosen, ok := SelectWeightedAddress(entries, slot);
      p, next := Pair(task, chosen), (slot + 1) % total;
      PickedIsActive(order, table, task, At(task));
    }

    /** Picks, advances the cursor and then counts the query; the last step may fail. */
    method GetService(task: string, counted: bool) returns (r: Picked)
      requires Orders(order)
      modifies this`table, this`roundRobinIndex
      ensures r.Missing? <==> old(ListTask(order, table, task)) == []
      ensures r.Missing? ==> table == old(table) && roundRobinIndex == old(roundRobinIndex)
      ensures !r.Missing? ==>
                var w := |TaskPool(order, old(table), task)|;
                roundRobinIndex == old(roundRobinIndex)[task := NextWrapped(old(At(task)), w)]
      ensures !r.Missing? ==>
                var p := PickedPair(order, old(table), task, old(At(task)));
                && old(IsActive(table, p))
                && (if counted then r == Found(p.address, old(table[p].count) + 1) else r == Failed)
                && table == (if counted then IncrementQueryCount(old(table), p) else old(table))
      ensures !r.Missing? && counted ==> Total(order, table, task) == old(Total(order, table, task)) + 1
    {
      if ListTask(order, table, task) == [] { return Missing; }
      var p, next := NextSlot(task);
      roundRobinIndex := roundRobinIndex[task := next];
      if !counted { return Failed; }
      IncrementRaisesTotal(order, table, p, task);
      table := IncrementQueryCount(table, p);
      return Found(p.address, table[p].count);
    }
  }

  /** The task's addresses in the store's order, each as often as it weighs. */
  function TaskPool(order: Order, table: Table, task: string): (pool: seq<string>)
    requires Orders(order) && ListTask(order, table, task) != []
    ensures pool != []
  {
    PoolPrefix(SB.Services(ListTask(order, table, task)), 0);
    Pool(SB.Services(ListTask(order, table, task)))
  }

  /** The service a cursor points at. */
  function PickedPair(order: Order, table: Table, task: string, cursor: nat): Pair
    requires Orders(order) && ListTask(order, table, task) != []
  {
    Pair(task, TaskPool(order, table, task)[cursor % |TaskPool(order, table, task)|])
  }

  lemma PickedIsActive(order: Order, table: Table, task: string, cursor: nat)
    requires Orders(order) && ListTask(order, table, task) != []
    ensures IsActive(table, PickedPair(order, table, task, cursor))
  {
    var pool := TaskPool(order, table, task);
    ListedPick(order, table, task, pool[cursor % |pool|]);
  }
}
