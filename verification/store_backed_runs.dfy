/** Properties of every run of the store-backed registry. */
module StoreBackedRuns {
  import opened Options
  import opened Strings
  import opened Selection
  import opened Firewall
  import opened MemoryRegistry
  import opened ServiceStore
  import opened StoreBacked

  datatype Event =
    | Registration(task: string, address: string, capacity: int, now: int, stored: bool)
    | Lookup(task: string, requestor: Ip, listed: bool, counted: bool)
    | WarmCycle(plan: Plan)
    | FirewallChange(rules: Option<seq<Rule>>)

  ghost predicate Possible(s: Registry, e: Event) {
    e.WarmCycle? ==> Follows(s.cache, e.plan)
  }

  function Step(env: Env, s: Registry, e: Event): Registry
    requires Orders(env.order) && Possible(s, e)
  {
    match e
    case Registration(task, address, capacity, now, stored) =>
      StoreBacked.Register(s, task, address, capacity, now, stored)
    case Lookup(task, requestor, listed, counted) => Query(env, s, task, requestor, listed, counted).state
    case WarmCycle(plan) => Warm(env, s, plan)
    case FirewallChange(rules) => s.(cache := s.cache.(firewall := rules))
  }

  ghost predicate PossibleRun(env: Env, s: Registry, es: seq<Event>)
    requires Orders(env.order)
    decreases |es|
  {
    es == [] || (Possible(s, es[0]) && PossibleRun(env, Step(env, s, es[0]), es[1..]))
  }

  function Run(env: Env, s: Registry, es: seq<Event>): Registry
    requires Orders(env.order) && PossibleRun(env, s, es)
    decreases |es|
  {
    if es == [] then s else Run(env, Step(env, s, es[0]), es[1..])
  }

  // ---------------------------------------------------------------------------
  // No lost registration
  // ---------------------------------------------------------------------------

  /** The registration is active in the store, or it is cached and marked for another attempt. */
  ghost predicate Accounted(s: Registry, p: Pair) {
    IsActive(s.table, p) || (Cached(s.cache, p) && PairKey(p) in s.pending)
  }

  /** No other pair of `pairs` shares the pending mark of `p`. */
  ghost predicate Unshared(pairs: set<Pair>, p: Pair) {
    forall q :: q in pairs && PairKey(q) == PairKey(p) ==> q == p
  }

  /** The registration is active in the store, or it is cached under a mark of its own. */
  ghost predicate Held(s: Registry, pairs: set<Pair>, p: Pair) {
    IsActive(s.table, p) || (Accounted(s, p) && Unshared(pairs, p))
  }

  /** Only pairs of `pairs` are active or cached. */
  ghost predicate Within(s: Registry, pairs: set<Pair>) {
    && (forall p :: IsActive(s.table, p) ==> p in pairs)
    && (forall p :: Cached(s.cache, p) ==> p in pairs)
  }

  /** The pair an event registers, after trimming; an empty name registers nothing. */
  predicate Registers(e: Event, p: Pair) {
    && e.Registration?
    && p == Pair(Trim(e.task), Trim(e.address))
    && p.task != "" && p.address != ""
  }

  lemma WriteBackKeeps(s: Registry, q: Pair, pairs: set<Pair>, p: Pair)
    requires Within(s, pairs)
    requires Cached(s.cache, q)
    ensures Held(s, pairs, p) ==> Held(WriteBack(s, q), pairs, p)
    ensures Within(WriteBack(s, q), pairs)
  {
  }

  lemma {:induction false} SyncCountsKeeps(s: Registry, visit: seq<Pair>, ok: Pair -> bool, pairs: set<Pair>, p: Pair)
    requires Within(s, pairs)
    requires forall q :: q in visit ==> Cached(s.cache, q)
    ensures Held(s, pairs, p) ==> Held(SyncCounts(s, visit, ok), pairs, p)
    ensures Within(SyncCounts(s, visit, ok), pairs)
  {
    if visit == [] {
    } else {
      SyncCountsKeeps(s, visit[..|visit| - 1], ok, pairs, p);
      WriteBackKeeps(SyncCounts(s, visit[..|visit| - 1], ok), visit[|visit| - 1], pairs, p);
    }
  }

  lemma {:induction false} SyncPendingKeeps(s: Registry, visit: seq<Pair>, ok: Pair -> bool, pairs: set<Pair>, p: Pair)
    requires Within(s, pairs)
    requires forall q :: q in visit ==> Cached(s.cache, q)
    ensures Held(s, pairs, p) ==> Held(SyncPending(s, visit, ok), pairs, p)
    ensures Within(SyncPending(s, visit, ok), pairs)
  {
    if visit == [] {
    } else {
      SyncPendingKeeps(s, visit[..|visit| - 1], ok, pairs, p);
      WriteBackKeeps(SyncPending(s, visit[..|visit| - 1], ok), visit[|visit| - 1], pairs, p);
    }
  }

  lemma PopulateLists(m: Mem, task: string, e: Service, count: nat, t: string, a: string)
    ensures Lists(Populate(m, task, e, count), t, a) <==> Lists(m, t, a) || (t == task && a == e.address)
    ensures Populate(m, task, e, count).services.Keys == m.services.Keys + {task}
    ensures Populate(m, task, e, count).firewall == m.firewall
  {
    PutLists(m, task, e.(capacity := Normalized(e.capacity)), t, a);
  }

  ghost predicate InListing(listing: seq<Listed>, a: string) {
    exists i :: 0 <= i < |listing| && listing[i].service.address == a
  }

  lemma InListingAppend(init: seq<Listed>, last: Listed, a: string)
    ensures InListing(init + [last], a) <==> InListing(init, a) || last.service.address == a
  {
    if InListing(init, a) {
      var i :| 0 <= i < |init| && init[i].service.address == a;
      assert (init + [last])[i].service.address == a;
    }
    assert (init + [last])[|init|] == last;
  }

  /** Loading a listing lists its addresses under the task, and nothing else that was not there. */
  lemma {:induction false} LoadLists(m: Mem, task: string, listing: seq<Listed>, t: string, a: string)
    ensures Lists(Load(m, task, listing), t, a) <==> Lists(m, t, a) || (t == task && InListing(listing, a))
    ensures Load(m, task, listing).services.Keys == m.services.Keys + if listing == [] then {} else {task}
    ensures Load(m, task, listing).firewall == m.firewall
  {
    if listing == [] {
    } else {
      var init, last := listing[..|listing| - 1], listing[|listing| - 1];
      LoadLists(m, task, init, t, a);
      PopulateLists(Load(m, task, init), task, last.service, last.count, t, a);
      assert listing == init + [last];
      InListingAppend(init, last, a);
    }
  }

  lemma {:induction false} LoadTasksLists(order: Order, m: Mem, table: Table, tasks: seq<string>, p: Pair)
    requires Orders(order)
    ensures Cached(LoadTasks(order, m, table, tasks), p) <==> Cached(m, p) || (p.task in tasks && IsActive(table, p))
    ensures LoadTasks(order, m, table, tasks).firewall == m.firewall
  {
    if tasks == [] {
    } else {
      var init, last := tasks[..|tasks| - 1], tasks[|tasks| - 1];
      LoadTasksLists(order, m, table, init, p);
      LoadLists(LoadTasks(order, m, table, init), last, ListTask(order, table, last), p.task, p.address);
      if p.task == last { ListTaskMembers(order, table, last, p.address); }
      assert p.task in tasks <==> p.task in init || p.task == last;
    }
  }

  /** Every visited pair with a pending mark is listed in the new cache. */
  lemma {:induction false} PreserveLists(from: Mem, to: Mem, pending: set<string>, visit: seq<Pair>, p: Pair)
    requires forall q :: q in visit ==> Cached(from, q)
    ensures Cached(PreservePending(from, to, pending, visit), p)
       <==> Cached(to, p) || (p in visit && PairKey(p) in pending)
    ensures PreservePending(from, to, pending, visit).firewall == to.firewall
  {
    if visit == [] {
    } else {
      var init, q := visit[..|visit| - 1], visit[|visit| - 1];
      PreserveLists(from, to, pending, init, p);
      assert q in visit && Cached(from, q);
      EntryAtAddress(EntriesOf(from, q.task), q.address);
      PopulateLists(PreservePending(from, to, pending, init), q.task, EntryAt(EntriesOf(from, q.task), q.address),
                    CountOf(from, q.task, q.address), p.task, p.address);
      assert p in visit <==> p in init || p == q;
    }
  }

  lemma ActiveTaskIsLoaded(order: Order, table: Table, maxSize: int, p: Pair)
    requires Orders(order) && IsActive(table, p) && maxSize <= 0
    ensures p.task in WarmTasks(order, table, maxSize)
  {
    assert Enumerates(order(ActiveTasks(table)), ActiveTasks(table));
    assert p.task in ActiveTasks(table);
  }

  /** What a successful warm leaves cached: the active pairs, of the busiest tasks if the cache is bounded, and the
      cached pairs whose writes are still pending, all of them and nothing else. */
  lemma FreshCacheLists(env: Env, s: Registry, w: Plan, p: Pair)
    requires Orders(env.order) && Follows(s.cache, w)
    ensures var s2 := Synced(s, w);
            Cached(FreshCache(env, s, w), p)
            <==> || (IsActive(s2.table, p) && (s.maxSize <= 0 || p.task in TopTasks(env.order, s2.table, s.maxSize)))
                 || (Cached(s.cache, p) && PairKey(p) in s2.pending)
    ensures FreshCache(env, s, w).firewall == s.cache.firewall
  {
    var s2, empty := Synced(s, w), EmptyMem().(firewall := s.cache.firewall);
    var tasks := WarmTasks(env.order, s2.table, s.maxSize);
    var loaded := LoadTasks(env.order, empty, s2.table, tasks);
    LoadTasksLists(env.order, empty, s2.table, tasks, p);
    PreserveLists(s.cache, loaded, s2.pending, w.carried, p);
    if IsActive(s2.table, p) && s.maxSize <= 0 { ActiveTaskIsLoaded(env.order, s2.table, s.maxSize, p); }
  }

  lemma SyncedKeeps(s: Registry, w: Plan, pairs: set<Pair>, p: Pair)
    requires Within(s, pairs) && Follows(s.cache, w)
    ensures Held(s, pairs, p) ==> Held(Synced(s, w), pairs, p)
    ensures Within(Synced(s, w), pairs)
  {
    SyncCountsKeeps(s, w.counts, w.countsOk, pairs, p);
    SyncPendingKeeps(SyncCounts(s, w.counts, w.countsOk), w.retries, w.retriesOk, pairs, p);
  }

  lemma WarmKeeps(env: Env, s: Registry, w: Plan, pairs: set<Pair>, p: Pair)
    requires Orders(env.order) && Follows(s.cache, w)
    requires Within(s, pairs)
    ensures Held(s, pairs, p) ==> Held(Warm(env, s, w), pairs, p)
    ensures Within(Warm(env, s, w), pairs)
  {
    SyncedKeeps(s, w, pairs, p);
    FreshCacheLists(env, s, w, p);
    forall q | Cached(FreshCache(env, s, w), q) ensures q in pairs {
      FreshCacheLists(env, s, w, q);
    }
  }

  lemma GetKeepsListing(m: Mem, destOf: string -> Ip, task: string, requestor: Ip)
    ensures Get(m, destOf, task, requestor).mem.services == m.services
    ensures Get(m, destOf, task, requestor).mem.firewall == m.firewall
  {
  }

  /** Serving from the store touches only the fallback cursor and one row's count. */
  lemma SelectEffect(env: Env, s: Registry, task: string, entries: seq<Service>, requestor: Ip, counted: bool, p: Pair)
    requires forall i :: 0 <= i < |entries| ==> IsActive(s.table, Pair(task, entries[i].address))
    requires entries != []
    ensures var s' := SelectFromStore(env, s, task, entries, requestor, counted).state;
            && s'.cache == s.cache && s'.pending == s.pending
            && (IsActive(s'.table, p) <==> IsActive(s.table, p))
            && (p in s'.table <==> p in s.table)
  {
    var allowed := Candidates(s.cache.firewall, env.storeDest, requestor, entries);
    if allowed != [] {
      PoolPrefix(allowed, 0);
      var cursor := if task in s.fallback then s.fallback[task] else 0;
      PickIsActive(env, s, task, entries, requestor, Pool(allowed)[cursor % |Pool(allowed)|]);
    }
  }

  lemma AdmitEffect(env: Env, s: Registry, t: string, requestor: Ip, p: Pair)
    requires Orders(env.order)
    ensures var m := Get(Load(s.cache, t, ListTask(env.order, s.table, t)), env.cacheDest, t, requestor).mem;
            && m.firewall == s.cache.firewall
            && (Cached(s.cache, p) ==> Cached(m, p))
            && (Cached(m, p) ==> Cached(s.cache, p) || IsActive(s.table, p))
  {
    var listing := ListTask(env.order, s.table, t);
    LoadLists(s.cache, t, listing, p.task, p.address);
    if t == p.task { ListTaskMembers(env.order, s.table, t, p.address); }
    GetKeepsListing(Load(s.cache, t, listing), env.cacheDest, t, requestor);
  }

  /** Everything cached is kept and every mark, active rows stay active, and only what is active is
      newly cached. */
  ghost predicate Preserves(s: Registry, s': Registry, p: Pair) {
    && s'.pending == s.pending && s'.cache.firewall == s.cache.firewall
    && (IsActive(s'.table, p) <==> IsActive(s.table, p))
    && (p in s'.table <==> p in s.table)
    && (Cached(s.cache, p) ==> Cached(s'.cache, p))
    && (Cached(s'.cache, p) ==> Cached(s.cache, p) || IsActive(s.table, p))
  }

  lemma MissEffect(env: Env, s: Registry, t: string, requestor: Ip, counted: bool, p: Pair)
    requires Orders(env.order) && ListTask(env.order, s.table, t) != []
    ensures Preserves(s, ServeMiss(env, s, t, requestor, counted).state, p)
  {
    var (s1, admit) := CountMiss(s, t);
    if admit {
      AdmitEffect(env, s, t, requestor, p);
    } else {
      ListingIsActive(env.order, s.table, t);
      SelectEffect(env, s1, t, Services(ListTask(env.order, s.table, t)), requestor, counted, p);
    }
  }

  lemma QueryCases(env: Env, s: Registry, task: string, requestor: Ip, listed: bool, counted: bool)
    requires Orders(env.order)
    ensures var t, s' := Trim(task), Query(env, s, task, requestor, listed, counted).state;
            || s' == s
            || s' == s.(cache := Get(s.cache, env.cacheDest, t, requestor).mem)
            || (ListTask(env.order, s.table, t) != [] && s' == ServeMiss(env, s, t, requestor, counted).state)
  {
  }

  lemma QueryEffect(env: Env, s: Registry, task: string, requestor: Ip, listed: bool, counted: bool, p: Pair)
    requires Orders(env.order)
    ensures Preserves(s, Query(env, s, task, requestor, listed, counted).state, p)
  {
    var t := Trim(task);
    QueryCases(env, s, task, requestor, listed, counted);
    if ListTask(env.order, s.table, t) != [] {
      MissEffect(env, s, t, requestor, counted, p);
    }
    GetKeepsListing(s.cache, env.cacheDest, t, requestor);
  }

  lemma RegisterEffect(s: Registry, task: string, address: string, capacity: int, now: int, stored: bool, q: Pair)
    ensures var s' := StoreBacked.Register(s, task, address, capacity, now, stored);
            var p := Pair(Trim(task), Trim(address));
            && (Cached(s'.cache, q) <==> Cached(s.cache, q) || (q == p && p.task != "" && p.address != ""))
            && (p.task != "" && p.address != "" ==> Accounted(s', p))
            && s'.cache.firewall == s.cache.firewall
  {
    TrimIdempotent(task);
    TrimIdempotent(address);
    var t, a := Trim(task), Trim(address);
    PutLists(s.cache, t, Service(a, now, Normalized(Normalized(capacity))), q.task, q.address);
    PutLists(s.cache, t, Service(a, now, Normalized(Normalized(capacity))), t, a);
  }

  lemma RegisterKeeps(s: Registry, e: Event, pairs: set<Pair>, p: Pair)
    requires e.Registration?
    requires Within(s, pairs)
    requires forall q :: Registers(e, q) ==> q in pairs
    ensures var s' := StoreBacked.Register(s, e.task, e.address, e.capacity, e.now, e.stored);
            && (Held(s, pairs, p) || (Registers(e, p) && Unshared(pairs, p)) ==> Held(s', pairs, p))
            && Within(s', pairs)
  {
    var s' := StoreBacked.Register(s, e.task, e.address, e.capacity, e.now, e.stored);
    var r := Pair(Trim(e.task), Trim(e.address));
    RegisterEffect(s, e.task, e.address, e.capacity, e.now, e.stored, p);
    assert r.task != "" && r.address != "" ==> Registers(e, r);
    forall q | Cached(s'.cache, q) ensures q in pairs {
      RegisterEffect(s, e.task, e.address, e.capacity, e.now, e.stored, q);
    }
  }

  lemma StepKeeps(env: Env, s: Registry, e: Event, pairs: set<Pair>, p: Pair)
    requires Orders(env.order) && Possible(s, e)
    requires Within(s, pairs)
    requires forall q :: Registers(e, q) ==> q in pairs
    ensures Held(s, pairs, p) || (Registers(e, p) && Unshared(pairs, p)) ==> Held(Step(env, s, e), pairs, p)
    ensures Within(Step(env, s, e), pairs)
  {
    match e
    case Registration(_, _, _, _, _) => RegisterKeeps(s, e, pairs, p);
    case Lookup(task, requestor, listed, counted) =>
      QueryEffect(env, s, task, requestor, listed, counted, p);
      forall q | Cached(Step(env, s, e).cache, q) || IsActive(Step(env, s, e).table, q) ensures q in pairs {
        QueryEffect(env, s, task, requestor, listed, counted, q);
      }
    case WarmCycle(plan) => WarmKeeps(env, s, plan, pairs, p);
    case FirewallChange(rules) =>
      forall q ensures Cached(Step(env, s, e).cache, q) <==> Cached(s.cache, q) {
      }
  }

  /** The pair is registered somewhere in the run. */
  ghost predicate RegisteredIn(es: seq<Event>, p: Pair) {
    exists i :: 0 <= i < |es| && Registers(es[i], p)
  }

  /** No lost registration: whatever registrations, lookups, warm cycles and firewall changes
      happen in whatever order, and whichever store accesses fail, every registered pair whose mark
      is its own ends up active in the store, or cached and marked to be written again. */
  lemma {:induction false} NoLostRegistration(env: Env, s: Registry, es: seq<Event>, pairs: set<Pair>, p: Pair)
    requires Orders(env.order) && PossibleRun(env, s, es)
    requires Within(s, pairs)
    requires forall q :: RegisteredIn(es, q) ==> q in pairs
    requires Held(s, pairs, p) || (RegisteredIn(es, p) && Unshared(pairs, p))
    ensures Held(Run(env, s, es), pairs, p)
    decreases |es|
  {
    if es == [] {
    } else {
      forall q | Registers(es[0], q) ensures q in pairs { assert RegisteredIn(es, q); }
      StepKeeps(env, s, es[0], pairs, p);
      forall q | RegisteredIn(es[1..], q) ensures q in pairs {
        var i :| 0 <= i < |es[1..]| && Registers(es[1..][i], q);
        assert Registers(es[i + 1], q);
      }
      if !Registers(es[0], p) && RegisteredIn(es, p) {
        var i :| 0 <= i < |es| && Registers(es[i], p);
        assert Registers(es[1..][i - 1], p);
      }
      NoLostRegistration(env, Step(env, s, es[0]), es[1..], pairs, p);
    }
  }

  // ---------------------------------------------------------------------------
  // Firewall safety
  // ---------------------------------------------------------------------------

  lemma StepKeepsFirewall(env: Env, s: Registry, e: Event)
    requires Orders(env.order) && Possible(s, e) && !e.FirewallChange?
    ensures Step(env, s, e).cache.firewall == s.cache.firewall
  {
    match e
    case Registration(task, address, capacity, now, stored) =>
      RegisterEffect(s, task, address, capacity, now, stored, Pair("", ""));
    case Lookup(task, requestor, listed, counted) =>
      QueryEffect(env, s, task, requestor, listed, counted, Pair("", ""));
    case WarmCycle(plan) => FreshCacheLists(env, s, plan, Pair("", ""));
  }

  lemma {:induction false} RunKeepsFirewall(env: Env, s: Registry, es: seq<Event>)
    requires Orders(env.order) && PossibleRun(env, s, es)
    requires forall i :: 0 <= i < |es| ==> !es[i].FirewallChange?
    ensures Run(env, s, es).cache.firewall == s.cache.firewall
    decreases |es|
  {
    if es == [] {
    } else {
      StepKeepsFirewall(env, s, es[0]);
      RunKeepsFirewall(env, Step(env, s, es[0]), es[1..]);
    }
  }

  /** A query never hands a known requestor an address whose destination, as the path that served
      it reads the address, the rules do not allow. */
  lemma QueryRespectsFirewall(env: Env, s: Registry, task: string, requestor: Ip, listed: bool, counted: bool)
    requires Orders(env.order)
    ensures var r := Query(env, s, task, requestor, listed, counted);
            r.answer.Served? && Filters(s.cache.firewall, requestor) ==>
              Reachable(s.cache.firewall.value, if r.path.ByCache? then env.cacheDest else env.storeDest,
                        requestor, r.answer.address)
  {
    var t := Trim(task);
    var listing := ListTask(env.order, s.table, t);
    var loaded := Load(s.cache, t, listing);
    GetSafe(s.cache, env.cacheDest, t, requestor);
    GetSafe(loaded, env.cacheDest, t, requestor);
    LoadLists(s.cache, t, listing, "", "");
    var (s1, admit) := CountMiss(s, t);
    if listing != [] && !admit {
      ListingIsActive(env.order, s.table, t);
      SelectRespectsFirewall(env, s1, t, Services(listing), requestor, counted);
    }
  }

  lemma SelectRespectsFirewall(env: Env, s: Registry, task: string, entries: seq<Service>, requestor: Ip, counted: bool)
    requires forall i :: 0 <= i < |entries| ==> IsActive(s.table, Pair(task, entries[i].address))
    requires entries != []
    ensures var r := SelectFromStore(env, s, task, entries, requestor, counted);
            && r.path == ByStore
            && (r.answer.Served? && Filters(s.cache.firewall, requestor) ==>
                 Reachable(s.cache.firewall.value, env.storeDest, requestor, r.answer.address))
  {
    var allowed := Candidates(s.cache.firewall, env.storeDest, requestor, entries);
    if allowed != [] {
      PoolPrefix(allowed, 0);
      var cursor := if task in s.fallback then s.fallback[task] else 0;
      PickIsActive(env, s, task, entries, requestor, Pool(allowed)[cursor % |Pool(allowed)|]);
    }
  }

  /** Firewall safety: once rules are set, they hold for every later query of a known requestor,
      through any number of cache swaps, admissions and misses served from the store. */
  lemma FirewallSafety(env: Env, s: Registry, rules: seq<Rule>, es: seq<Event>,
                       task: string, requestor: Ip, listed: bool, counted: bool)
    requires Orders(env.order)
    requires s.cache.firewall == Some(rules) && PossibleRun(env, s, es)
    requires forall i :: 0 <= i < |es| ==> !es[i].FirewallChange?
    requires requestor != NoIp
    ensures var r := Query(env, Run(env, s, es), task, requestor, listed, counted);
            r.answer.Served? ==>
              Reachable(rules, if r.path.ByCache? then env.cacheDest else env.storeDest, requestor, r.answer.address)
  {
    RunKeepsFirewall(env, s, es);
    QueryRespectsFirewall(env, Run(env, s, es), task, requestor, listed, counted);
  }

  /** The rules of a change bind every query from the change on, until the next one. */
  lemma FirewallSafetyFromChange(env: Env, s: Registry, rules: seq<Rule>, es: seq<Event>,
                                 task: string, requestor: Ip, listed: bool, counted: bool)
    requires Orders(env.order) && PossibleRun(env, s, [FirewallChange(Some(rules))] + es)
    requires forall i :: 0 <= i < |es| ==> !es[i].FirewallChange?
    requires requestor != NoIp
    ensures var r := Query(env, Run(env, s, [FirewallChange(Some(rules))] + es), task, requestor, listed, counted);
            r.answer.Served? ==>
              Reachable(rules, if r.path.ByCache? then env.cacheDest else env.storeDest, requestor, r.answer.address)
  {
    var all := [FirewallChange(Some(rules))] + es;
    assert all[1..] == es && all[0] == FirewallChange(Some(rules));
    FirewallSafety(env, Step(env, s, all[0]), rules, es, task, requestor, listed, counted);
  }
}
