/** Every cache the registry can reach lists an address once per task, so its rotation is fair. */
module StoreBackedFair {
  import opened Strings
  import opened Selection
  import opened Firewall
  import opened MemoryRegistry
  import opened ServiceStore
  import opened StoreBacked
  import opened StoreBackedRuns

  /** No task lists an address twice. */
  ghost predicate ListsOnce(m: Mem) {
    forall t :: t in m.services ==> DistinctAddresses(m.services[t])
  }

  lemma PutOnce(m: Mem, task: string, e: Service)
    requires ListsOnce(m)
    ensures ListsOnce(Put(m, task, e))
  {
    UpsertEffect(EntriesOf(m, task), e);
  }

  lemma PopulateOnce(m: Mem, task: string, e: Service, count: nat)
    requires ListsOnce(m)
    ensures ListsOnce(Populate(m, task, e, count))
  {
    PutOnce(m, task, e.(capacity := Normalized(e.capacity)));
  }

  lemma {:induction false} LoadOnce(m: Mem, task: string, listing: seq<Listed>)
    requires ListsOnce(m)
    ensures ListsOnce(Load(m, task, listing))
  {
    if listing == [] {
    } else {
      var init, last := listing[..|listing| - 1], listing[|listing| - 1];
      LoadOnce(m, task, init);
      PopulateOnce(Load(m, task, init), task, last.service, last.count);
    }
  }

  lemma {:induction false} LoadTasksOnce(order: Order, m: Mem, table: Table, tasks: seq<string>)
    requires Orders(order) && ListsOnce(m)
    ensures ListsOnce(LoadTasks(order, m, table, tasks))
  {
    if tasks == [] {
    } else {
      var init, last := tasks[..|tasks| - 1], tasks[|tasks| - 1];
      LoadTasksOnce(order, m, table, init);
      LoadOnce(LoadTasks(order, m, table, init), last, ListTask(order, table, last));
    }
  }

  lemma {:induction false} PreserveOnce(from: Mem, to: Mem, pending: set<string>, visit: seq<Pair>)
    requires forall q :: q in visit ==> Cached(from, q)
    requires ListsOnce(to)
    ensures ListsOnce(PreservePending(from, to, pending, visit))
  {
    if visit == [] {
    } else {
      var init, q := visit[..|visit| - 1], visit[|visit| - 1];
      assert q in visit && Cached(from, q);
      PreserveOnce(from, to, pending, init);
      PopulateOnce(PreservePending(from, to, pending, init), q.task, EntryAt(EntriesOf(from, q.task), q.address),
                   CountOf(from, q.task, q.address));
    }
  }

  lemma WarmOnce(env: Env, s: Registry, w: Plan)
    requires Orders(env.order) && Follows(s.cache, w) && ListsOnce(s.cache)
    ensures ListsOnce(Warm(env, s, w).cache)
  {
    var s2, empty := Synced(s, w), EmptyMem().(firewall := s.cache.firewall);
    var tasks := WarmTasks(env.order, s2.table, s.maxSize);
    LoadTasksOnce(env.order, empty, s2.table, tasks);
    PreserveOnce(s.cache, LoadTasks(env.order, empty, s2.table, tasks), s2.pending, w.carried);
  }

  lemma MissOnce(env: Env, s: Registry, t: string, requestor: Ip, counted: bool)
    requires Orders(env.order) && ListTask(env.order, s.table, t) != [] && ListsOnce(s.cache)
    ensures ListsOnce(ServeMiss(env, s, t, requestor, counted).state.cache)
  {
    var listing := ListTask(env.order, s.table, t);
    var (s1, admit) := CountMiss(s, t);
    if admit {
      LoadOnce(s.cache, t, listing);
      GetKeepsListing(Load(s.cache, t, listing), env.cacheDest, t, requestor);
    } else {
      ListingIsActive(env.order, s.table, t);
      SelectEffect(env, s1, t, Services(listing), requestor, counted, Pair("", ""));
    }
  }

  lemma QueryOnce(env: Env, s: Registry, task: string, requestor: Ip, listed: bool, counted: bool)
    requires Orders(env.order) && ListsOnce(s.cache)
    ensures ListsOnce(Query(env, s, task, requestor, listed, counted).state.cache)
  {
    var t := Trim(task);
    QueryCases(env, s, task, requestor, listed, counted);
    GetKeepsListing(s.cache, env.cacheDest, t, requestor);
    if ListTask(env.order, s.table, t) != [] {
      MissOnce(env, s, t, requestor, counted);
    }
  }

  lemma StepOnce(env: Env, s: Registry, e: Event)
    requires Orders(env.order) && Possible(s, e) && ListsOnce(s.cache)
    ensures ListsOnce(Step(env, s, e).cache)
  {
    match e
    case Registration(task, address, capacity, now, stored) =>
      var t, a := Trim(Trim(task)), Trim(Trim(address));
      PutOnce(s.cache, t, Service(a, now, Normalized(Normalized(capacity))));
    case Lookup(task, requestor, listed, counted) => QueryOnce(env, s, task, requestor, listed, counted);
    case WarmCycle(plan) => WarmOnce(env, s, plan);
    case FirewallChange(rules) =>
  }

  /** Over every run, no cached task ever lists an address twice. */
  lemma {:induction false} RunListsOnce(env: Env, s: Registry, es: seq<Event>)
    requires Orders(env.order) && PossibleRun(env, s, es) && ListsOnce(s.cache)
    ensures ListsOnce(Run(env, s, es).cache)
    decreases |es|
  {
    if es == [] {
    } else {
      StepOnce(env, s, es[0]);
      RunListsOnce(env, Step(env, s, es[0]), es[1..]);
    }
  }

  /** In every state that a registry can reach from an empty cache, as many consecutive queries of the cache
      as the permitted entries of a task weigh together give out each permitted address exactly its weight
      times. */
  lemma ReachableQueriesAreFair(env: Env, s: Registry, es: seq<Event>, task: string, requestor: Ip, i: nat)
    requires Orders(env.order) && s.cache.services == map[] && PossibleRun(env, s, es)
    requires Trim(task) != ""
    requires var m := Run(env, s, es).cache;
             i < |Candidates(m.firewall, env.cacheDest, requestor, EntriesOf(m, Trim(task)))|
    ensures var m := Run(env, s, es).cache;
            var allowed := Candidates(m.firewall, env.cacheDest, requestor, EntriesOf(m, Trim(task)));
            multiset(AddressesIn(Answers(m, env.cacheDest, task, requestor, |Pool(allowed)|)))[allowed[i].address]
              == Weight(allowed[i])
  {
    RunListsOnce(env, s, es);
    QueriesAreFair(Run(env, s, es).cache, env.cacheDest, task, requestor, i);
  }
}
