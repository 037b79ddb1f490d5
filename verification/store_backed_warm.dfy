/** What a warm cycle does to the cache: it keeps the busiest tasks, and it does not disturb the
    rotation. */
module StoreBackedWarm {
  import opened Strings
  import opened Selection
  import opened Firewall
  import opened MemoryRegistry
  import opened ServiceStore
  import opened StoreBacked
  import opened StoreBackedRuns

  // ---------------------------------------------------------------------------
  // The bounded cache keeps the most queried tasks
  // ---------------------------------------------------------------------------

  function Names(tasks: seq<string>): set<string> {
    set t | t in tasks
  }

  lemma ActiveTaskListed(order: Order, table: Table, task: string)
    requires Orders(order)
    ensures task in ActiveTasks(table) <==> ListTask(order, table, task) != []
  {
    if task in ActiveTasks(table) {
      var p :| p in table && table[p].active && p.task == task;
      ListTaskMembers(order, table, task, p.address);
    }
    if ListTask(order, table, task) != [] {
      var a := ListTask(order, table, task)[0].service.address;
      ListTaskMembers(order, table, task, a);
      assert Pair(task, a) in table;
    }
  }

  lemma LoadActiveKeys(order: Order, m: Mem, table: Table, task: string)
    requires Orders(order) && task in ActiveTasks(table)
    ensures Load(m, task, ListTask(order, table, task)).services.Keys == m.services.Keys + {task}
  {
    LoadLists(m, task, ListTask(order, table, task), "", "");
    ActiveTaskListed(order, table, task);
  }

  lemma NamesAppend(tasks: seq<string>)
    requires tasks != []
    ensures Names(tasks) == Names(tasks[..|tasks| - 1]) + {tasks[|tasks| - 1]}
  {
    assert tasks == tasks[..|tasks| - 1] + [tasks[|tasks| - 1]];
  }

  lemma {:induction false} LoadTasksKeys(order: Order, m: Mem, table: Table, tasks: seq<string>)
    requires Orders(order)
    requires forall t :: t in tasks ==> t in ActiveTasks(table)
    ensures LoadTasks(order, m, table, tasks).services.Keys == m.services.Keys + Names(tasks)
  {
    if tasks == [] {
    } else {
      var init, last := tasks[..|tasks| - 1], tasks[|tasks| - 1];
      LoadTasksKeys(order, m, table, init);
      LoadActiveKeys(order, LoadTasks(order, m, table, init), table, last);
      NamesAppend(tasks);
    }
  }

  /** Tasks of the visited pairs that carry a pending mark. */
  function MarkedTasks(pending: set<string>, visit: seq<Pair>): set<string> {
    set p | p in visit && PairKey(p) in pending :: p.task
  }

  lemma MarkedTasksAppend(pending: set<string>, visit: seq<Pair>)
    requires visit != []
    ensures var init, q := visit[..|visit| - 1], visit[|visit| - 1];
            MarkedTasks(pending, visit) == MarkedTasks(pending, init) + if PairKey(q) in pending then {q.task} else {}
  {
    assert visit == visit[..|visit| - 1] + [visit[|visit| - 1]];
  }

  lemma {:induction false} PreserveKeys(from: Mem, to: Mem, pending: set<string>, visit: seq<Pair>)
    requires forall q :: q in visit ==> Cached(from, q)
    ensures PreservePending(from, to, pending, visit).services.Keys == to.services.Keys + MarkedTasks(pending, visit)
  {
    if visit == [] {
    } else {
      var init, q := visit[..|visit| - 1], visit[|visit| - 1];
      PreserveKeys(from, to, pending, init);
      assert q in visit && Cached(from, q);
      PopulateLists(PreservePending(from, to, pending, init), q.task, EntryAt(EntriesOf(from, q.task), q.address),
                    CountOf(from, q.task, q.address), "", "");
      MarkedTasksAppend(pending, visit);
    }
  }

  /** Tasks of the old cache with an entry whose write is still pending. */
  ghost function PendingTasks(m: Mem, pending: set<string>): set<string> {
    set t | t in m.services && HasPending(m, pending, t)
  }

  ghost predicate HasPending(m: Mem, pending: set<string>, t: string) {
    exists a :: Lists(m, t, a) && Key(t, a) in pending
  }

  lemma MarkedArePending(m: Mem, pending: set<string>, visit: seq<Pair>)
    requires Visits(m, visit)
    ensures MarkedTasks(pending, visit) == PendingTasks(m, pending)
  {
    forall t ensures t in MarkedTasks(pending, visit) <==> t in PendingTasks(m, pending) {
      if t in MarkedTasks(pending, visit) {
        var p :| p in visit && PairKey(p) in pending && p.task == t;
        assert Cached(m, p);
        assert Lists(m, t, p.address) && Key(t, p.address) in pending;
      }
      if t in PendingTasks(m, pending) {
        var a :| Lists(m, t, a) && Key(t, a) in pending;
        assert Cached(m, Pair(t, a)) && Pair(t, a) in visit;
      }
    }
  }

  /** Just after a successful warm of a bounded cache, the cached tasks are exactly the most
      queried ones of the store, as many as fit, plus the tasks with writes still pending; and no
      active task left out of the former is queried more than any of them. The totals are those
      after the cache's own counts were written back. */
  lemma WarmKeepsBusiest(env: Env, s: Registry, w: Plan)
    requires Orders(env.order) && Follows(s.cache, w)
    requires w.listed && s.maxSize > 0
    ensures var s' := Warm(env, s, w);
            var top := Names(TopTasks(env.order, s'.table, s.maxSize));
            && s'.cache.services.Keys == top + PendingTasks(s.cache, s'.pending)
            && top <= ActiveTasks(s'.table)
            && |TopTasks(env.order, s'.table, s.maxSize)|
               == (if s.maxSize <= |ActiveTasks(s'.table)| then s.maxSize else |ActiveTasks(s'.table)|)
            && (forall t, u :: t in top && u in ActiveTasks(s'.table) - top ==>
                  Total(env.order, s'.table, u) <= Total(env.order, s'.table, t))
  {
    var s2 := Synced(s, w);
    var tasks, empty := TopTasks(env.order, s2.table, s.maxSize), EmptyMem().(firewall := s.cache.firewall);
    TopTasksAreBusiest(env.order, s2.table, s.maxSize);
    LoadTasksKeys(env.order, empty, s2.table, tasks);
    PreserveKeys(s.cache, LoadTasks(env.order, empty, s2.table, tasks), s2.pending, w.carried);
    MarkedArePending(s.cache, s2.pending, w.carried);
  }

  // ---------------------------------------------------------------------------
  // Which marks the write-back passes clear
  // ---------------------------------------------------------------------------

  /** The cache has counted queries for the pair. */
  predicate Queried(m: Mem, q: Pair) {
    Cached(m, q) && CountOf(m, q.task, q.address) > 0
  }

  /** The mark survives the first pass unless the count of some pair of that key is written. */
  lemma {:induction false} SyncCountsMark(s: Registry, visit: seq<Pair>, ok: Pair -> bool, key: string)
    requires forall q :: q in visit ==> Cached(s.cache, q)
    ensures key in SyncCounts(s, visit, ok).pending
       <==> key in s.pending && !exists q :: q in visit && PairKey(q) == key && Queried(s.cache, q) && ok(q)
  {
    if visit == [] {
    } else {
      var init, last := visit[..|visit| - 1], visit[|visit| - 1];
      SyncCountsMark(s, init, ok, key);
      assert forall q :: q in visit <==> q in init || q == last;
    }
  }

  /** The mark survives the second pass unless the retry of some pair of that key succeeds. */
  lemma {:induction false} SyncPendingMark(s: Registry, visit: seq<Pair>, ok: Pair -> bool, key: string)
    requires forall q :: q in visit ==> Cached(s.cache, q)
    ensures key in SyncPending(s, visit, ok).pending
       <==> key in s.pending && !exists q :: q in visit && PairKey(q) == key && ok(q)
  {
    if visit == [] {
    } else {
      var init, last := visit[..|visit| - 1], visit[|visit| - 1];
      SyncPendingMark(s, init, ok, key);
      assert forall q :: q in visit <==> q in init || q == last;
    }
  }

  /** A warm cycle clears a mark exactly when the count of a pair of that key is written, or the retry of one
      succeeds. */
  lemma SyncedMark(s: Registry, w: Plan, key: string)
    requires Follows(s.cache, w)
    ensures key in Synced(s, w).pending
       <==> && key in s.pending
            && !exists q :: Cached(s.cache, q) && PairKey(q) == key
                            && ((Queried(s.cache, q) && w.countsOk(q)) || w.retriesOk(q))
  {
    var s1 := SyncCounts(s, w.counts, w.countsOk);
    SyncCountsMark(s, w.counts, w.countsOk, key);
    SyncPendingMark(s1, w.retries, w.retriesOk, key);
    assert forall q :: q in w.counts <==> q in w.retries;
  }

  // ---------------------------------------------------------------------------
  // Count write-back
  // ---------------------------------------------------------------------------

  /** The second pass writes the pair: its mark survives the first pass, its retry succeeds, and no pair of
      that key is retried with success before it. */
  ghost predicate Retried(s: Registry, w: Plan, p: Pair) {
    && PairKey(p) in s.pending && w.retriesOk(p)
    && (forall q :: q in w.counts && PairKey(q) == PairKey(p) ==> !(Queried(s.cache, q) && w.countsOk(q)))
    && (forall q :: Sooner(w.retries, q, p) && PairKey(q) == PairKey(p) ==> !w.retriesOk(q))
  }

  ghost predicate Sooner(visit: seq<Pair>, q: Pair, p: Pair) {
    exists i, j :: 0 <= i < j < |visit| && visit[i] == q && visit[j] == p
  }

  lemma SoonerThan(visit: seq<Pair>, i: nat, q: Pair)
    requires i < |visit| && forall j, k :: 0 <= j < k < |visit| ==> visit[j] != visit[k]
    ensures Sooner(visit, q, visit[i]) <==> q in visit[..i]
  {
    if q in visit[..i] {
      var j :| 0 <= j < i && visit[..i][j] == q;
      assert visit[j] == q;
    }
  }

  /** What the store counts for a pair after both passes: the cache's count if there is one and either pass
      writes it, and else what it counted before. */
  ghost function CountAfter(s: Registry, w: Plan, p: Pair): nat {
    if Queried(s.cache, p) && (w.countsOk(p) || Retried(s, w, p))
    then CountOf(s.cache, p.task, p.address) else StoreCount(s.table, p)
  }

  lemma WriteBackCount(s: Registry, q: Pair, p: Pair)
    requires Cached(s.cache, q)
    ensures StoreCount(WriteBack(s, q).table, p)
         == if q == p && CountOf(s.cache, p.task, p.address) > 0 then CountOf(s.cache, p.task, p.address)
            else StoreCount(s.table, p)
  {
  }

  lemma {:induction false} SyncCountsCount(s: Registry, visit: seq<Pair>, ok: Pair -> bool, p: Pair)
    requires forall q :: q in visit ==> Cached(s.cache, q)
    ensures StoreCount(SyncCounts(s, visit, ok).table, p)
         == if p in visit && CountOf(s.cache, p.task, p.address) > 0 && ok(p) then CountOf(s.cache, p.task, p.address)
            else StoreCount(s.table, p)
  {
    if visit == [] {
    } else {
      var init, q := visit[..|visit| - 1], visit[|visit| - 1];
      SyncCountsCount(s, init, ok, p);
      assert q in visit && (p in visit <==> p in init || p == q);
      WriteBackCount(SyncCounts(s, init, ok), q, p);
    }
  }

  /** The second pass writes the pair at position i exactly if its mark is there when its turn comes. */
  lemma {:induction false} SyncPendingCount(s: Registry, visit: seq<Pair>, ok: Pair -> bool, p: Pair, i: nat)
    requires forall q :: q in visit ==> Cached(s.cache, q)
    requires forall j, k :: 0 <= j < k < |visit| ==> visit[j] != visit[k]
    requires i <= |visit| && (i < |visit| ==> visit[i] == p) && p !in visit[..i]
    ensures StoreCount(SyncPending(s, visit, ok).table, p)
         == if i < |visit| && PairKey(p) in SyncPending(s, visit[..i], ok).pending && ok(p)
               && CountOf(s.cache, p.task, p.address) > 0
            then CountOf(s.cache, p.task, p.address) else StoreCount(s.table, p)
  {
    if visit == [] {
    } else {
      var init, q := visit[..|visit| - 1], visit[|visit| - 1];
      assert q in visit;
      WriteBackCount(SyncPending(s, init, ok), q, p);
      if i < |visit| - 1 {
        SyncPendingCount(s, init, ok, p, i);
        assert init[..i] == visit[..i];
      } else {
        SyncPendingCount(s, init, ok, p, |init|);
        assert i == |init| ==> visit[..i] == init;
      }
    }
  }

  /** When the totals are taken, after both write-back passes, this is what the store counts. */
  lemma CountsWrittenBack(s: Registry, w: Plan, p: Pair)
    requires Follows(s.cache, w)
    ensures StoreCount(Synced(s, w).table, p) == CountAfter(s, w, p)
  {
    var s1 := SyncCounts(s, w.counts, w.countsOk);
    SyncCountsCount(s, w.counts, w.countsOk, p);
    if p in w.retries {
      var i :| 0 <= i < |w.retries| && w.retries[i] == p;
      SyncPendingCount(s1, w.retries, w.retriesOk, p, i);
      RetriedIff(s, w, p, i);
    } else {
      SyncPendingCount(s1, w.retries, w.retriesOk, p, |w.retries|);
    }
  }

  lemma RetriedIff(s: Registry, w: Plan, p: Pair, i: nat)
    requires Follows(s.cache, w) && i < |w.retries| && w.retries[i] == p
    ensures Retried(s, w, p)
       <==> && PairKey(p) in SyncPending(SyncCounts(s, w.counts, w.countsOk), w.retries[..i], w.retriesOk).pending
            && w.retriesOk(p)
  {
    SyncCountsMark(s, w.counts, w.countsOk, PairKey(p));
    SyncPendingMark(SyncCounts(s, w.counts, w.countsOk), w.retries[..i], w.retriesOk, PairKey(p));
    forall q ensures Sooner(w.retries, q, p) <==> q in w.retries[..i] { SoonerThan(w.retries, i, q); }
  }

  ghost function TotalAfter(s: Registry, w: Plan, task: string, addresses: seq<string>): nat {
    if addresses == [] then 0
    else CountAfter(s, w, Pair(task, addresses[0])) + TotalAfter(s, w, task, addresses[1..])
  }

  lemma {:induction false} RowsTotal(s: Registry, w: Plan, table: Table, task: string, addresses: seq<string>)
    requires forall a :: a in addresses ==>
               Pair(task, a) in table && table[Pair(task, a)].count == CountAfter(s, w, Pair(task, a))
    ensures SumCounts(RowsOf(table, task, addresses)) == TotalAfter(s, w, task, addresses)
  {
    if addresses == [] {
    } else {
      RowsTotal(s, w, table, task, addresses[1..]);
      assert RowsOf(table, task, addresses)[1..] == RowsOf(table, task, addresses[1..]);
    }
  }

  /** The total by which a warm ranks a task is the sum, over its active services, of the cached counts that
      were written and the stored counts of the others. */
  lemma TotalsAreCurrent(env: Env, s: Registry, w: Plan, task: string)
    requires Orders(env.order) && Follows(s.cache, w)
    ensures var table := Synced(s, w).table;
            Total(env.order, table, task) == TotalAfter(s, w, task, env.order(ActiveAddresses(table, task)))
  {
    var table := Synced(s, w).table;
    var names := env.order(ActiveAddresses(table, task));
    assert Enumerates(names, ActiveAddresses(table, task));
    forall a | a in names
      ensures Pair(task, a) in table && table[Pair(task, a)].count == CountAfter(s, w, Pair(task, a))
    {
      CountsWrittenBack(s, w, Pair(task, a));
    }
    RowsTotal(s, w, table, task, names);
  }

  // ---------------------------------------------------------------------------
  // The rotation goes on
  // ---------------------------------------------------------------------------

  /** Same addresses with the same weights, in the same order. */
  ghost predicate SameWeights(a: seq<Service>, b: seq<Service>) {
    |a| == |b| && forall i :: 0 <= i < |a| ==> a[i].address == b[i].address && Weight(a[i]) == Weight(b[i])
  }

  lemma {:induction false} SamePool(a: seq<Service>, b: seq<Service>)
    requires SameWeights(a, b)
    ensures Pool(a) == Pool(b)
  {
    if a == [] {
    } else {
      SamePool(a[..|a| - 1], b[..|b| - 1]);
    }
  }

  lemma {:induction false} SamePermit(rules: seq<Rule>, destOf: string -> Ip, requestor: Ip, a: seq<Service>,
                                      b: seq<Service>)
    requires SameWeights(a, b)
    ensures SameWeights(Permit(rules, destOf, requestor, a), Permit(rules, destOf, requestor, b))
  {
    if a == [] {
    } else {
      SamePermit(rules, destOf, requestor, a[..|a| - 1], b[..|b| - 1]);
    }
  }

  /** The caches serve the task alike from here on. */
  ghost predicate Alike(m: Mem, n: Mem, task: string) {
    && SameWeights(EntriesOf(m, task), EntriesOf(n, task))
    && CursorOf(m, task) == CursorOf(n, task)
    && m.firewall == n.firewall
  }

  lemma SameAnswer(m: Mem, n: Mem, destOf: string -> Ip, task: string, requestor: Ip)
    requires Alike(m, n, Trim(task))
    ensures Get(m, destOf, task, requestor).answer == Get(n, destOf, task, requestor).answer
  {
    var t := Trim(task);
    if Filters(m.firewall, requestor) {
      SamePermit(m.firewall.value, destOf, requestor, EntriesOf(m, t), EntriesOf(n, t));
    }
    SamePool(Candidates(m.firewall, destOf, requestor, EntriesOf(m, t)),
             Candidates(n.firewall, destOf, requestor, EntriesOf(n, t)));
  }

  lemma StillAlike(m: Mem, n: Mem, destOf: string -> Ip, task: string, requestor: Ip, t: string)
    requires Alike(m, n, Trim(task)) && Alike(m, n, t)
    ensures Alike(Get(m, destOf, task, requestor).mem, Get(n, destOf, task, requestor).mem, t)
  {
    SameAnswer(m, n, destOf, task, requestor);
  }

  datatype Ask = Ask(task: string, requestor: Ip)

  function AnswersTo(m: Mem, destOf: string -> Ip, asks: seq<Ask>): seq<Answer>
    decreases |asks|
  {
    if asks == [] then []
    else
      var r := Get(m, destOf, asks[0].task, asks[0].requestor);
      [r.answer] + AnswersTo(r.mem, destOf, asks[1..])
  }

  lemma {:induction false} SameAnswers(m: Mem, n: Mem, destOf: string -> Ip, asks: seq<Ask>)
    requires forall i :: 0 <= i < |asks| ==> Alike(m, n, Trim(asks[i].task))
    ensures AnswersTo(m, destOf, asks) == AnswersTo(n, destOf, asks)
    decreases |asks|
  {
    if asks == [] {
    } else {
      var m1 := Get(m, destOf, asks[0].task, asks[0].requestor).mem;
      var n1 := Get(n, destOf, asks[0].task, asks[0].requestor).mem;
      SameAnswer(m, n, destOf, asks[0].task, asks[0].requestor);
      forall i | 0 <= i < |asks[1..]| ensures Alike(m1, n1, Trim(asks[1..][i].task)) {
        assert asks[1..][i] == asks[i + 1];
        StillAlike(m, n, destOf, asks[0].task, asks[0].requestor, Trim(asks[i + 1].task));
      }
      SameAnswers(m1, n1, destOf, asks[1..]);
    }
  }

  ghost predicate AtStart(m: Mem) {
    forall t :: t in m.cursor ==> m.cursor[t] == 0
  }

  lemma {:induction false} LoadAtStart(m: Mem, task: string, listing: seq<Listed>)
    requires AtStart(m)
    ensures AtStart(Load(m, task, listing))
  {
    if listing == [] {
    } else {
      LoadAtStart(m, task, listing[..|listing| - 1]);
    }
  }

  lemma {:induction false} LoadTasksAtStart(order: Order, m: Mem, table: Table, tasks: seq<string>)
    requires Orders(order) && AtStart(m)
    ensures AtStart(LoadTasks(order, m, table, tasks))
  {
    if tasks == [] {
    } else {
      LoadTasksAtStart(order, m, table, tasks[..|tasks| - 1]);
      var init, last := tasks[..|tasks| - 1], tasks[|tasks| - 1];
      LoadAtStart(LoadTasks(order, m, table, init), last, ListTask(order, table, last));
    }
  }

  lemma {:induction false} PreserveAtStart(from: Mem, to: Mem, pending: set<string>, visit: seq<Pair>)
    requires forall q :: q in visit ==> Cached(from, q)
    requires AtStart(to)
    ensures AtStart(PreservePending(from, to, pending, visit))
  {
    if visit == [] {
    } else {
      assert visit[|visit| - 1] in visit;
      PreserveAtStart(from, to, pending, visit[..|visit| - 1]);
    }
  }

  /** Every task of the new cache goes on from the cursor the old cache had for it. */
  lemma WarmKeepsCursors(env: Env, s: Registry, w: Plan, task: string)
    requires Orders(env.order) && Follows(s.cache, w) && w.listed
    requires task in Warm(env, s, w).cache.services
    ensures CursorOf(Warm(env, s, w).cache, task) == CursorOf(s.cache, task)
  {
    var s2, empty := Synced(s, w), EmptyMem().(firewall := s.cache.firewall);
    var tasks := WarmTasks(env.order, s2.table, s.maxSize);
    LoadTasksAtStart(env.order, empty, s2.table, tasks);
    PreserveAtStart(s.cache, LoadTasks(env.order, empty, s2.table, tasks), s2.pending, w.carried);
  }

  lemma WarmCacheAlike(env: Env, s: Registry, w: Plan, task: string)
    requires Orders(env.order) && Follows(s.cache, w) && w.listed
    requires task in Warm(env, s, w).cache.services
    requires SameWeights(EntriesOf(s.cache, task), EntriesOf(Warm(env, s, w).cache, task))
    ensures Alike(s.cache, Warm(env, s, w).cache, task)
  {
    WarmKeepsCursors(env, s, w, task);
    FreshCacheLists(env, s, w, Pair("", ""));
  }

  // ---------------------------------------------------------------------------
  // ... for the registry's clients
  // ---------------------------------------------------------------------------

  /** A query with what becomes of the store accesses it may make. */
  datatype Question = Question(ask: Ask, listed: bool, counted: bool)

  function Asks(questions: seq<Question>): seq<Ask> {
    if questions == [] then [] else [questions[0].ask] + Asks(questions[1..])
  }

  /** The registry's answers to queries one after the other. */
  function QueryAnswers(env: Env, s: Registry, questions: seq<Question>): seq<Answer>
    requires Orders(env.order)
    decreases |questions|
  {
    if questions == [] then []
    else
      var q := questions[0];
      var r := Query(env, s, q.ask.task, q.ask.requestor, q.listed, q.counted);
      [r.answer] + QueryAnswers(env, r.state, questions[1..])
  }

  /** The cache lists an address for the task that the requestor may be given. */
  ghost predicate Servable(m: Mem, destOf: string -> Ip, ask: Ask) {
    Trim(ask.task) != "" && exists a :: Lists(m, Trim(ask.task), a) && MayServe(m, destOf, ask.requestor, a)
  }

  /** Such a query is answered by the cache and by nothing else. */
  lemma QueryHits(env: Env, s: Registry, q: Question)
    requires Orders(env.order) && Servable(s.cache, env.cacheDest, q.ask)
    ensures var hit := Get(s.cache, env.cacheDest, q.ask.task, q.ask.requestor);
            && Query(env, s, q.ask.task, q.ask.requestor, q.listed, q.counted)
               == Outcome(s.(cache := hit.mem), hit.answer, ByCache)
            && hit.mem.services == s.cache.services && hit.mem.firewall == s.cache.firewall
  {
    TrimIdempotent(q.ask.task);
    GetServesIff(s.cache, env.cacheDest, q.ask.task, q.ask.requestor);
    GetServesIff(s.cache, env.cacheDest, Trim(q.ask.task), q.ask.requestor);
    GetKeepsListing(s.cache, env.cacheDest, q.ask.task, q.ask.requestor);
  }

  lemma StillServable(m: Mem, n: Mem, destOf: string -> Ip, ask: Ask)
    requires Servable(m, destOf, ask) && m.services == n.services && m.firewall == n.firewall
    ensures Servable(n, destOf, ask)
  {
    var a :| Lists(m, Trim(ask.task), a) && MayServe(m, destOf, ask.requestor, a);
    assert Lists(n, Trim(ask.task), a) && MayServe(n, destOf, ask.requestor, a);
  }

  /** Queries that the cache can serve are answered by walking the cache. */
  lemma {:induction false} QueriesHit(env: Env, s: Registry, questions: seq<Question>)
    requires Orders(env.order)
    requires forall i :: 0 <= i < |questions| ==> Servable(s.cache, env.cacheDest, questions[i].ask)
    ensures QueryAnswers(env, s, questions) == AnswersTo(s.cache, env.cacheDest, Asks(questions))
    decreases |questions|
  {
    if questions == [] {
    } else {
      var q := questions[0];
      QueryHits(env, s, q);
      var s1 := Query(env, s, q.ask.task, q.ask.requestor, q.listed, q.counted).state;
      forall i | 0 <= i < |questions[1..]| ensures Servable(s1.cache, env.cacheDest, questions[1..][i].ask) {
        assert questions[1..][i] == questions[i + 1];
        StillServable(s.cache, s1.cache, env.cacheDest, questions[i + 1].ask);
      }
      QueriesHit(env, s1, questions[1..]);
      assert Asks(questions)[1..] == Asks(questions[1..]);
    }
  }

  lemma AlikeServable(m: Mem, n: Mem, destOf: string -> Ip, ask: Ask)
    requires Servable(m, destOf, ask) && Alike(m, n, Trim(ask.task))
    ensures Servable(n, destOf, ask)
  {
    var t := Trim(ask.task);
    var a :| Lists(m, t, a) && MayServe(m, destOf, ask.requestor, a);
    var i :| 0 <= i < |EntriesOf(m, t)| && EntriesOf(m, t)[i].address == a;
    assert EntriesOf(n, t)[i].address == a;
    assert Lists(n, t, a) && MayServe(n, destOf, ask.requestor, a);
  }

  lemma {:induction false} AsksAlike(m: Mem, n: Mem, questions: seq<Question>)
    requires forall i :: 0 <= i < |questions| ==> Alike(m, n, Trim(questions[i].ask.task))
    ensures |Asks(questions)| == |questions|
    ensures forall i :: 0 <= i < |questions| ==> Alike(m, n, Trim(Asks(questions)[i].task))
  {
    if questions == [] {
    } else {
      AsksAlike(m, n, questions[1..]);
    }
  }

  /** The new cache has the task, with the same weights in the same order. */
  ghost predicate ReloadsAlike(m: Mem, n: Mem, task: string) {
    task in n.services && SameWeights(EntriesOf(m, task), EntriesOf(n, task))
  }

  /** A warm cycle is invisible to balancing: if it loads the entries of the asked tasks with the same
      weights in the same order, then every later sequence of queries for them that the cache can serve,
      by any requestors, is answered by the registry as it would have been without the warm. */
  lemma {:induction false} WarmIsInvisible(env: Env, s: Registry, w: Plan, questions: seq<Question>)
    requires Orders(env.order) && Follows(s.cache, w) && w.listed
    requires forall i :: 0 <= i < |questions| ==>
               && Servable(s.cache, env.cacheDest, questions[i].ask)
               && ReloadsAlike(s.cache, Warm(env, s, w).cache, Trim(questions[i].ask.task))
    ensures QueryAnswers(env, Warm(env, s, w), questions) == QueryAnswers(env, s, questions)
  {
    var m, n := s.cache, Warm(env, s, w).cache;
    forall i | 0 <= i < |questions|
      ensures Alike(m, n, Trim(questions[i].ask.task)) && Servable(n, env.cacheDest, questions[i].ask)
    {
      WarmCacheAlike(env, s, w, Trim(questions[i].ask.task));
      AlikeServable(m, n, env.cacheDest, questions[i].ask);
    }
    AsksAlike(m, n, questions);
    SameAnswers(m, n, env.cacheDest, Asks(questions));
    QueriesHit(env, s, questions);
    QueriesHit(env, Warm(env, s, w), questions);
  }
}
