/** The store-backed registry: an in-memory cache in front of the persistent table, marks for
    writes the store has not accepted yet, and the warm cycle that rebuilds the cache. Each public
    operation is one step on the whole state; every store access may fail. */
module StoreBacked {
  import opened Strings
  import opened Selection
  import opened Firewall
  import opened MemoryRegistry
  import opened ServiceStore

  datatype Registry = Registry(
    cache: Mem,
    pending: set<string>,
    misses: map<string, nat>,
    fallback: map<string, nat>,
    threshold: nat,
    maxSize: int,
    table: Table)

  /** Code the registry calls into: the database's order, and the two ways addresses are parsed,
      one on the cache path and one on the fallback path. */
  datatype Env = Env(order: Order, cacheDest: string -> Ip, storeDest: string -> Ip)

  function PairKey(p: Pair): string {
    Key(p.task, p.address)
  }

  predicate Cached(m: Mem, p: Pair) {
    Lists(m, p.task, p.address)
  }

  // ---------------------------------------------------------------------------
  // Register
  // ---------------------------------------------------------------------------

  /** Caches the registration, then writes it through; a failed write leaves a pending mark. */
  function Register(s: Registry, task: string, address: string, capacity: int, now: int, stored: bool): Registry {
    var t, a := Trim(task), Trim(address);
    if t == "" || a == "" then s
    else
      var s1 := s.(cache := MemoryRegistry.Register(s.cache, t, a, Normalized(capacity), now));
      if stored then
        s1.(table := ServiceStore.Register(s.table, Pair(t, a), Service(a, now, Normalized(capacity)), 0),
            pending := s.pending - {Key(t, a)})
      else s1.(pending := s.pending + {Key(t, a)})
  }

  // ---------------------------------------------------------------------------
  // Query
  // ---------------------------------------------------------------------------

  datatype Path = ByCache | ByStore

  datatype Outcome = Outcome(state: Registry, answer: Answer, path: Path)

  /** Counts a miss; the task is admitted at the threshold, at once when the threshold is one. */
  function CountMiss(s: Registry, task: string): (Registry, bool) {
    if s.threshold <= 1 then (s, true)
    else
      var n := (if task in s.misses then s.misses[task] else 0) + 1;
      (s.(misses := s.misses[task := n]), n >= s.threshold)
  }

  /** The registry after n counted misses of a task. */
  function AfterMisses(s: Registry, task: string, n: nat): Registry {
    if n == 0 then s else CountMiss(AfterMisses(s, task, n - 1), task).0
  }

  /** A task is admitted from the miss whose number is the threshold, and no earlier. */
  lemma {:induction false} AdmittedAtThreshold(s: Registry, task: string, n: nat)
    requires task !in s.misses && s.threshold > 1
    ensures CountMiss(AfterMisses(s, task, n), task).1 <==> n + 1 >= s.threshold
    ensures AfterMisses(s, task, n) == s.(misses := AfterMisses(s, task, n).misses)
    ensures n > 0 ==> task in AfterMisses(s, task, n).misses && AfterMisses(s, task, n).misses[task] == n
  {
    if n == 0 {
    } else {
      AdmittedAtThreshold(s, task, n - 1);
    }
  }

  function Services(listing: seq<Listed>): (r: seq<Service>)
    ensures |r| == |listing|
    ensures forall i :: 0 <= i < |r| ==> r[i] == listing[i].service
  {
    if listing == [] then [] else [listing[0].service] + Services(listing[1..])
  }

  /** Serves a miss straight from the store, with a cursor of its own. */
  function SelectFromStore(env: Env, s: Registry, task: string, entries: seq<Service>, requestor: Ip,
                           counted: bool): Outcome
    requires forall i :: 0 <= i < |entries| ==> IsActive(s.table, Pair(task, entries[i].address))
    requires entries != []
  {
    var allowed := Candidates(s.cache.firewall, env.storeDest, requestor, entries);
    if allowed == [] then Outcome(s, NoAllowedService, ByStore)
    else
      PoolPrefix(allowed, 0);
      var cursor := if task in s.fallback then s.fallback[task] else 0;
      var address := Pool(allowed)[cursor % |Pool(allowed)|];
      PickIsActive(env, s, task, entries, requestor, address);
      ServePicked(s, task, address, cursor, counted)
  }

  /** Moves the fallback cursor on and counts the query, which may fail. */
  function ServePicked(s: Registry, task: string, address: string, cursor: nat, counted: bool): Outcome
    requires IsActive(s.table, Pair(task, address))
  {
    var s1 := s.(fallback := s.fallback[task := cursor + 1]);
    if !counted then Outcome(s1, StoreError, ByStore)
    else Outcome(s1.(table := IncrementQueryCount(s.table, Pair(task, address))), Answer.Served(address), ByStore)
  }

  lemma PickIsActive(env: Env, s: Registry, task: string, entries: seq<Service>, requestor: Ip, address: string)
    requires forall i :: 0 <= i < |entries| ==> IsActive(s.table, Pair(task, entries[i].address))
    requires address in Pool(Candidates(s.cache.firewall, env.storeDest, requestor, entries))
    ensures IsActive(s.table, Pair(task, address))
    ensures Filters(s.cache.firewall, requestor) ==>
              Reachable(s.cache.firewall.value, env.storeDest, requestor, address)
  {
    var allowed := Candidates(s.cache.firewall, env.storeDest, requestor, entries);
    PoolMembers(allowed, address);
    var i :| 0 <= i < |allowed| && allowed[i].address == address;
    if Filters(s.cache.firewall, requestor) {
      PermitMembers(s.cache.firewall.value, env.storeDest, requestor, entries, allowed[i]);
    }
    assert allowed[i] in entries;
  }

  /** Loads a listing into a cache, entry by entry. */
  function Load(m: Mem, task: string, listing: seq<Listed>): Mem {
    if listing == [] then m
    else
      var init, last := listing[..|listing| - 1], listing[|listing| - 1];
      Populate(Load(m, task, init), task, last.service, last.count)
  }

  /** Cache first; on a miss the store decides, and the task is admitted to the cache or served
      directly. `listed` and `counted` say whether the two store accesses succeed. */
  function Query(env: Env, s: Registry, task: string, requestor: Ip, listed: bool, counted: bool): Outcome
    requires Orders(env.order)
  {
    var t := Trim(task);
    var hit := Get(s.cache, env.cacheDest, t, requestor);
    if t == "" then Outcome(s, InvalidTask, ByCache)
    else if hit.answer.Served? then Outcome(s.(cache := hit.mem), hit.answer, ByCache)
    else if !listed then Outcome(s, StoreError, ByCache)
    else if ListTask(env.order, s.table, t) == [] then Outcome(s, NotFound, ByCache)
    else ServeMiss(env, s, t, requestor, counted)
  }

  /** A miss on a task the store knows: served from the store, or admitted and served from the cache. */
  function ServeMiss(env: Env, s: Registry, t: string, requestor: Ip, counted: bool): Outcome
    requires Orders(env.order) && ListTask(env.order, s.table, t) != []
  {
    var listing := ListTask(env.order, s.table, t);
    var (s1, admit) := CountMiss(s, t);
    if !admit then
      ListingIsActive(env.order, s.table, t);
      SelectFromStore(env, s1, t, Services(listing), requestor, counted)
    else
      var r := Get(Load(s.cache, t, listing), env.cacheDest, t, requestor);
      Outcome(s1.(cache := r.mem, misses := s1.misses - {t}), r.answer, ByCache)
  }

  lemma ListingIsActive(order: Order, table: Table, task: string)
    requires Orders(order)
    ensures forall i :: 0 <= i < |ListTask(order, table, task)| ==>
              IsActive(table, Pair(task, Services(ListTask(order, table, task))[i].address))
  {
    forall i | 0 <= i < |ListTask(order, table, task)|
      ensures IsActive(table, Pair(task, ListTask(order, table, task)[i].service.address))
    {
      ListTaskMembers(order, table, task, ListTask(order, table, task)[i].service.address);
    }
  }

  // ---------------------------------------------------------------------------
  // Warm
  // ---------------------------------------------------------------------------

  /** Writes one cached entry to the store and forgets its pending mark. */
  function WriteBack(s: Registry, p: Pair): Registry
    requires Cached(s.cache, p)
  {
    s.(table := ServiceStore.Register(s.table, p, EntryAt(EntriesOf(s.cache, p.task), p.address),
                                      CountOf(s.cache, p.task, p.address)),
       pending := s.pending - {PairKey(p)})
  }

  /** The iteration order over a cache, which is arbitrary, visits every cached pair once. */
  ghost predicate Visits(m: Mem, visit: seq<Pair>) {
    && (forall p :: p in visit <==> Cached(m, p))
    && (forall i, j :: 0 <= i < j < |visit| ==> visit[i] != visit[j])
  }

  /** Writes the query counts of queried entries back; `ok` says which writes succeed. */
  function SyncCounts(s: Registry, visit: seq<Pair>, ok: Pair -> bool): (r: Registry)
    requires forall p :: p in visit ==> Cached(s.cache, p)
    ensures r.cache == s.cache
  {
    if visit == [] then s
    else
      var s1, p := SyncCounts(s, visit[..|visit| - 1], ok), visit[|visit| - 1];
      if CountOf(s.cache, p.task, p.address) > 0 && ok(p) then WriteBack(s1, p) else s1
  }

  /** Retries the writes that are still pending. */
  function SyncPending(s: Registry, visit: seq<Pair>, ok: Pair -> bool): (r: Registry)
    requires forall p :: p in visit ==> Cached(s.cache, p)
    ensures r.cache == s.cache
  {
    if visit == [] then s
    else
      var s1, p := SyncPending(s, visit[..|visit| - 1], ok), visit[|visit| - 1];
      if PairKey(p) in s1.pending && ok(p) then WriteBack(s1, p) else s1
  }

  function LoadTasks(order: Order, m: Mem, table: Table, tasks: seq<string>): Mem
    requires Orders(order)
  {
    if tasks == [] then m
    else
      var init, last := tasks[..|tasks| - 1], tasks[|tasks| - 1];
      Load(LoadTasks(order, m, table, init), last, ListTask(order, table, last))
  }

  /** Carries the entries that are still pending over from the old cache. */
  function PreservePending(from: Mem, to: Mem, pending: set<string>, visit: seq<Pair>): Mem
    requires forall p :: p in visit ==> Cached(from, p)
  {
    if visit == [] then to
    else
      var m, p := PreservePending(from, to, pending, visit[..|visit| - 1]), visit[|visit| - 1];
      assert p in visit && Cached(from, p);
      if PairKey(p) in pending
      then Populate(m, p.task, EntryAt(EntriesOf(from, p.task), p.address), CountOf(from, p.task, p.address))
      else m
  }

  /** Copies the old cursors of the tasks the new cache has. */
  function CopyCursors(from: Mem, to: Mem): Mem {
    to.(cursor := map t | t in to.cursor.Keys + from.cursor.Keys && (t in to.cursor || t in to.services)
                     :: if t in from.cursor && t in to.services then from.cursor[t] else CursorOf(to, t))
  }

  /** The tasks a warm loads: all of them, or the most queried ones when the cache is bounded. */
  function WarmTasks(order: Order, table: Table, maxSize: int): seq<string>
    requires Orders(order)
  {
    if maxSize <= 0 then order(ActiveTasks(table)) else TopTasks(order, table, maxSize)
  }

  /** Iteration orders and store failures of one warm cycle. */
  datatype Plan = Plan(counts: seq<Pair>, countsOk: Pair -> bool, retries: seq<Pair>, retriesOk: Pair -> bool,
                       carried: seq<Pair>, listed: bool)

  ghost predicate Follows(m: Mem, w: Plan) {
    Visits(m, w.counts) && Visits(m, w.retries) && Visits(m, w.carried)
  }

  /** The registry with everything written back that the store accepts. */
  function Synced(s: Registry, w: Plan): (r: Registry)
    requires Follows(s.cache, w)
    ensures r.cache == s.cache
  {
    SyncPending(SyncCounts(s, w.counts, w.countsOk), w.retries, w.retriesOk)
  }

  function FreshCache(env: Env, s: Registry, w: Plan): Mem
    requires Orders(env.order) && Follows(s.cache, w)
  {
    var s2 := Synced(s, w);
    var loaded := LoadTasks(env.order, EmptyMem().(firewall := s.cache.firewall), s2.table,
                            WarmTasks(env.order, s2.table, s.maxSize));
    CopyCursors(s.cache, PreservePending(s.cache, loaded, s2.pending, w.carried))
  }

  /** One warm cycle; if the store cannot be listed the old cache stays. */
  function Warm(env: Env, s: Registry, w: Plan): Registry
    requires Orders(env.order) && Follows(s.cache, w)
  {
    if w.listed then Synced(s, w).(cache := FreshCache(env, s, w)) else Synced(s, w)
  }
}
