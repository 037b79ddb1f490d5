/** What the store-backed registry's operations come to, said in terms of rows, entries and rules only: what a
    registration leaves, when a query is served and what it moves, and what a warm cycle loads and writes. */
module RegistryOutcomes {
  import opened Options
  import opened Strings
  import opened Selection
  import opened Firewall
  import opened MemoryRegistry
  import opened ServiceStore
  import opened StoreBacked
  import opened StoreBackedRuns

  // ---------------------------------------------------------------------------
  // Registering
  // ---------------------------------------------------------------------------

  /** A registration is cached with the time and capacity it came with. If the store takes it the row says the
      same and the mark is gone; if not, the table is as it was and the pair is marked. Nothing else changes. */
  lemma RegistrationLeaves(s: Registry, task: string, address: string, capacity: int, now: int, stored: bool, q: Pair)
    ensures var s', p := StoreBacked.Register(s, task, address, capacity, now, stored), Pair(Trim(task), Trim(address));
            var kept := if capacity > 0 then capacity else 1;
            if p.task == "" || p.address == "" then s' == s
            else
              && KeptAs(s.cache, s'.cache, p, Service(p.address, now, kept), q)
              && s'.misses == s.misses && s'.fallback == s.fallback
              && (if stored
                  then && s'.pending == s.pending - {PairKey(p)}
                       && s'.table == s.table[p := Row(now, StoreCount(s.table, p), kept, true)]
                  else s'.pending == s.pending + {PairKey(p)} && s'.table == s.table)
  {
    TrimIdempotent(task);
    TrimIdempotent(address);
    if Trim(task) != "" && Trim(address) != "" {
      CachedAs(s.cache, Trim(task), Trim(address), capacity, now, q);
    }
  }

  /** The cache has this entry for the pair, and the other entries and all counts as they were. */
  predicate KeptAs(m: Mem, m': Mem, p: Pair, e: Service, q: Pair) {
    HasEntry(m', p.task, e) && (q != p ==> KeepsEntry(m, m', q.task, q.address)) && m'.counts == m.counts
  }

  lemma CachedAs(m: Mem, t: string, a: string, capacity: int, now: int, q: Pair)
    requires Trim(t) == t && Trim(a) == a && t != "" && a != ""
    ensures KeptAs(m, MemoryRegistry.Register(m, t, a, Normalized(capacity), now), Pair(t, a),
                   Service(a, now, if capacity > 0 then capacity else 1), q)
  {
    RegisterEntry(m, t, a, Normalized(capacity), now, q.task, q.address);
  }

  // ---------------------------------------------------------------------------
  // When a query is served
  // ---------------------------------------------------------------------------

  /** One more miss admits the task: the threshold is at most one, or this miss reaches it. */
  predicate Admits(s: Registry, t: string) {
    s.threshold <= 1 || (if t in s.misses then s.misses[t] else 0) + 1 >= s.threshold
  }

  /** How the path that serves a miss reads addresses. */
  function MissDest(env: Env, s: Registry, t: string): string -> Ip {
    if Admits(s, t) then env.cacheDest else env.storeDest
  }

  /** The store has an active service of the task that the requestor may be given. */
  ghost predicate StoreCanServe(s: Registry, destOf: string -> Ip, t: string, requestor: Ip) {
    exists a :: IsActive(s.table, Pair(t, a)) && MayServe(s.cache, destOf, requestor, a)
  }

  ghost predicate StoreKnows(s: Registry, t: string) {
    exists a :: IsActive(s.table, Pair(t, a))
  }

  /** The cache has an entry of the task that the requestor may be given. */
  ghost predicate CacheCanServe(env: Env, s: Registry, t: string, requestor: Ip) {
    exists a :: Lists(s.cache, t, a) && MayServe(s.cache, env.cacheDest, requestor, a)
  }

  lemma CountMissAdmits(s: Registry, t: string)
    ensures CountMiss(s, t).1 <==> Admits(s, t)
    ensures CountMiss(s, t).0 == s.(misses := CountMiss(s, t).0.misses)
  {
  }

  lemma ListsIffActive(order: Order, table: Table, t: string)
    requires Orders(order)
    ensures ListTask(order, table, t) != [] <==> exists a :: IsActive(table, Pair(t, a))
  {
    var listing := ListTask(order, table, t);
    if listing != [] {
      ListTaskMembers(order, table, t, listing[0].service.address);
    }
    if a :| IsActive(table, Pair(t, a)) {
      ListTaskMembers(order, table, t, a);
    }
  }

  lemma AllowedIff(firewall: Option<seq<Rule>>, destOf: string -> Ip, requestor: Ip, entries: seq<Service>)
    ensures MemoryRegistry.Candidates(firewall, destOf, requestor, entries) != []
       <==> exists e :: e in entries && (Filters(firewall, requestor) ==>
                                           MemoryRegistry.Reachable(firewall.value, destOf, requestor, e.address))
  {
    var allowed := MemoryRegistry.Candidates(firewall, destOf, requestor, entries);
    if Filters(firewall, requestor) {
      if allowed != [] {
        PermitMembers(firewall.value, destOf, requestor, entries, allowed[0]);
      }
      if e :| e in entries && MemoryRegistry.Reachable(firewall.value, destOf, requestor, e.address) {
        PermitMembers(firewall.value, destOf, requestor, entries, e);
      }
    } else if entries != [] {
      assert entries[0] in entries;
    }
  }

  /** A miss that is not admitted: served from the store if and only if some active service may be given and the
      query can be counted. */
  lemma FallbackDecision(env: Env, s: Registry, t: string, requestor: Ip, counted: bool)
    requires Orders(env.order) && ListTask(env.order, s.table, t) != [] && !Admits(s, t)
    ensures var answer := ServeMiss(env, s, t, requestor, counted).answer;
            && (answer.Served? <==> StoreCanServe(s, env.storeDest, t, requestor) && counted)
            && (answer.StoreError? <==> StoreCanServe(s, env.storeDest, t, requestor) && !counted)
            && (answer.NoAllowedService? <==> !StoreCanServe(s, env.storeDest, t, requestor))
  {
    var listing := ListTask(env.order, s.table, t);
    CountMissAdmits(s, t);
    ListingIsActive(env.order, s.table, t);
    AllowedIff(s.cache.firewall, env.storeDest, requestor, Services(listing));
    if e :| e in Services(listing) && MayServe(s.cache, env.storeDest, requestor, e.address) {
      assert IsActive(s.table, Pair(t, e.address));
    }
    if a :| IsActive(s.table, Pair(t, a)) && MayServe(s.cache, env.storeDest, requestor, a) {
      ListTaskMembers(env.order, s.table, t, a);
      var i :| 0 <= i < |listing| && listing[i].service.address == a;
      assert Services(listing)[i] in Services(listing);
    }
  }

  /** A miss that is admitted, on a task of which the cache has nothing to give: served if and only if some
      active service may be given. */
  lemma AdmissionDecision(env: Env, s: Registry, t: string, requestor: Ip, counted: bool)
    requires Orders(env.order) && ListTask(env.order, s.table, t) != [] && Admits(s, t)
    requires t != "" && Trim(t) == t && !CacheCanServe(env, s, t, requestor)
    ensures var answer := ServeMiss(env, s, t, requestor, counted).answer;
            && (answer.Served? <==> StoreCanServe(s, env.cacheDest, t, requestor))
            && (answer.NoAllowedService? <==> !StoreCanServe(s, env.cacheDest, t, requestor))
  {
    var listing := ListTask(env.order, s.table, t);
    var m := Load(s.cache, t, listing);
    CountMissAdmits(s, t);
    GetServesIff(m, env.cacheDest, t, requestor);
    forall a ensures Lists(m, t, a) <==> Lists(s.cache, t, a) || IsActive(s.table, Pair(t, a)) {
      LoadLists(s.cache, t, listing, t, a);
      ListTaskMembers(env.order, s.table, t, a);
    }
    LoadLists(s.cache, t, listing, "", "");
    var first := listing[0].service.address;
    assert InListing(listing, first);
    LoadLists(s.cache, t, listing, t, first);
    if a :| IsActive(s.table, Pair(t, a)) && MayServe(s.cache, env.cacheDest, requestor, a) {
      assert Lists(m, t, a) && MayServe(m, env.cacheDest, requestor, a);
    }
    if a :| Lists(m, t, a) && MayServe(m, env.cacheDest, requestor, a) {
      assert MayServe(s.cache, env.cacheDest, requestor, a);
    }
  }

  lemma CacheServesIff(env: Env, s: Registry, t: string, requestor: Ip)
    requires t != "" && Trim(t) == t
    ensures Get(s.cache, env.cacheDest, t, requestor).answer.Served? <==> CacheCanServe(env, s, t, requestor)
  {
    GetServesIff(s.cache, env.cacheDest, t, requestor);
  }

  /** When a query is served, and what it is told otherwise: the cache comes first; a miss is answered from the
      store if that can be listed, knows the task and has a service the requestor may be given, and, unless
      the miss admits the task, if the query can be counted too. */
  lemma QueryDecision(env: Env, s: Registry, task: string, requestor: Ip, listed: bool, counted: bool)
    requires Orders(env.order)
    ensures var t, answer := Trim(task), Query(env, s, task, requestor, listed, counted).answer;
            var hit, can := CacheCanServe(env, s, t, requestor), StoreCanServe(s, MissDest(env, s, t), t, requestor);
            && (answer.InvalidTask? <==> t == "")
            && (answer.Served? <==> t != "" && (hit || (listed && can && (Admits(s, t) || counted))))
            && (answer.NotFound? <==> t != "" && !hit && listed && !StoreKnows(s, t))
            && (answer.NoAllowedService? <==> t != "" && !hit && listed && StoreKnows(s, t) && !can)
            && (answer.StoreError? <==> t != "" && !hit && (!listed || (can && !Admits(s, t) && !counted)))
  {
    var t := Trim(task);
    TrimIdempotent(task);
    if t != "" {
      CacheServesIff(env, s, t, requestor);
      ListsIffActive(env.order, s.table, t);
      CanServeKnows(s, MissDest(env, s, t), t, requestor);
      if !CacheCanServe(env, s, t, requestor) && listed && StoreKnows(s, t) {
        MissDecision(env, s, t, requestor, counted);
      }
    }
  }

  lemma CanServeKnows(s: Registry, destOf: string -> Ip, t: string, requestor: Ip)
    ensures StoreCanServe(s, destOf, t, requestor) ==> StoreKnows(s, t)
  {
  }

  lemma MissDecision(env: Env, s: Registry, t: string, requestor: Ip, counted: bool)
    requires Orders(env.order) && ListTask(env.order, s.table, t) != []
    requires t != "" && Trim(t) == t && !CacheCanServe(env, s, t, requestor)
    ensures var answer, can := ServeMiss(env, s, t, requestor, counted).answer,
                               StoreCanServe(s, MissDest(env, s, t), t, requestor);
            && (answer.Served? <==> can && (Admits(s, t) || counted))
            && (answer.NoAllowedService? <==> !can)
            && (answer.StoreError? <==> can && !Admits(s, t) && !counted)
  {
    if Admits(s, t) {
      AdmissionDecision(env, s, t, requestor, counted);
    } else {
      FallbackDecision(env, s, t, requestor, counted);
    }
  }

  // ---------------------------------------------------------------------------
  // What a miss moves
  // ---------------------------------------------------------------------------

  /** The addresses the store would give the requestor for the task, each as often as it weighs. */
  function StorePool(env: Env, s: Registry, t: string, requestor: Ip): seq<string>
    requires Orders(env.order)
  {
    Pool(MemoryRegistry.Candidates(s.cache.firewall, env.storeDest, requestor,
                                   Services(ListTask(env.order, s.table, t))))
  }

  function FallbackCursor(s: Registry, t: string): nat {
    if t in s.fallback then s.fallback[t] else 0
  }

  /** A miss served from the store gives out the address under the task's own fallback cursor, moves that cursor
      on by one and raises the count of that row by one; the cache, the marks, the other rows and cursors stay. */
  lemma FallbackMoves(env: Env, s: Registry, t: string, requestor: Ip, u: string, q: Pair)
    requires Orders(env.order) && ListTask(env.order, s.table, t) != [] && !Admits(s, t)
    requires StorePool(env, s, t, requestor) != []
    ensures var r, pool := ServeMiss(env, s, t, requestor, true), StorePool(env, s, t, requestor);
            var a := pool[FallbackCursor(s, t) % |pool|];
            && r.answer == Answer.Served(a) && r.path == ByStore && IsActive(s.table, Pair(t, a))
            && FallbackCursor(r.state, u) == FallbackCursor(s, u) + (if u == t then 1 else 0)
            && r.state.table.Keys == s.table.Keys
            && (q in s.table ==>
                  r.state.table[q] == s.table[q].(count := s.table[q].count + if q == Pair(t, a) then 1 else 0))
            && r.state.cache == s.cache && r.state.pending == s.pending && r.state.threshold == s.threshold
            && r.state.misses == s.misses[t := (if t in s.misses then s.misses[t] else 0) + 1]
  {
    CountMissAdmits(s, t);
    ListingIsActive(env.order, s.table, t);
    var s1, cursor := CountMiss(s, t).0, FallbackCursor(s, t);
    var entries, pool := Services(ListTask(env.order, s.table, t)), StorePool(env, s, t, requestor);
    PickIsActive(env, s1, t, entries, requestor, pool[cursor % |pool|]);
    PickedMoves(s1, t, pool[cursor % |pool|], u, q);
  }

  lemma PickedMoves(s: Registry, t: string, a: string, u: string, q: Pair)
    requires IsActive(s.table, Pair(t, a))
    ensures var r := ServePicked(s, t, a, FallbackCursor(s, t), true);
            && r.answer == Answer.Served(a) && r.path == ByStore
            && FallbackCursor(r.state, u) == FallbackCursor(s, u) + (if u == t then 1 else 0)
            && r.state.table.Keys == s.table.Keys
            && (q in s.table ==>
                  r.state.table[q] == s.table[q].(count := s.table[q].count + if q == Pair(t, a) then 1 else 0))
            && r.state == s.(fallback := r.state.fallback, table := r.state.table)
  {
  }

  /** A miss whose count fails has moved the cursor, and nothing else. */
  lemma UncountedFallbackMoves(env: Env, s: Registry, t: string, requestor: Ip)
    requires Orders(env.order) && ListTask(env.order, s.table, t) != [] && !Admits(s, t)
    requires StorePool(env, s, t, requestor) != []
    ensures var s' := ServeMiss(env, s, t, requestor, false).state;
            && s'.fallback == s.fallback[t := FallbackCursor(s, t) + 1]
            && s' == s.(fallback := s'.fallback, misses := s'.misses)
  {
    CountMissAdmits(s, t);
    ListingIsActive(env.order, s.table, t);
  }

  /** Admission loads every active service of the task into the cache, and forgets the misses. */
  lemma AdmissionMoves(env: Env, s: Registry, t: string, requestor: Ip, counted: bool, p: Pair)
    requires Orders(env.order) && ListTask(env.order, s.table, t) != [] && Admits(s, t)
    ensures var r := ServeMiss(env, s, t, requestor, counted);
            && (Cached(r.state.cache, p) <==> Cached(s.cache, p) || (p.task == t && IsActive(s.table, p)))
            && t !in r.state.misses && (forall u :: u in r.state.misses ==> u in s.misses)
            && r.state.table == s.table && r.state.pending == s.pending && r.state.fallback == s.fallback
            && r.path == ByCache
  {
    var listing := ListTask(env.order, s.table, t);
    CountMissAdmits(s, t);
    LoadLists(s.cache, t, listing, p.task, p.address);
    GetKeepsListing(Load(s.cache, t, listing), env.cacheDest, t, requestor);
    if p.task == t { ListTaskMembers(env.order, s.table, t, p.address); }
  }

  // ---------------------------------------------------------------------------
  // The fallback is fair
  // ---------------------------------------------------------------------------

  /** The answers of n steps, one after the other. */
  function AnswersOf<S>(step: S -> (S, Answer), s: S, n: nat): seq<Answer>
    decreases n
  {
    if n == 0 then [] else [step(s).1] + AnswersOf(step, step(s).0, n - 1)
  }

  /** The pool's address under a cursor. */
  function SlotOf(pool: seq<string>, cursor: nat): string
    requires pool != []
  {
    pool[cursor % |pool|]
  }

  /** Each of the next k steps from such a state gives out what is under the cursor and moves it on by one. */
  ghost predicate Turns<S(!new)>(step: S -> (S, Answer), good: (S, nat) -> bool, cursor: S -> nat, pool: seq<string>)
    requires pool != []
  {
    forall s, k: nat :: k > 0 && good(s, k) ==>
      && step(s).1 == Answer.Served(SlotOf(pool, cursor(s)))
      && cursor(step(s).0) == cursor(s) + 1 && good(step(s).0, k - 1)
  }

  lemma {:induction false} TurnsWalk<S(!new)>(step: S -> (S, Answer), good: (S, nat) -> bool, cursor: S -> nat,
                                              pool: seq<string>, s: S, n: nat)
    requires pool != [] && Turns(step, good, cursor, pool) && good(s, n)
    ensures AddressesIn(AnswersOf(step, s, n)) == Window(pool, cursor(s), n)
    decreases n
  {
    if n == 0 {
    } else {
      TurnsWalk(step, good, cursor, pool, step(s).0, n - 1);
      AddressesInStep(SlotOf(pool, cursor(s)), AnswersOf(step, step(s).0, n - 1));
    }
  }

  /** A query whose store accesses succeed, as a step. */
  function Asking(env: Env, t: string, requestor: Ip): Registry -> (Registry, Answer)
    requires Orders(env.order)
  {
    (s: Registry) => var r := Query(env, s, t, requestor, true, true); (r.state, r.answer)
  }

  /** The answers to n queries for the task, one after the other. */
  function FallbackAnswers(env: Env, s: Registry, t: string, requestor: Ip, n: nat): seq<Answer>
    requires Orders(env.order)
  {
    AnswersOf(Asking(env, t, requestor), s, n)
  }

  /** Misses that can still be served from the store before the task is admitted. */
  predicate MissesBeforeAdmission(s: Registry, t: string, n: nat) {
    n == 0 || (s.threshold > 1 && (if t in s.misses then s.misses[t] else 0) + n < s.threshold)
  }

  lemma ServicesSame(order: Order, a: Table, b: Table, t: string)
    requires Orders(order) && a.Keys == b.Keys
    requires forall q :: q in a ==> b[q] == a[q].(count := b[q].count)
    ensures Services(ListTask(order, a, t)) == Services(ListTask(order, b, t))
  {
    assert ActiveAddresses(a, t) == ActiveAddresses(b, t);
    var names := order(ActiveAddresses(a, t));
    assert Enumerates(names, ActiveAddresses(a, t));
    var x, y := ListTask(order, a, t), ListTask(order, b, t);
    assert |Services(x)| == |Services(y)| == |names|;
    forall i | 0 <= i < |names| ensures Services(x)[i] == Services(y)[i] {
      assert names[i] in names && Pair(t, names[i]) in a;
    }
  }

  lemma PoolStays(env: Env, s: Registry, t: string, requestor: Ip)
    requires Orders(env.order) && ListTask(env.order, s.table, t) != [] && !Admits(s, t)
    requires StorePool(env, s, t, requestor) != []
    ensures var s' := ServeMiss(env, s, t, requestor, true).state;
            && StorePool(env, s', t, requestor) == StorePool(env, s, t, requestor)
            && ListTask(env.order, s'.table, t) != []
  {
    var s' := ServeMiss(env, s, t, requestor, true).state;
    FallbackMoves(env, s, t, requestor, t, Pair("", ""));
    forall q | q in s.table ensures s'.table[q] == s.table[q].(count := s'.table[q].count) {
      FallbackMoves(env, s, t, requestor, t, q);
    }
    ServicesSame(env.order, s.table, s'.table, t);
    assert |Services(ListTask(env.order, s.table, t))| == |ListTask(env.order, s.table, t)|;
  }

  /** The store knows the task and the cache does not, and the requestor may be given this pool. */
  ghost predicate FallsBack(env: Env, s: Registry, t: string, requestor: Ip, pool: seq<string>)
    requires Orders(env.order)
  {
    && t != "" && Trim(t) == t && t !in s.cache.services && ListTask(env.order, s.table, t) != []
    && pool == StorePool(env, s, t, requestor) && pool != []
  }

  lemma FallbackStep(env: Env, s: Registry, t: string, requestor: Ip, n: nat, pool: seq<string>, s': Registry,
                     answer: Answer)
    requires Orders(env.order) && FallsBack(env, s, t, requestor, pool) && n > 0 && MissesBeforeAdmission(s, t, n)
    requires s' == Query(env, s, t, requestor, true, true).state
    requires answer == Query(env, s, t, requestor, true, true).answer
    ensures answer == Answer.Served(SlotOf(pool, FallbackCursor(s, t)))
    ensures FallbackCursor(s', t) == FallbackCursor(s, t) + 1
    ensures FallsBack(env, s', t, requestor, pool) && MissesBeforeAdmission(s', t, n - 1)
  {
    FallbackMoves(env, s, t, requestor, t, Pair("", ""));
    PoolStays(env, s, t, requestor);
    assert Query(env, s, t, requestor, true, true) == ServeMiss(env, s, t, requestor, true);
  }

  /** The step is the query. */
  ghost predicate Asks(env: Env, t: string, requestor: Ip, step: Registry -> (Registry, Answer))
    requires Orders(env.order)
  {
    forall s :: && step(s).0 == Query(env, s, t, requestor, true, true).state
                && step(s).1 == Query(env, s, t, requestor, true, true).answer
  }

  /** `good` says that the registry falls back to this pool for at least k more misses. */
  ghost predicate SaysFallsBack(env: Env, t: string, requestor: Ip, pool: seq<string>, good: (Registry, nat) -> bool)
    requires Orders(env.order)
  {
    forall s, k :: good(s, k) <==> FallsBack(env, s, t, requestor, pool) && MissesBeforeAdmission(s, t, k)
  }

  ghost predicate ReadsCursor(t: string, cursor: Registry -> nat) {
    forall s :: cursor(s) == FallbackCursor(s, t)
  }

  lemma FallbackTurns(env: Env, t: string, requestor: Ip, pool: seq<string>, step: Registry -> (Registry, Answer),
                      good: (Registry, nat) -> bool, cursor: Registry -> nat)
    requires Orders(env.order) && pool != [] && Asks(env, t, requestor, step)
    requires SaysFallsBack(env, t, requestor, pool, good) && ReadsCursor(t, cursor)
    ensures Turns(step, good, cursor, pool)
  {
    forall s, k: nat | k > 0 && good(s, k)
      ensures && step(s).1 == Answer.Served(SlotOf(pool, cursor(s)))
              && cursor(step(s).0) == cursor(s) + 1 && good(step(s).0, k - 1)
    {
      FallbackStep(env, s, t, requestor, k, pool, step(s).0, step(s).1);
    }
  }

  function CursorOn(t: string): Registry -> nat {
    (s: Registry) => FallbackCursor(s, t)
  }

  ghost function FallingBack(env: Env, t: string, requestor: Ip, pool: seq<string>): (Registry, nat) -> bool
    requires Orders(env.order)
  {
    (s: Registry, k: nat) => FallsBack(env, s, t, requestor, pool) && MissesBeforeAdmission(s, t, k)
  }

  lemma FallingBackSays(env: Env, t: string, requestor: Ip, pool: seq<string>)
    requires Orders(env.order)
    ensures SaysFallsBack(env, t, requestor, pool, FallingBack(env, t, requestor, pool))
  {
  }

  lemma AskingAsks(env: Env, t: string, requestor: Ip)
    requires Orders(env.order)
    ensures Asks(env, t, requestor, Asking(env, t, requestor))
  {
  }

  lemma MissesTurn(env: Env, t: string, requestor: Ip, pool: seq<string>)
    requires Orders(env.order) && pool != []
    ensures Turns(Asking(env, t, requestor), FallingBack(env, t, requestor, pool), CursorOn(t), pool)
  {
    AskingAsks(env, t, requestor);
    FallingBackSays(env, t, requestor, pool);
    var step, good := Asking(env, t, requestor), FallingBack(env, t, requestor, pool);
    FallbackTurns(env, t, requestor, pool, step, good, CursorOn(t));
  }

  /** Misses on a task the cache has nothing of walk the store's pool, one slot each. */
  lemma FallbackWalksPool(env: Env, s: Registry, t: string, requestor: Ip, n: nat, pool: seq<string>)
    requires Orders(env.order) && FallsBack(env, s, t, requestor, pool) && MissesBeforeAdmission(s, t, n)
    ensures AddressesIn(FallbackAnswers(env, s, t, requestor, n)) == Window(pool, FallbackCursor(s, t), n)
  {
    MissesTurn(env, t, requestor, pool);
    TurnsWalk(Asking(env, t, requestor), FallingBack(env, t, requestor, pool), CursorOn(t), pool, s, n);
  }

  /** The fallback is fair by itself: as many misses as the allowed services weigh together give out each exactly
      its weight times, wherever the fallback cursor stands. */
  lemma FallbackIsFair(env: Env, s: Registry, t: string, requestor: Ip, i: nat)
    requires Orders(env.order) && t != "" && Trim(t) == t && t !in s.cache.services
    requires var allowed := MemoryRegistry.Candidates(s.cache.firewall, env.storeDest, requestor,
                                                      Services(ListTask(env.order, s.table, t)));
             i < |allowed| && MissesBeforeAdmission(s, t, |Pool(allowed)|)
    ensures var allowed := MemoryRegistry.Candidates(s.cache.firewall, env.storeDest, requestor,
                                                     Services(ListTask(env.order, s.table, t)));
            multiset(AddressesIn(FallbackAnswers(env, s, t, requestor, |Pool(allowed)|)))[allowed[i].address]
            == if allowed[i].capacity > 0 then allowed[i].capacity else 1
  {
    var entries := Services(ListTask(env.order, s.table, t));
    var allowed := MemoryRegistry.Candidates(s.cache.firewall, env.storeDest, requestor, entries);
    ListingDistinct(env.order, s.table, t);
    if Filters(s.cache.firewall, requestor) {
      PermitDistinct(s.cache.firewall.value, env.storeDest, requestor, entries);
    }
    SharesAreCapacities(allowed, FallbackCursor(s, t), i);
    FallbackWalksPool(env, s, t, requestor, |Pool(allowed)|, Pool(allowed));
    WindowIsRound(Pool(allowed), FallbackCursor(s, t));
  }

  lemma ListingDistinct(order: Order, table: Table, t: string)
    requires Orders(order)
    ensures DistinctAddresses(Services(ListTask(order, table, t)))
  {
    assert Enumerates(order(ActiveAddresses(table, t)), ActiveAddresses(table, t));
  }
}
