/** The in-memory registry: registrations per task, a round-robin cursor per task and a query
    counter per registration. The store-backed registry uses it as its cache. */
module MemoryRegistry {
  import opened Options
  import opened Strings
  import opened Selection
  import opened Firewall

  /** Registry answers; a store failure can only come from the store-backed registry. */
  datatype Answer = Served(address: string) | InvalidTask | NotFound | NoAllowedService | StoreError

  datatype Mem = Mem(
    services: map<string, seq<Service>>,
    cursor: map<string, nat>,
    counts: map<string, nat>,
    queries: nat,
    firewall: Option<seq<Rule>>)

  /** Counter and pending marks are kept under task and address joined by a colon. */
  function Key(task: string, address: string): string {
    task + ":" + address
  }

  function EmptyMem(): Mem {
    Mem(map[], map[], map[], 0, None)
  }

  function EntriesOf(m: Mem, task: string): seq<Service> {
    if task in m.services then m.services[task] else []
  }

  function CursorOf(m: Mem, task: string): nat {
    if task in m.cursor then m.cursor[task] else 0
  }

  function CountOf(m: Mem, task: string, address: string): nat {
    if Key(task, address) in m.counts then m.counts[Key(task, address)] else 0
  }

  predicate HasAddress(entries: seq<Service>, address: string) {
    exists i :: 0 <= i < |entries| && entries[i].address == address
  }

  /** The pair is registered in this cache. */
  predicate Lists(m: Mem, task: string, address: string) {
    HasAddress(EntriesOf(m, task), address)
  }

  /** The entry with the address. */
  function EntryAt(entries: seq<Service>, address: string): Service
    requires HasAddress(entries, address)
  {
    if entries[0].address == address then entries[0] else EntryAt(entries[1..], address)
  }

  lemma {:induction false} EntryAtAddress(entries: seq<Service>, address: string)
    requires HasAddress(entries, address)
    ensures EntryAt(entries, address).address == address && EntryAt(entries, address) in entries
  {
    if entries[0].address == address {
    } else {
      var i :| 0 <= i < |entries| && entries[i].address == address;
      assert entries[1..][i - 1].address == address;
      EntryAtAddress(entries[1..], address);
    }
  }

  // ---------------------------------------------------------------------------
  // Registering
  // ---------------------------------------------------------------------------

  /** Updates the entry with the address in place, or appends one. */
  function Upsert(entries: seq<Service>, e: Service): seq<Service> {
    if entries == [] then [e]
    else if entries[0].address == e.address then [e] + entries[1..]
    else [entries[0]] + Upsert(entries[1..], e)
  }

  /** A new address also makes sure the task has a cursor. */
  function Put(m: Mem, task: string, e: Service): Mem {
    m.(services := m.services[task := Upsert(EntriesOf(m, task), e)],
       cursor := if Lists(m, task, e.address) || task in m.cursor then m.cursor else m.cursor[task := 0])
  }

  function Register(m: Mem, task: string, address: string, capacity: int, now: int): Mem {
    var t, a := Trim(task), Trim(address);
    if t == "" || a == "" then m else Put(m, t, Service(a, now, Normalized(capacity)))
  }

  /** Loads an entry with the query count the store has for it. */
  function Populate(m: Mem, task: string, e: Service, count: nat): Mem {
    var m' := Put(m, task, e.(capacity := Normalized(e.capacity)));
    m'.(counts := m.counts[Key(task, e.address) := count])
  }

  /** Upserting changes the one entry with that address, adds it if it was not there, keeps every
      other entry, and never lists an address twice. */
  lemma {:induction false} UpsertMembers(entries: seq<Service>, e: Service, x: Service)
    requires DistinctAddresses(entries)
    ensures x in Upsert(entries, e) <==> x == e || (x in entries && x.address != e.address)
  {
    if entries == [] {
    } else {
      var first, rest := entries[0], entries[1..];
      UpsertMembers(rest, e, x);
      FirstIsAlone(entries, x);
      assert x in entries <==> x == first || x in rest;
    }
  }

  lemma FirstIsAlone(entries: seq<Service>, x: Service)
    requires DistinctAddresses(entries) && entries != []
    ensures x in entries[1..] ==> x.address != entries[0].address
  {
    if x in entries[1..] {
      var i :| 0 <= i < |entries[1..]| && entries[1..][i] == x;
      assert entries[i + 1] == x;
    }
  }

  lemma {:induction false} UpsertDistinct(entries: seq<Service>, e: Service)
    requires DistinctAddresses(entries)
    ensures DistinctAddresses(Upsert(entries, e))
  {
    if entries == [] || entries[0].address == e.address {
    } else {
      var rest := Upsert(entries[1..], e);
      UpsertDistinct(entries[1..], e);
      forall j | 0 <= j < |rest| ensures rest[j].address != entries[0].address {
        UpsertMembers(entries[1..], e, rest[j]);
        FirstIsAlone(entries, rest[j]);
      }
    }
  }

  /** Registering replaces the address's entry or adds one, and changes no other. */
  lemma UpsertEffect(entries: seq<Service>, e: Service)
    requires DistinctAddresses(entries)
    ensures DistinctAddresses(Upsert(entries, e))
    ensures forall x :: x in Upsert(entries, e) <==> x == e || (x in entries && x.address != e.address)
  {
    UpsertDistinct(entries, e);
    forall x ensures x in Upsert(entries, e) <==> x == e || (x in entries && x.address != e.address) {
      UpsertMembers(entries, e, x);
    }
  }

  lemma {:induction false} UpsertLists(entries: seq<Service>, e: Service, address: string)
    ensures HasAddress(Upsert(entries, e), address) <==> HasAddress(entries, address) || address == e.address
  {
    if entries == [] {
      assert Upsert(entries, e)[0] == e;
    } else {
      var r := Upsert(entries, e);
      UpsertLists(entries[1..], e, address);
      if HasAddress(entries, address) {
        var i :| 0 <= i < |entries| && entries[i].address == address;
        if i > 0 { assert entries[1..][i - 1] == entries[i]; }
        if entries[0].address == e.address {
          assert r[i].address == address;
        } else if i == 0 {
          assert r[0].address == address;
        } else {
          var j :| 0 <= j < |r[1..]| && r[1..][j].address == address;
          assert r[j + 1].address == address;
        }
      }
      if address == e.address {
        if entries[0].address == e.address { assert r[0] == e; }
        else {
          var j :| 0 <= j < |r[1..]| && r[1..][j].address == address;
          assert r[j + 1].address == address;
        }
      }
      if HasAddress(r, address) && address != e.address {
        var i :| 0 <= i < |r| && r[i].address == address;
        if entries[0].address == e.address {
          assert i > 0 && entries[i] == r[i];
        } else if i == 0 {
          assert entries[0].address == address;
        } else {
          assert r[1..][i - 1] == r[i];
          var j :| 0 <= j < |entries[1..]| && entries[1..][j].address == address;
          assert entries[j + 1].address == address;
        }
      }
    }
  }

  lemma {:induction false} UpsertEntryAt(entries: seq<Service>, e: Service, a: string)
    requires HasAddress(entries, a) || a == e.address
    ensures HasAddress(Upsert(entries, e), a)
    ensures EntryAt(Upsert(entries, e), a) == if a == e.address then e else EntryAt(entries, a)
  {
    UpsertLists(entries, e, a);
    if entries == [] || entries[0].address == e.address {
      if a != e.address { TailEntryAt(entries, a); TailEntryAt(Upsert(entries, e), a); }
    } else if a != entries[0].address {
      if a != e.address { TailEntryAt(entries, a); }
      UpsertEntryAt(entries[1..], e, a);
    }
  }

  lemma TailEntryAt(entries: seq<Service>, a: string)
    requires HasAddress(entries, a) && entries[0].address != a
    ensures HasAddress(entries[1..], a) && EntryAt(entries, a) == EntryAt(entries[1..], a)
  {
    var i :| 0 <= i < |entries| && entries[i].address == a;
    assert entries[1..][i - 1].address == a;
  }

  function AddressesOf(entries: seq<Service>): (r: seq<string>)
    ensures |r| == |entries| && forall i :: 0 <= i < |r| ==> r[i] == entries[i].address
  {
    if entries == [] then [] else [entries[0].address] + AddressesOf(entries[1..])
  }

  /** An address keeps its place in the rotation, and a new one goes to the end. */
  lemma {:induction false} UpsertInPlace(entries: seq<Service>, e: Service)
    ensures AddressesOf(Upsert(entries, e))
         == AddressesOf(entries) + if e.address in AddressesOf(entries) then [] else [e.address]
  {
    if entries == [] {
    } else {
      var names := AddressesOf(entries);
      assert names == [entries[0].address] + AddressesOf(entries[1..]);
      if entries[0].address == e.address {
        assert names[0] == e.address && names + [] == names;
        assert AddressesOf([e] + entries[1..]) == [e.address] + AddressesOf(entries[1..]);
      } else {
        UpsertInPlace(entries[1..], e);
        assert e.address in names <==> e.address in AddressesOf(entries[1..]);
        assert AddressesOf(Upsert(entries, e)) == [entries[0].address] + AddressesOf(Upsert(entries[1..], e));
      }
    }
  }

  /** The entry of a listed pair is as it was. */
  predicate KeepsEntry(m: Mem, m': Mem, t: string, a: string) {
    Lists(m, t, a) ==> Lists(m', t, a) && EntryAt(EntriesOf(m', t), a) == EntryAt(EntriesOf(m, t), a)
  }

  /** The pair has exactly this entry. */
  predicate HasEntry(m: Mem, t: string, e: Service) {
    Lists(m, t, e.address) && EntryAt(EntriesOf(m, t), e.address) == e
  }

  /** The task lists the addresses it listed, in their places, and then the given one if it is new. */
  predicate Appends(m: Mem, m': Mem, t: string, a: string) {
    var names := AddressesOf(EntriesOf(m, t));
    AddressesOf(EntriesOf(m', t)) == if a in names then names else names + [a]
  }

  lemma PutEntry(m: Mem, task: string, e: Service, t: string, a: string)
    ensures HasEntry(Put(m, task, e), task, e)
    ensures !(t == task && a == e.address) ==> KeepsEntry(m, Put(m, task, e), t, a)
    ensures CursorOf(Put(m, task, e), t) == CursorOf(m, t)
  {
    UpsertEntryAt(EntriesOf(m, task), e, e.address);
    if Lists(m, t, a) && t == task { UpsertEntryAt(EntriesOf(m, task), e, a); }
  }

  lemma PutAppends(m: Mem, task: string, e: Service)
    ensures Appends(m, Put(m, task, e), task, e.address)
  {
    UpsertInPlace(EntriesOf(m, task), e);
    assert AddressesOf(EntriesOf(m, task)) + [] == AddressesOf(EntriesOf(m, task));
  }

  /** A registration is kept with the time and capacity it came with, in its place; blank names are ignored, and
      no other entry, cursor or count changes. */
  lemma RegisterEntry(m: Mem, task: string, address: string, capacity: int, now: int, t: string, a: string)
    ensures var m', T, A := Register(m, task, address, capacity, now), Trim(task), Trim(address);
            if T == "" || A == "" then m' == m
            else
              && HasEntry(m', T, Service(A, now, if capacity > 0 then capacity else 1))
              && (!(t == T && a == A) ==> KeepsEntry(m, m', t, a))
              && Appends(m, m', T, A)
              && CursorOf(m', t) == CursorOf(m, t) && m'.counts == m.counts && m'.queries == m.queries
  {
    var e := Service(Trim(address), now, Normalized(capacity));
    PutEntry(m, Trim(task), e, t, a);
    PutAppends(m, Trim(task), e);
  }

  /** A loaded entry is kept as the store has it, with the store's count; no other entry, cursor or count
      changes. */
  lemma PopulateEntry(m: Mem, task: string, e: Service, count: nat, t: string, a: string)
    ensures var m' := Populate(m, task, e, count);
            && HasEntry(m', task, Service(e.address, e.heartbeat, if e.capacity > 0 then e.capacity else 1))
            && (!(t == task && a == e.address) ==> KeepsEntry(m, m', t, a))
            && Appends(m, m', task, e.address)
            && CountOf(m', task, e.address) == count
            && (Key(t, a) != Key(task, e.address) ==> CountOf(m', t, a) == CountOf(m, t, a))
            && CursorOf(m', t) == CursorOf(m, t)
  {
    var e' := e.(capacity := Normalized(e.capacity));
    PutEntry(m, task, e', t, a);
    PutAppends(m, task, e');
    CountsIrrelevant(Put(m, task, e'), m.counts[Key(task, e.address) := count], task, e', t, a);
  }

  lemma CountsIrrelevant(m: Mem, counts: map<string, nat>, task: string, e: Service, t: string, a: string)
    ensures HasEntry(m.(counts := counts), task, e) <==> HasEntry(m, task, e)
    ensures EntriesOf(m.(counts := counts), t) == EntriesOf(m, t)
  {
  }

  /** What loading an entry leaves listed. */
  lemma PutLists(m: Mem, task: string, e: Service, t: string, a: string)
    ensures Lists(Put(m, task, e), t, a) <==> Lists(m, t, a) || (t == task && a == e.address)
    ensures Put(m, task, e).services.Keys == m.services.Keys + {task}
    ensures Put(m, task, e).firewall == m.firewall
  {
    UpsertLists(EntriesOf(m, task), e, a);
  }

  // ---------------------------------------------------------------------------
  // Querying
  // ---------------------------------------------------------------------------

  /** The destination of the address can be read and the rules let the requestor reach it. */
  predicate Reachable(rules: seq<Rule>, destOf: string -> Ip, requestor: Ip, address: string) {
    destOf(address) != NoIp && Allowed(rules, requestor, destOf(address))
  }

  /** The firewall applies when one is configured and the requestor is known. */
  predicate Filters(firewall: Option<seq<Rule>>, requestor: Ip) {
    firewall.Some? && requestor != NoIp
  }

  function Permit(rules: seq<Rule>, destOf: string -> Ip, requestor: Ip, entries: seq<Service>): seq<Service> {
    if entries == [] then []
    else
      var init, last := entries[..|entries| - 1], entries[|entries| - 1];
      Permit(rules, destOf, requestor, init) + if Reachable(rules, destOf, requestor, last.address) then [last] else []
  }

  /** The entries the requestor may be given. */
  function Candidates(firewall: Option<seq<Rule>>, destOf: string -> Ip, requestor: Ip, entries: seq<Service>)
    : seq<Service>
  {
    if Filters(firewall, requestor) then Permit(firewall.value, destOf, requestor, entries) else entries
  }

  lemma {:induction false} PermitMembers(rules: seq<Rule>, destOf: string -> Ip, requestor: Ip,
                                         entries: seq<Service>, e: Service)
    ensures e in Permit(rules, destOf, requestor, entries)
       <==> e in entries && Reachable(rules, destOf, requestor, e.address)
  {
    if entries == [] {
    } else {
      PermitMembers(rules, destOf, requestor, entries[..|entries| - 1], e);
      assert entries == entries[..|entries| - 1] + [entries[|entries| - 1]];
    }
  }

  /** Permitting keeps the order: it decides about every part of the entries by itself. */
  lemma {:induction false} PermitConcat(rules: seq<Rule>, destOf: string -> Ip, requestor: Ip, a: seq<Service>,
                                        b: seq<Service>)
    ensures Permit(rules, destOf, requestor, a + b)
         == Permit(rules, destOf, requestor, a) + Permit(rules, destOf, requestor, b)
  {
    if b == [] {
      assert a + b == a;
    } else {
      assert (a + b)[..|a + b| - 1] == a + b[..|b| - 1];
      PermitConcat(rules, destOf, requestor, a, b[..|b| - 1]);
    }
  }

  lemma {:induction false} PermitDistinct(rules: seq<Rule>, destOf: string -> Ip, requestor: Ip, entries: seq<Service>)
    requires DistinctAddresses(entries)
    ensures DistinctAddresses(Permit(rules, destOf, requestor, entries))
  {
    if entries == [] {
    } else {
      var init, last := entries[..|entries| - 1], entries[|entries| - 1];
      var rest := Permit(rules, destOf, requestor, init);
      PermitDistinct(rules, destOf, requestor, init);
      forall i | 0 <= i < |rest| ensures rest[i].address != last.address {
        PermitMembers(rules, destOf, requestor, init, rest[i]);
        assert rest[i] in init;
      }
    }
  }

  lemma HasAddressAppend(init: seq<Service>, last: Service, address: string)
    ensures HasAddress(init + [last], address) <==> HasAddress(init, address) || last.address == address
  {
    if HasAddress(init, address) {
      var i :| 0 <= i < |init| && init[i].address == address;
      assert (init + [last])[i].address == address;
    }
    assert (init + [last])[|init|] == last;
  }

  lemma RepeatMembers(a: string, n: nat, address: string)
    requires n > 0
    ensures address in Repeat(a, n) <==> address == a
  {
    assert Repeat(a, n)[0] == a;
  }

  lemma {:induction false} PoolMembers(entries: seq<Service>, address: string)
    ensures address in Pool(entries) <==> HasAddress(entries, address)
  {
    if entries == [] {
    } else {
      var init, last := entries[..|entries| - 1], entries[|entries| - 1];
      PoolMembers(init, address);
      RepeatMembers(last.address, Weight(last), address);
      assert entries == init + [last];
      HasAddressAppend(init, last, address);
    }
  }

  function Advance(m: Mem, task: string, address: string): Mem {
    m.(cursor := m.cursor[task := CursorOf(m, task) + 1],
       counts := m.counts[Key(task, address) := CountOf(m, task, address) + 1],
       queries := m.queries + 1)
  }

  datatype Served = Result(mem: Mem, answer: Answer)

  /** Answers a query: the pool slot under the task's cursor, among the permitted entries. */
  function Get(m: Mem, destOf: string -> Ip, task: string, requestor: Ip): Served {
    var t := Trim(task);
    if t == "" then Result(m, InvalidTask)
    else
      var entries := EntriesOf(m, t);
      var allowed := Candidates(m.firewall, destOf, requestor, entries);
      if entries == [] then Result(m, NotFound)
      else if allowed == [] then Result(m, NoAllowedService)
      else
        PoolPrefix(allowed, 0);
        var address := Pool(allowed)[CursorOf(m, t) % |Pool(allowed)|];
        Result(Advance(m, t, address), Answer.Served(address))
  }

  /** A served address is registered for the task, and when the firewall applies the requestor may
      reach its destination. */
  lemma GetSafe(m: Mem, destOf: string -> Ip, task: string, requestor: Ip)
    ensures var r := Get(m, destOf, task, requestor);
            r.answer.Served? ==>
              && Lists(m, Trim(task), r.answer.address)
              && (Filters(m.firewall, requestor) ==> Reachable(m.firewall.value, destOf, requestor, r.answer.address))
  {
    var r := Get(m, destOf, task, requestor);
    if r.answer.Served? {
      var entries := EntriesOf(m, Trim(task));
      var allowed := Candidates(m.firewall, destOf, requestor, entries);
      PoolMembers(allowed, r.answer.address);
      var i :| 0 <= i < |allowed| && allowed[i].address == r.answer.address;
      if Filters(m.firewall, requestor) {
        PermitMembers(m.firewall.value, destOf, requestor, entries, allowed[i]);
      }
      assert allowed[i] in entries;
    }
  }

  /** The requestor may be given the address. */
  predicate MayServe(m: Mem, destOf: string -> Ip, requestor: Ip, address: string) {
    Filters(m.firewall, requestor) ==> Reachable(m.firewall.value, destOf, requestor, address)
  }

  /** A query is served if and only if the task is named and lists an address the requestor may be
      given; a task with entries of which none may be given is told apart from an unknown task. */
  lemma GetServesIff(m: Mem, destOf: string -> Ip, task: string, requestor: Ip)
    ensures var answer, t := Get(m, destOf, task, requestor).answer, Trim(task);
            && (answer.Served? <==> t != "" && exists a :: Lists(m, t, a) && MayServe(m, destOf, requestor, a))
            && (answer.NoAllowedService? ==> exists a :: Lists(m, t, a))
            && (answer.NotFound? ==> forall a :: !Lists(m, t, a))
  {
    var t := Trim(task);
    var entries := EntriesOf(m, t);
    var allowed := Candidates(m.firewall, destOf, requestor, entries);
    GetSafe(m, destOf, task, requestor);
    if entries != [] {
      assert Lists(m, t, entries[0].address);
    }
    if a :| Lists(m, t, a) && MayServe(m, destOf, requestor, a) {
      var i :| 0 <= i < |entries| && entries[i].address == a;
      if Filters(m.firewall, requestor) {
        PermitMembers(m.firewall.value, destOf, requestor, entries, entries[i]);
      }
      assert allowed != [];
    }
  }

  /** A served query moves the task's cursor on by one and is counted once, for the address served; any other
      query changes nothing. */
  lemma GetCountsQuery(m: Mem, destOf: string -> Ip, task: string, requestor: Ip, t: string, a: string)
    ensures var r, T := Get(m, destOf, task, requestor), Trim(task);
            && (!r.answer.Served? ==> r.mem == m)
            && (r.answer.Served? ==>
                  && CursorOf(r.mem, t) == CursorOf(m, t) + (if t == T then 1 else 0)
                  && CountOf(r.mem, t, a)
                     == CountOf(m, t, a) + (if Key(t, a) == Key(T, r.answer.address) then 1 else 0)
                  && r.mem.queries == m.queries + 1 && r.mem.services == m.services)
  {
  }

  /** The registry after n queries for one task by one requestor. */
  function AfterQueries(m: Mem, destOf: string -> Ip, task: string, requestor: Ip, n: nat): Mem
    decreases n
  {
    if n == 0 then m else AfterQueries(Get(m, destOf, task, requestor).mem, destOf, task, requestor, n - 1)
  }

  lemma KeyOfTask(t: string, a: string, b: string)
    ensures Key(t, a) == Key(t, b) <==> a == b
  {
    assert Key(t, a)[|t| + 1..] == a && Key(t, b)[|t| + 1..] == b;
  }

  lemma AddressesInCons(first: Answer, rest: seq<Answer>, a: string)
    ensures multiset(AddressesIn([first] + rest))[a]
         == multiset(AddressesIn(rest))[a] + if first == Answer.Served(a) then 1 else 0
  {
    assert ([first] + rest)[1..] == rest;
  }

  /** Over any run of queries each address's count grows by the number of times it was given out. */
  lemma {:induction false} CountsFollowAnswers(m: Mem, destOf: string -> Ip, task: string, requestor: Ip, n: nat,
                                               a: string)
    ensures CountOf(AfterQueries(m, destOf, task, requestor, n), Trim(task), a)
         == CountOf(m, Trim(task), a) + multiset(AddressesIn(Answers(m, destOf, task, requestor, n)))[a]
    decreases n
  {
    if n == 0 {
    } else {
      var r, t := Get(m, destOf, task, requestor), Trim(task);
      CountsFollowAnswers(r.mem, destOf, task, requestor, n - 1, a);
      GetCountsQuery(m, destOf, task, requestor, t, a);
      AddressesInCons(r.answer, Answers(r.mem, destOf, task, requestor, n - 1), a);
      if r.answer.Served? { KeyOfTask(t, a, r.answer.address); }
    }
  }

  // ---------------------------------------------------------------------------
  // Runs of queries
  // ---------------------------------------------------------------------------

  /** The answers to n queries for one task by one requestor, one after the other. */
  function Answers(m: Mem, destOf: string -> Ip, task: string, requestor: Ip, n: nat): seq<Answer>
    decreases n
  {
    if n == 0 then []
    else
      var r := Get(m, destOf, task, requestor);
      [r.answer] + Answers(r.mem, destOf, task, requestor, n - 1)
  }

  /** The addresses in the answers. */
  function AddressesIn(answers: seq<Answer>): seq<string> {
    if answers == [] then []
    else (if answers[0].Served? then [answers[0].address] else []) + AddressesIn(answers[1..])
  }

  lemma GetAdvances(m: Mem, destOf: string -> Ip, task: string, requestor: Ip, pool: seq<string>)
    requires Trim(task) != "" && EntriesOf(m, Trim(task)) != []
    requires Candidates(m.firewall, destOf, requestor, EntriesOf(m, Trim(task))) != []
    requires pool == Pool(Candidates(m.firewall, destOf, requestor, EntriesOf(m, Trim(task)))) && pool != []
    ensures var r := Get(m, destOf, task, requestor);
            && r.answer == Answer.Served(pool[CursorOf(m, Trim(task)) % |pool|])
            && r.mem.services == m.services && r.mem.firewall == m.firewall
            && CursorOf(r.mem, Trim(task)) == CursorOf(m, Trim(task)) + 1
  {
  }

  lemma AddressesInStep(first: string, rest: seq<Answer>)
    ensures AddressesIn([Answer.Served(first)] + rest) == [first] + AddressesIn(rest)
  {
    assert ([Answer.Served(first)] + rest)[1..] == rest;
  }

  lemma {:induction false} AnswersAreWindow(m: Mem, destOf: string -> Ip, task: string, requestor: Ip, n: nat,
                                            pool: seq<string>)
    requires Trim(task) != "" && EntriesOf(m, Trim(task)) != []
    requires Candidates(m.firewall, destOf, requestor, EntriesOf(m, Trim(task))) != []
    requires pool == Pool(Candidates(m.firewall, destOf, requestor, EntriesOf(m, Trim(task)))) && pool != []
    ensures AddressesIn(Answers(m, destOf, task, requestor, n)) == Window(pool, CursorOf(m, Trim(task)), n)
    decreases n
  {
    if n == 0 {
    } else {
      var r := Get(m, destOf, task, requestor);
      GetAdvances(m, destOf, task, requestor, pool);
      AnswersAreWindow(r.mem, destOf, task, requestor, n - 1, pool);
      AddressesInStep(pool[CursorOf(m, Trim(task)) % |pool|], Answers(r.mem, destOf, task, requestor, n - 1));
    }
  }

  /** Fairness over a run: as many consecutive queries as the permitted entries weigh together give
      out each permitted address exactly its weight times, wherever the cursor stands. */
  lemma QueriesAreFair(m: Mem, destOf: string -> Ip, task: string, requestor: Ip, i: nat)
    requires Trim(task) != "" && EntriesOf(m, Trim(task)) != []
    requires DistinctAddresses(EntriesOf(m, Trim(task)))
    requires i < |Candidates(m.firewall, destOf, requestor, EntriesOf(m, Trim(task)))|
    ensures var allowed := Candidates(m.firewall, destOf, requestor, EntriesOf(m, Trim(task)));
            multiset(AddressesIn(Answers(m, destOf, task, requestor, |Pool(allowed)|)))[allowed[i].address]
              == Weight(allowed[i])
  {
    var allowed := Candidates(m.firewall, destOf, requestor, EntriesOf(m, Trim(task)));
    var pool, cursor := Pool(allowed), CursorOf(m, Trim(task));
    if Filters(m.firewall, requestor) {
      PermitDistinct(m.firewall.value, destOf, requestor, EntriesOf(m, Trim(task)));
    }
    PoolPrefix(allowed, 0);
    AnswersAreWindow(m, destOf, task, requestor, |pool|, pool);
    WindowIsRound(pool, cursor);
    RoundIsFair(allowed, cursor, i);
  }
}
