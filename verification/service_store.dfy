/** The persistent table of services behind the registry. */
module ServiceStore {
  import opened Sorting
  import opened Selection

  datatype Pair = Pair(task: string, address: string)

  datatype Row = Row(heartbeat: int, count: nat, capacity: int, active: bool)

  type Table = map<Pair, Row>

  /** A service as a query returns it. */
  datatype Listed = Listed(service: Service, count: nat)

  /** How the database orders a set of names. Nothing depends on which order it is. */
  type Order = set<string> -> seq<string>

  ghost predicate Orders(order: Order) {
    forall names :: Enumerates(order(names), names)
  }

  /** `s` lists exactly the members of `names`, each once. */
  ghost predicate Enumerates(s: seq<string>, names: set<string>) {
    && (forall x :: x in s <==> x in names)
    && (forall i, j :: 0 <= i < j < |s| ==> s[i] != s[j])
  }

  /** Inserts or updates a row. A positive count is written as it is; otherwise an active row keeps
      its count and a new or reactivated row starts at zero. */
  function Register(table: Table, p: Pair, e: Service, count: nat): Table {
    table[p := Row(e.heartbeat,
                   if count > 0 then count else if p in table && table[p].active then table[p].count else 0,
                   Normalized(e.capacity),
                   true)]
  }

  predicate IsActive(table: Table, p: Pair) {
    p in table && table[p].active
  }

  /** What the store counts for a pair. */
  function StoreCount(table: Table, p: Pair): nat {
    if IsActive(table, p) then table[p].count else 0
  }

  function IncrementQueryCount(table: Table, p: Pair): Table
    requires IsActive(table, p)
  {
    table[p := table[p].(count := table[p].count + 1)]
  }

  function ActiveAddresses(table: Table, task: string): set<string> {
    set p | p in table && p.task == task && table[p].active :: p.address
  }

  function ActiveTasks(table: Table): set<string> {
    set p | p in table && table[p].active :: p.task
  }

  function RowsOf(table: Table, task: string, addresses: seq<string>): (r: seq<Listed>)
    requires forall a :: a in addresses ==> Pair(task, a) in table
    ensures |r| == |addresses|
    ensures forall i :: 0 <= i < |r| ==> var row := table[Pair(task, addresses[i])];
              r[i] == Listed(Service(addresses[i], row.heartbeat, Normalized(row.capacity)), row.count)
  {
    if addresses == [] then []
    else
      var row := table[Pair(task, addresses[0])];
      [Listed(Service(addresses[0], row.heartbeat, Normalized(row.capacity)), row.count)]
      + RowsOf(table, task, addresses[1..])
  }

  /** The active services of one task, in the database's order. */
  function ListTask(order: Order, table: Table, task: string): (r: seq<Listed>)
    requires Orders(order)
  {
    assert Enumerates(order(ActiveAddresses(table, task)), ActiveAddresses(table, task));
    RowsOf(table, task, order(ActiveAddresses(table, task)))
  }

  /** A task's listing has exactly its active addresses. */
  lemma ListTaskMembers(order: Order, table: Table, task: string, address: string)
    requires Orders(order)
    ensures IsActive(table, Pair(task, address))
       <==> exists i :: 0 <= i < |ListTask(order, table, task)|
                        && ListTask(order, table, task)[i].service.address == address
  {
    var names := order(ActiveAddresses(table, task));
    var listing := ListTask(order, table, task);
    assert Enumerates(names, ActiveAddresses(table, task));
    if IsActive(table, Pair(task, address)) {
      assert address in ActiveAddresses(table, task) && address in names;
      var i :| 0 <= i < |names| && names[i] == address;
      assert listing[i].service.address == address;
    }
    if i :| 0 <= i < |listing| && listing[i].service.address == address {
      assert names[i] == address && names[i] in names;
    }
  }

  /** A registered row carries the time and capacity it came with and is active; its count is the one written, or
      the one it had while active; no other row changes. */
  lemma RegisteredRow(table: Table, p: Pair, e: Service, count: nat, q: Pair)
    ensures var after := Register(table, p, e, count);
            && IsActive(after, p) && after[p].heartbeat == e.heartbeat
            && after[p].capacity == (if e.capacity > 0 then e.capacity else 1)
            && after[p].count == (if count > 0 then count else StoreCount(table, p))
            && (q != p ==> (q in after <==> q in table) && (q in table ==> after[q] == table[q]))
  {
  }

  /** A task's listing has one entry for each active address, as its row has it. */
  lemma ListedRows(order: Order, table: Table, task: string, i: nat)
    requires Orders(order) && i < |ListTask(order, table, task)|
    ensures |ListTask(order, table, task)| == |ActiveAddresses(table, task)|
    ensures var l := ListTask(order, table, task)[i];
            var p := Pair(task, l.service.address);
            && IsActive(table, p) && l.count == StoreCount(table, p)
            && l.service.heartbeat == table[p].heartbeat
            && l.service.capacity == (if table[p].capacity > 0 then table[p].capacity else 1)
            && forall j :: 0 <= j < i ==> ListTask(order, table, task)[j].service.address != l.service.address
  {
    var names := order(ActiveAddresses(table, task));
    assert Enumerates(names, ActiveAddresses(table, task));
    EnumerationSize(names, ActiveAddresses(table, task));
    assert names[i] in names;
  }

  function SumCounts(listing: seq<Listed>): nat {
    if listing == [] then 0 else listing[0].count + SumCounts(listing[1..])
  }

  /** Combined query count of a task's active services. */
  function Total(order: Order, table: Table, task: string): nat
    requires Orders(order)
  {
    SumCounts(ListTask(order, table, task))
  }

  lemma {:induction false} RowsShift(a: Table, b: Table, task: string, names: seq<string>, p: Pair, d: int)
    requires forall x :: x in names ==> Pair(task, x) in a && Pair(task, x) in b
    requires forall x :: x in names ==>
               b[Pair(task, x)].count == a[Pair(task, x)].count + if Pair(task, x) == p then d else 0
    requires forall i, j :: 0 <= i < j < |names| ==> names[i] != names[j]
    ensures SumCounts(RowsOf(b, task, names))
         == SumCounts(RowsOf(a, task, names)) + if p.task == task && p.address in names then d else 0
  {
    if names == [] {
    } else {
      RowsShift(a, b, task, names[1..], p, d);
      assert RowsOf(a, task, names)[1..] == RowsOf(a, task, names[1..]);
      assert RowsOf(b, task, names)[1..] == RowsOf(b, task, names[1..]);
      assert p.address in names <==> p.address == names[0] || p.address in names[1..];
      assert names[0] !in names[1..];
    }
  }

  /** Changing one active row's count by d changes its task's total by d and no other total. */
  lemma TotalShift(order: Order, a: Table, b: Table, p: Pair, d: int, t: string)
    requires Orders(order) && IsActive(a, p) && a.Keys == b.Keys
    requires forall q :: q in a ==> b[q].active == a[q].active && b[q].count == a[q].count + if q == p then d else 0
    ensures Total(order, b, t) == Total(order, a, t) + if t == p.task then d else 0
  {
    var names := order(ActiveAddresses(a, t));
    assert Enumerates(names, ActiveAddresses(a, t));
    assert ActiveAddresses(b, t) == ActiveAddresses(a, t);
    RowsShift(a, b, t, names, p, d);
    if t == p.task { assert p.address in ActiveAddresses(a, t); }
  }

  /** Serving a query from the store raises exactly its task's total, by one. */
  lemma IncrementRaisesTotal(order: Order, table: Table, p: Pair, t: string)
    requires Orders(order) && IsActive(table, p)
    ensures Total(order, IncrementQueryCount(table, p), t) == Total(order, table, t) + if t == p.task then 1 else 0
  {
    TotalShift(order, table, IncrementQueryCount(table, p), p, 1, t);
  }

  lemma {:induction false} RowsAppend(table: Table, task: string, a: seq<string>, b: seq<string>)
    requires forall x :: x in a + b ==> Pair(task, x) in table
    ensures SumCounts(RowsOf(table, task, a + b))
         == SumCounts(RowsOf(table, task, a)) + SumCounts(RowsOf(table, task, b))
  {
    if a == [] {
      assert a + b == b;
    } else {
      assert (a + b)[1..] == a[1..] + b;
      RowsAppend(table, task, a[1..], b);
    }
  }

  /** Taking one name out of a listing takes out its count. */
  lemma RowsWithout(table: Table, task: string, names: seq<string>, k: nat)
    requires k < |names| && forall x :: x in names ==> Pair(task, x) in table
    ensures SumCounts(RowsOf(table, task, names))
         == SumCounts(RowsOf(table, task, names[..k] + names[k + 1..])) + table[Pair(task, names[k])].count
  {
    assert names == names[..k] + ([names[k]] + names[k + 1..]);
    RowsAppend(table, task, names[..k], [names[k]] + names[k + 1..]);
    RowsAppend(table, task, [names[k]], names[k + 1..]);
    RowsAppend(table, task, names[..k], names[k + 1..]);
  }

  lemma EnumeratesWithout(s: seq<string>, names: set<string>, k: nat)
    requires Enumerates(s, names) && k < |s|
    ensures Enumerates(s[..k] + s[k + 1..], names - {s[k]})
  {
    var rest := s[..k] + s[k + 1..];
    forall x ensures x in rest <==> x in names - {s[k]} {
      if x in names - {s[k]} {
        var i :| 0 <= i < |s| && s[i] == x;
        assert rest[if i < k then i else i - 1] == x;
      }
    }
  }

  /** The sum does not depend on the order of the names. */
  lemma {:induction false} SumAnyOrder(table: Table, task: string, a: seq<string>, b: seq<string>, names: set<string>)
    requires Enumerates(a, names) && Enumerates(b, names)
    requires forall x :: x in names ==> Pair(task, x) in table
    ensures SumCounts(RowsOf(table, task, a)) == SumCounts(RowsOf(table, task, b))
  {
    if a == [] {
      EnumerationSize(a, names);
      EnumerationSize(b, names);
    } else {
      assert a[0] in b;
      var k :| 0 <= k < |b| && b[k] == a[0];
      var rest, others := a[1..], b[..k] + b[k + 1..];
      assert a[..0] + a[1..] == rest;
      assert Enumerates(rest, names - {a[0]}) by { EnumeratesWithout(a, names, 0); }
      assert Enumerates(others, names - {a[0]}) by { EnumeratesWithout(b, names, k); }
      SumAnyOrder(table, task, rest, others, names - {a[0]});
      RowsWithout(table, task, a, 0);
      RowsWithout(table, task, b, k);
    }
  }

  lemma SameRows(a: Table, b: Table, task: string, names: seq<string>)
    requires forall x :: x in names ==> Pair(task, x) in a && Pair(task, x) in b
    requires forall x :: x in names ==> b[Pair(task, x)] == a[Pair(task, x)]
    ensures RowsOf(a, task, names) == RowsOf(b, task, names)
  {
  }

  /** A name more in a listing, in whatever order, adds its count. */
  lemma SumWithOneMore(table: Table, task: string, names: set<string>, a: string, fewer: seq<string>,
                       more: seq<string>)
    requires Enumerates(fewer, names) && Enumerates(more, names + {a}) && a !in names
    requires forall x :: x in names + {a} ==> Pair(task, x) in table
    ensures SumCounts(RowsOf(table, task, more)) == SumCounts(RowsOf(table, task, fewer)) + table[Pair(task, a)].count
  {
    assert a in more;
    var k :| 0 <= k < |more| && more[k] == a;
    RowsWithout(table, task, more, k);
    EnumeratesWithout(more, names + {a}, k);
    assert names + {a} - {a} == names;
    SumAnyOrder(table, task, fewer, more[..k] + more[k + 1..], names);
  }

  lemma ActivatedAddresses(table: Table, p: Pair, row: Row)
    requires !IsActive(table, p) && row.active
    ensures ActiveAddresses(table[p := row], p.task) == ActiveAddresses(table, p.task) + {p.address}
    ensures p.address !in ActiveAddresses(table, p.task)
  {
    var after := table[p := row];
    forall a ensures a in ActiveAddresses(after, p.task) <==> a in ActiveAddresses(table, p.task) || a == p.address {
      assert IsActive(after, Pair(p.task, a)) <==> IsActive(table, Pair(p.task, a)) || a == p.address;
    }
  }

  /** Activating a row adds its count to its task's total. */
  lemma ActivationTotal(order: Order, table: Table, p: Pair, row: Row)
    requires Orders(order) && !IsActive(table, p) && row.active
    ensures Total(order, table[p := row], p.task) == Total(order, table, p.task) + row.count
  {
    var after, names := table[p := row], ActiveAddresses(table, p.task);
    ActivatedAddresses(table, p, row);
    assert Enumerates(order(names), names) && Enumerates(order(names + {p.address}), names + {p.address});
    SumWithOneMore(after, p.task, names, p.address, order(names), order(names + {p.address}));
    SameRows(table, after, p.task, order(names));
  }

  /** Registering changes the service's own task only: its total by the difference between the count written
      and the one stored, which is zero for a row that is not active. Without a count nothing changes, so
      heartbeats and new services do not move tasks in the ranking. */
  lemma RegisterTotals(order: Order, table: Table, p: Pair, e: Service, count: nat, t: string)
    requires Orders(order)
    ensures Total(order, Register(table, p, e, count), t)
         == Total(order, table, t) + if t == p.task && count > 0 then count - StoreCount(table, p) else 0
  {
    var after := Register(table, p, e, count);
    if IsActive(table, p) {
      TotalShift(order, table, after, p, if count > 0 then count - table[p].count else 0, t);
    } else if t == p.task {
      ActivationTotal(order, table, p, after[p]);
    } else {
      assert ActiveAddresses(after, t) == ActiveAddresses(table, t);
      SameRows(table, after, t, order(ActiveAddresses(table, t)));
    }
  }

  /** Most queried first. */
  function Busiest(order: Order, table: Table): string -> int
    requires Orders(order)
  {
    (task: string) => 0 - Total(order, table, task)
  }

  /** The `limit` most queried active tasks, ties in the database's order. */
  function TopTasks(order: Order, table: Table, limit: nat): seq<string>
    requires Orders(order)
  {
    var ranked := SortBy(Busiest(order, table), order(ActiveTasks(table)));
    ranked[..if limit <= |ranked| then limit else |ranked|]
  }

  lemma RankedMembers(order: Order, table: Table)
    requires Orders(order)
    ensures forall t :: t in SortBy(Busiest(order, table), order(ActiveTasks(table))) <==> t in ActiveTasks(table)
  {
    var names := order(ActiveTasks(table));
    var ranked := SortBy(Busiest(order, table), names);
    SortBySorts(Busiest(order, table), names);
    assert Enumerates(names, ActiveTasks(table));
    forall t ensures t in ranked <==> t in ActiveTasks(table) {
      assert t in ranked <==> t in multiset(ranked);
      assert t in names <==> t in multiset(names);
    }
  }

  /** Nothing left out of the top is queried more than anything in it; the top holds active tasks
      only, and as many as the limit or as there are. */
  lemma TopTasksAreBusiest(order: Order, table: Table, limit: nat)
    requires Orders(order)
    ensures forall t :: t in TopTasks(order, table, limit) ==> t in ActiveTasks(table)
    ensures forall t, u :: t in TopTasks(order, table, limit)
              && u in ActiveTasks(table) && u !in TopTasks(order, table, limit)
              ==> Total(order, table, u) <= Total(order, table, t)
    ensures |TopTasks(order, table, limit)| ==
              if limit <= |ActiveTasks(table)| then limit else |ActiveTasks(table)|
  {
    var names, key := order(ActiveTasks(table)), Busiest(order, table);
    var ranked, top := SortBy(key, names), TopTasks(order, table, limit);
    SortBySorts(key, names);
    RankedMembers(order, table);
    assert Enumerates(names, ActiveTasks(table));
    EnumerationSize(names, ActiveTasks(table));
    forall t, u | t in top && u in ActiveTasks(table) && u !in top
      ensures Total(order, table, u) <= Total(order, table, t)
    {
      FirstAreSmallest(key, ranked, |top|, t, u);
    }
  }

  lemma {:induction false} EnumerationSize(s: seq<string>, names: set<string>)
    requires Enumerates(s, names)
    ensures |s| == |names|
  {
    if s == [] {
      assert names == {};
    } else {
      var rest := s[1..];
      forall x ensures x in rest <==> x in names - {s[0]} {
        assert x in s <==> x == s[0] || x in rest;
      }
      EnumerationSize(rest, names - {s[0]});
    }
  }
}
