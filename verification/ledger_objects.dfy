/** The fare pipeline's stores as objects: each method is the source's loop, proved against the ledger
    specifications. */
module LedgerObjects {
  import opened Options
  import opened Journeys
  import opened Pairing
  import CardLedger
  import Debts

  // ---------------------------------------------------------------------------
  // Station costs
  // ---------------------------------------------------------------------------

  datatype StationCost = StationCost(from: string, to: string, cents: int)

  type Costs = map<(string, string), int>

  /** What a lookup may answer: the cost of either direction, and nothing when neither is there. */
  ghost predicate Answers(costs: Costs, fares: Fares) {
    forall a, b ::
      match fares(a, b)
      case None => (a, b) !in costs && (b, a) !in costs
      case Some(c) => ((a, b) in costs && costs[(a, b)] == c) || ((b, a) in costs && costs[(b, a)] == c)
  }

  /** Seeding, row by row up to the first failing insert, keeps the costs that are there and adds none that
      is negative, so a table that was only ever seeded answers lookups with non-negative fares. */
  method SeedStationCosts(costs: Costs, batch: seq<StationCost>, fault: Option<nat>) returns (r: Costs, ok: bool)
    requires forall k :: k in costs ==> costs[k] >= 0
    ensures ok <==> !(fault.Some? && fault.value < |batch| && Usable(batch[fault.value]))
    ensures var done := if ok then batch else batch[..fault.value];
            && (forall k :: k in costs ==> k in r && r[k] == costs[k])
            && (forall c :: c in done && Usable(c) ==> (c.from, c.to) in r)
            && (forall k :: k in r && k !in costs ==>
                  StationCost(k.0, k.1, r[k]) in done && Usable(StationCost(k.0, k.1, r[k])))
    ensures forall fares :: Answers(r, fares) ==> Debts.NonNegative(fares)
  {
    r, ok := costs, true;
    for i := 0 to |batch|
      invariant ok && !(fault.Some? && fault.value < i && Usable(batch[fault.value]))
      invariant Seeded(costs, batch[..i], r)
    {
      if Usable(batch[i]) && fault == Some(i) {
        ok := false;
        break;
      }
      SeedOne(costs, batch[..i], r, batch[i]);
      assert batch[..i + 1] == batch[..i] + [batch[i]];
      if Usable(batch[i]) && (batch[i].from, batch[i].to) !in r {
        r := r[(batch[i].from, batch[i].to) := batch[i].cents];
      }
    }
    assert batch[..|batch|] == batch;
    forall fares | Answers(r, fares) ensures Debts.NonNegative(fares) {
      SeededFares(r, fares);
    }
  }

  predicate Usable(c: StationCost) {
    c.from != "" && c.to != "" && c.cents >= 0
  }

  /** The costs that were there are kept, the usable ones of `done` are in, and nothing else is. */
  ghost predicate Seeded(costs: Costs, done: seq<StationCost>, r: Costs) {
    && (forall k :: k in costs ==> k in r && r[k] == costs[k])
    && (forall c :: c in done && Usable(c) ==> (c.from, c.to) in r)
    && (forall k :: k in r && k !in costs ==>
          StationCost(k.0, k.1, r[k]) in done && Usable(StationCost(k.0, k.1, r[k])))
  }

  lemma SeedOne(costs: Costs, done: seq<StationCost>, r: Costs, c: StationCost)
    requires Seeded(costs, done, r)
    ensures Seeded(costs, done + [c], if Usable(c) && (c.from, c.to) !in r then r[(c.from, c.to) := c.cents] else r)
  {
    var after := if Usable(c) && (c.from, c.to) !in r then r[(c.from, c.to) := c.cents] else r;
    forall k | k in after && k !in costs
      ensures StationCost(k.0, k.1, after[k]) in done + [c] && Usable(StationCost(k.0, k.1, after[k]))
    {
      if k !in r { assert k == (c.from, c.to); }
    }
  }

  lemma SeededFares(costs: Costs, fares: Fares)
    requires forall k :: k in costs ==> costs[k] >= 0
    requires Answers(costs, fares)
    ensures Debts.NonNegative(fares)
  {
    forall a, b | fares(a, b).Some? ensures fares(a, b).value >= 0 {
      assert (a, b) in costs || (b, a) in costs;
    }
  }

  // ---------------------------------------------------------------------------
  // Inserting taps
  // ---------------------------------------------------------------------------

  /** Row by row, stopping at the first failing insert, if one fails. */
  method InsertTransactions(taps: Taps, batch: seq<Received>, fault: Option<nat>) returns (r: Taps, ok: bool)
    ensures ok <==> !(fault.Some? && fault.value < |batch| && Complete(batch[fault.value]))
    ensures r == Insert(taps, if ok then batch else batch[..fault.value])
    ensures Insert(r, batch) == Insert(taps, batch)
  {
    r := taps;
    ok := true;
    for i := 0 to |batch|
      invariant ok && r == Insert(taps, batch[..i])
      invariant !(fault.Some? && fault.value < i && Complete(batch[fault.value]))
    {
      if Complete(batch[i]) && fault == Some(i) {
        ResumeAfterPartial(taps, batch, i);
        return r, false;
      }
      assert batch[..i + 1][..i] == batch[..i];
      r := InsertOne(r, batch[i]);
    }
    assert batch[..|batch|] == batch;
    ResumeAfterPartial(taps, batch, |batch|);
  }

  // ---------------------------------------------------------------------------
  // Journeys
  // ---------------------------------------------------------------------------

  /** Where a holder's transaction fails: before its rows are read, in a statement of a pair, or, when the
      index is the number of pairs, in the commit. */
  datatype Fault = Never | Begin | Pair(index: nat)

  predicate Fails(order: seq<string>, fault: Fault) {
    fault.Begin? || (fault.Pair? && fault.index <= |order| / 2)
  }

  /** How many pairs are gone through before the failure, if there is one. */
  function PairsDone(order: seq<string>, fault: Fault): (n: nat)
    ensures 2 * n <= |order|
  {
    match fault
    case Never => |order| / 2
    case Begin => 0
    case Pair(k) => if k < |order| / 2 then k else |order| / 2
  }

  /** The journeys counted for a holder, whether or not the transaction is committed. */
  function Count(fares: Fares, taps: Taps, order: seq<string>, fault: Fault): nat
    requires AllIn(taps, order)
  {
    |Charges(fares, taps, order, PairsDone(order, fault))|
  }

  /** Marking leaves the stations alone, so every pair is charged by the rows as they were selected. */
  lemma MarkStep(fares: Fares, taps: Taps, order: seq<string>, i: nat)
    requires AllIn(taps, order) && 2 * i + 2 <= |order|
    ensures Mark(fares, taps, order, i + 1)
         == MarkBoth(Mark(fares, taps, order, i), order[2 * i], order[2 * i + 1],
                     Fare(fares, taps, order[2 * i], order[2 * i + 1]))
  {
    var before, from, to := Mark(fares, taps, order, i), order[2 * i], order[2 * i + 1];
    assert Fare(fares, before, from, to) == Fare(fares, taps, from, to) by {
      MarkFrame(fares, taps, order, i, from);
      MarkFrame(fares, taps, order, i, to);
    }
    assert Mark(fares, taps, order, i + 1) == MarkPair(fares, before, from, to);
  }

  lemma ChargesStep(fares: Fares, taps: Taps, order: seq<string>, i: nat, token: string)
    requires AllIn(taps, order) && 2 * i + 2 <= |order|
    ensures var fare := Fare(fares, taps, order[2 * i], order[2 * i + 1]);
            var before, after := Charges(fares, taps, order, i), Charges(fares, taps, order, i + 1);
            if fare.Some? then
              && |after| == |before| + 1 && Sum(after) == Sum(before) + fare.value
              && Debts.NewDebts(token, after) == Debts.NewDebts(token, before) + [Debts.Debt(token, fare.value, false)]
            else after == before
  {
    var fare := Fare(fares, taps, order[2 * i], order[2 * i + 1]);
    var before := Charges(fares, taps, order, i);
    if fare.Some? {
      assert (before + [fare.value])[..|before|] == before;
    } else {
      assert before + [] == before;
    }
  }

  /** The pair loop of a card's transaction: each priced pair debits the balance. */
  method DebitPairs(fares: Fares, taps: Taps, order: seq<string>, balance: int, fault: Fault)
    returns (marked: Taps, left: int, journeys: nat)
    requires AllIn(taps, order)
    ensures marked == Mark(fares, taps, order, PairsDone(order, fault))
    ensures left == balance - Sum(Charges(fares, taps, order, PairsDone(order, fault)))
    ensures journeys == Count(fares, taps, order, fault)
  {
    marked, left, journeys := taps, balance, 0;
    var n := PairsDone(order, fault);
    for i := 0 to n
      invariant marked == Mark(fares, taps, order, i)
      invariant left == balance - Sum(Charges(fares, taps, order, i))
      invariant journeys == |Charges(fares, taps, order, i)|
    {
      var from, to := order[2 * i], order[2 * i + 1];
      MarkStep(fares, taps, order, i);
      ChargesStep(fares, taps, order, i, "");
      var fare := Fare(fares, taps, from, to);
      marked := MarkBoth(marked, from, to, fare);
      if fare.Some? {
        left, journeys := left - fare.value, journeys + 1;
      }
    }
  }

  /** The pair loop of a token's transaction: each priced pair adds a debt. */
  method OwePairs(fares: Fares, taps: Taps, order: seq<string>, token: string, fault: Fault)
    returns (marked: Taps, added: seq<Debts.Debt>, journeys: nat)
    requires AllIn(taps, order)
    ensures marked == Mark(fares, taps, order, PairsDone(order, fault))
    ensures added == Debts.NewDebts(token, Charges(fares, taps, order, PairsDone(order, fault)))
    ensures journeys == Count(fares, taps, order, fault)
  {
    marked, added, journeys := taps, [], 0;
    var n := PairsDone(order, fault);
    for i := 0 to n
      invariant marked == Mark(fares, taps, order, i)
      invariant added == Debts.NewDebts(token, Charges(fares, taps, order, i))
      invariant journeys == |Charges(fares, taps, order, i)|
    {
      var from, to := order[2 * i], order[2 * i + 1];
      MarkStep(fares, taps, order, i);
      ChargesStep(fares, taps, order, i, token);
      var fare := Fare(fares, taps, from, to);
      marked := MarkBoth(marked, from, to, fare);
      if fare.Some? {
        added, journeys := added + [Debts.Debt(token, fare.value, false)], journeys + 1;
      }
    }
  }

  class CardStore {
    var cards: map<string, int>
    var taps: Taps

    function View(): CardLedger.Db
      reads this
    {
      CardLedger.Db(cards, taps)
    }

    /** One card's transaction. The count includes the journeys of a transaction that then fails. */
    method ConstructCard(fares: Fares, card: string, order: seq<string>, fault: Fault)
      returns (journeys: nat, ok: bool)
      requires AllIn(taps, order)
      modifies this
      ensures View() == CardLedger.Construct(fares, old(View()), card, order, !Fails(order, fault))
      ensures ok <==> !fault.Begin? && (card in old(cards) && |order| >= 2 ==> !Fails(order, fault))
      ensures journeys == if card in old(cards) then Count(fares, old(taps), order, fault) else 0
    {
      if fault.Begin? {
        return 0, false;
      }
      if card !in cards || |order| < 2 {
        return 0, true;
      }
      var marked, left, count := DebitPairs(fares, taps, order, cards[card], fault);
      if Fails(order, fault) {
        return count, false;
      }
      assert PairsDone(order, fault) == |order| / 2;
      cards := cards[card := left];
      taps := marked;
      return count, true;
    }

    /** One round of the periodic job, after a batch of taps has arrived. */
    method VisitCard(fares: Fares, card: string, select: Select, faults: string -> Fault, batch: seq<Received>,
                     before: nat, ghost start: CardLedger.Db, ghost visited: seq<string>,
                     ghost arrived: seq<Received>, ghost turns: seq<CardLedger.Event>)
      returns (journeys: nat, ok: bool, ghost turns': seq<CardLedger.Event>)
      requires Selecting(select)
      requires Worked(fares, faults, start, visited, arrived, View(), turns, before)
      modifies this
      ensures Worked(fares, faults, start, visited + [card], arrived + batch, View(), turns', journeys)
      ensures !ok ==> turns' != [] && turns'[|turns'| - 1].Constructed? && !turns'[|turns'| - 1].committed
    {
      var order := select(Insert(taps, batch), card);
      turns' := TurnWorked(fares, faults, start, visited, arrived, View(), turns, before, batch, card, order);
      taps := Insert(taps, batch);
      var count;
      count, ok := ConstructCard(fares, card, order, faults(card));
      journeys := before + count;
    }

    /** The periodic job: each card in turn, up to and including the first that fails, while taps go on
        arriving in between. What happens is a possible run of arrivals and constructions. */
    method RunJourneyConstruction(fares: Fares, visit: seq<string>, select: Select, faults: string -> Fault,
                                  arriving: nat -> seq<Received>)
      returns (journeys: nat, ok: bool, ghost visited: nat, ghost turns: seq<CardLedger.Event>)
      requires Selecting(select)
      modifies this
      ensures visited <= |visit| && (ok ==> visited == |visit|)
      ensures Worked(fares, faults, old(View()), visit[..visited], Batches(arriving, visited), View(), turns, journeys)
      ensures !ok ==> turns != [] && turns[|turns| - 1].Constructed? && !turns[|turns| - 1].committed
    {
      journeys, ok, visited, turns := 0, true, 0, [];
      for i := 0 to |visit|
        invariant ok && visited == i
        invariant Worked(fares, faults, old(View()), visit[..i], Batches(arriving, i), View(), turns, journeys)
      {
        assert visit[..i + 1] == visit[..i] + [visit[i]];
        journeys, ok, turns := VisitCard(fares, visit[i], select, faults, arriving(i), journeys, old(View()),
                                         visit[..i], Batches(arriving, i), turns);
        visited := i + 1;
        if !ok {
          return;
        }
      }
      assert visit[..|visit|] == visit;
    }
  }

  /** The SELECT of a holder's unprocessed taps. */
  type Select = (Taps, string) -> seq<string>

  ghost predicate Selecting(select: Select) {
    forall taps, holder :: Selects(taps, holder, select(taps, holder))
  }

  /** What arrives before each of the first n turns, together. */
  function Batches(arriving: nat -> seq<Received>, n: nat): seq<Received> {
    if n == 0 then [] else Batches(arriving, n - 1) + arriving(n - 1)
  }

  function CardOf(e: CardLedger.Event): seq<string> {
    if e.Constructed? then [e.card] else []
  }

  function TapOf(e: CardLedger.Event): seq<Received> {
    if e.Arrived? then [e.r] else []
  }

  /** The cards whose turn came. */
  function Cards(es: seq<CardLedger.Event>): seq<string> {
    if es == [] then [] else Cards(es[..|es| - 1]) + CardOf(es[|es| - 1])
  }

  /** The journeys an event counts. */
  ghost function Counted(fares: Fares, faults: string -> Fault, db: CardLedger.Db, e: CardLedger.Event): nat
    requires CardLedger.Possible(db, e)
  {
    if e.Constructed? && e.card in db.cards then
      SelectedAreIn(db.taps, e.card, e.order);
      Count(fares, db.taps, e.order, faults(e.card))
    else 0
  }

  ghost function TotalCounted(fares: Fares, faults: string -> Fault, db: CardLedger.Db, es: seq<CardLedger.Event>): nat
    requires CardLedger.PossibleRun(fares, db, es)
    decreases |es|
  {
    if es == [] then 0
    else Counted(fares, faults, db, es[0]) + TotalCounted(fares, faults, CardLedger.Step(fares, db, es[0]), es[1..])
  }

  /** The events are a possible run from `start` to `now`: the visited cards' turns in order, each committed
      unless it fails, among the arrived taps in order; `journeys` counts what those turns count. */
  ghost predicate Worked(fares: Fares, faults: string -> Fault, start: CardLedger.Db, visited: seq<string>,
                         arrived: seq<Received>, now: CardLedger.Db, es: seq<CardLedger.Event>, journeys: int)
  {
    && CardLedger.PossibleRun(fares, start, es) && now == CardLedger.Run(fares, start, es)
    && Cards(es) == visited && CardLedger.Arrivals(es) == arrived
    && (forall i :: 0 <= i < |es| ==> AsFaulted(faults, es[i]))
    && journeys == TotalCounted(fares, faults, start, es)
  }

  predicate AsFaulted(faults: string -> Fault, e: CardLedger.Event) {
    e.Constructed? ==> e.committed == !Fails(e.order, faults(e.card))
  }

  lemma {:induction false} ArrivalsAppend(es: seq<CardLedger.Event>, e: CardLedger.Event)
    ensures CardLedger.Arrivals(es + [e]) == CardLedger.Arrivals(es) + TapOf(e)
  {
    if es == [] {
      assert [e][1..] == [] && TapOf(e) + [] == TapOf(e);
    } else {
      ArrivalsAppend(es[1..], e);
      assert (es + [e])[1..] == es[1..] + [e];
      Append(TapOf(es[0]), CardLedger.Arrivals(es[1..]), TapOf(e));
    }
  }

  lemma {:induction false} RunAppend(fares: Fares, faults: string -> Fault, db: CardLedger.Db,
                                     es: seq<CardLedger.Event>, e: CardLedger.Event)
    requires CardLedger.PossibleRun(fares, db, es)
    requires CardLedger.Possible(CardLedger.Run(fares, db, es), e)
    ensures CardLedger.PossibleRun(fares, db, es + [e])
    ensures CardLedger.Run(fares, db, es + [e]) == CardLedger.Step(fares, CardLedger.Run(fares, db, es), e)
    ensures TotalCounted(fares, faults, db, es + [e])
         == TotalCounted(fares, faults, db, es) + Counted(fares, faults, CardLedger.Run(fares, db, es), e)
    decreases |es|
  {
    if es == [] {
      assert [e][1..] == [];
    } else {
      RunAppend(fares, faults, CardLedger.Step(fares, db, es[0]), es[1..], e);
      assert (es + [e])[1..] == es[1..] + [e];
    }
  }

  lemma OneMore(fares: Fares, faults: string -> Fault, start: CardLedger.Db, visited: seq<string>,
                arrived: seq<Received>, now: CardLedger.Db, es: seq<CardLedger.Event>, journeys: int,
                e: CardLedger.Event)
    requires Worked(fares, faults, start, visited, arrived, now, es, journeys)
    requires CardLedger.Possible(now, e) && AsFaulted(faults, e)
    ensures Worked(fares, faults, start, visited + CardOf(e), arrived + TapOf(e), CardLedger.Step(fares, now, e),
                   es + [e], journeys + Counted(fares, faults, now, e))
  {
    RunAppend(fares, faults, start, es, e);
    ArrivalsAppend(es, e);
    assert (es + [e])[..|es|] == es;
  }

  lemma {:induction false} TapsArrive(fares: Fares, faults: string -> Fault, start: CardLedger.Db,
                                      visited: seq<string>, arrived: seq<Received>, now: CardLedger.Db,
                                      es: seq<CardLedger.Event>, journeys: int, batch: seq<Received>)
    returns (es': seq<CardLedger.Event>)
    requires Worked(fares, faults, start, visited, arrived, now, es, journeys)
    ensures Worked(fares, faults, start, visited, arrived + batch, now.(taps := Insert(now.taps, batch)), es', journeys)
  {
    if batch == [] {
      es' := es;
      assert arrived + [] == arrived;
    } else {
      var init, last := batch[..|batch| - 1], batch[|batch| - 1];
      var mid := TapsArrive(fares, faults, start, visited, arrived, now, es, journeys, init);
      var e := CardLedger.Arrived(last);
      OneMore(fares, faults, start, visited, arrived + init, now.(taps := Insert(now.taps, init)), mid, journeys, e);
      es' := mid + [e];
      assert visited + [] == visited;
      assert batch == init + [last] && (arrived + init) + [last] == arrived + batch;
    }
  }

  /** A batch of taps arrives, and then one card has its turn. */
  lemma TurnWorked(fares: Fares, faults: string -> Fault, start: CardLedger.Db, visited: seq<string>,
                   arrived: seq<Received>, now: CardLedger.Db, es: seq<CardLedger.Event>, journeys: int,
                   batch: seq<Received>, card: string, order: seq<string>)
    returns (es': seq<CardLedger.Event>)
    requires Worked(fares, faults, start, visited, arrived, now, es, journeys)
    requires Selects(Insert(now.taps, batch), card, order)
    ensures var db, ok := now.(taps := Insert(now.taps, batch)), !Fails(order, faults(card));
            && AllIn(db.taps, order)
            && Worked(fares, faults, start, visited + [card], arrived + batch,
                      CardLedger.Construct(fares, db, card, order, ok), es',
                      journeys + if card in db.cards then Count(fares, db.taps, order, faults(card)) else 0)
            && es' != [] && es'[|es'| - 1] == CardLedger.Constructed(card, order, ok)
  {
    var db := now.(taps := Insert(now.taps, batch));
    var e := CardLedger.Constructed(card, order, !Fails(order, faults(card)));
    var mid := TapsArrive(fares, faults, start, visited, arrived, now, es, journeys, batch);
    SelectedAreIn(db.taps, card, order);
    OneMore(fares, faults, start, visited, arrived + batch, db, mid, journeys, e);
    es' := mid + [e];
    assert (arrived + batch) + [] == arrived + batch;
  }

  // ---------------------------------------------------------------------------
  // Debts
  // ---------------------------------------------------------------------------

  /** The authority's insert loop, which may stop before row `rows`. */
  method InsertDebts(received: seq<Debts.Owed>, statement: seq<Debts.Owed>, rows: nat)
    returns (r: seq<Debts.Owed>, ok: bool)
    ensures ok <==> rows >= |statement|
    ensures r == Debts.InsertDebts(received, statement[..if rows < |statement| then rows else |statement|])
  {
    r, ok := received, true;
    for i := 0 to |statement|
      invariant ok && i <= rows
      invariant r == Debts.InsertDebts(received, statement[..i])
    {
      if i == rows {
        return r, false;
      }
      assert statement[..i + 1][..i] == statement[..i];
      if statement[i].token != "" && statement[i].amount != 0 {
        r := r + [statement[i]];
      }
    }
  }

  class DebtStore {
    var taps: Taps
    var debts: seq<Debts.Debt>
    /** The payment authority's table, at the other end of the post. */
    var received: seq<Debts.Owed>

    function View(): Debts.Office
      reads this
    {
      Debts.Office(taps, debts, received)
    }

    method ConstructToken(fares: Fares, token: string, order: seq<string>, fault: Fault)
      returns (journeys: nat, ok: bool)
      requires AllIn(taps, order)
      modifies this
      ensures View() == Debts.Build(fares, old(View()), token, order, !Fails(order, fault))
      ensures ok <==> !fault.Begin? && (|order| >= 2 ==> !Fails(order, fault))
      ensures journeys == Count(fares, old(taps), order, fault)
    {
      if fault.Begin? {
        return 0, false;
      }
      if |order| < 2 {
        return 0, true;
      }
      var marked, added, count := OwePairs(fares, taps, order, token, fault);
      if Fails(order, fault) {
        return count, false;
      }
      debts := debts + added;
      taps := marked;
      return count, true;
    }

    /** The second half of the periodic job: sum, post, and mark only after a good reply. */
    method ReportDebts(tokens: seq<string>, post: Debts.Post)
      modifies this
      ensures View() == Debts.Report(old(View()), tokens, post)
    {
      var statement := Debts.Statement(debts, tokens);
      if statement == [] {
        return;
      }
      var r, ok := InsertDebts(received, statement, post.rows);
      received := r;
      if ok && post.replied && post.marked {
        debts := Debts.MarkReported(debts);
      }
    }
  }
}
