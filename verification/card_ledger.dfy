/** Card balances: journeys are constructed per card inside a transaction that commits or rolls back
    as a whole. */
module CardLedger {
  import opened Journeys
  import opened Pairing

  datatype Db = Db(cards: map<string, int>, taps: Taps)

  /** One card's turn of journey construction. `order` is what the SELECT returned. A card that is
      not in the table is rolled back before its taps could be marked, so nothing changes; so does
      any failure up to and including the commit. */
  function Construct(fares: Fares, db: Db, card: string, order: seq<string>, committed: bool): Db
    requires AllIn(db.taps, order)
  {
    if card !in db.cards || |order| < 2 || !committed then db
    else
      var n := |order| / 2;
      Db(db.cards[card := db.cards[card] - Sum(Charges(fares, db.taps, order, n))], Mark(fares, db.taps, order, n))
  }

  datatype Event =
    | Arrived(r: Received)
    | Constructed(card: string, order: seq<string>, committed: bool)

  ghost predicate Possible(db: Db, e: Event) {
    e.Constructed? ==> Selects(db.taps, e.card, e.order)
  }

  ghost function Step(fares: Fares, db: Db, e: Event): Db
    requires Possible(db, e)
  {
    match e
    case Arrived(r) => db.(taps := InsertOne(db.taps, r))
    case Constructed(card, order, committed) =>
      SelectedAreIn(db.taps, card, order);
      Construct(fares, db, card, order, committed)
  }

  ghost predicate PossibleRun(fares: Fares, db: Db, es: seq<Event>)
    decreases |es|
  {
    es == [] || (Possible(db, es[0]) && PossibleRun(fares, Step(fares, db, es[0]), es[1..]))
  }

  ghost function Run(fares: Fares, db: Db, es: seq<Event>): Db
    requires PossibleRun(fares, db, es)
    decreases |es|
  {
    if es == [] then db else Run(fares, Step(fares, db, es[0]), es[1..])
  }

  // ---------------------------------------------------------------------------
  // The ledger balances
  // ---------------------------------------------------------------------------

  /** Twice what was taken from the card equals what its taps record as journey costs. */
  ghost predicate Balanced(start: map<string, int>, db: Db, card: string) {
    card in db.cards && card in start ==>
      2 * (start[card] - db.cards[card]) == Recorded(db.taps, IdsOf(db.taps, card))
  }

  lemma ConstructBalances(fares: Fares, db: Db, card: string, order: seq<string>, committed: bool,
                          start: map<string, int>, other: string)
    requires Selects(db.taps, card, order) && AllIn(db.taps, order)
    requires Balanced(start, db, other)
    ensures Balanced(start, Construct(fares, db, card, order, committed), other)
  {
    if card in db.cards && |order| >= 2 && committed {
      TurnRecords(fares, db.taps, card, order, |order| / 2, other);
    }
  }

  /** The ledger balances after every run of arrivals and constructions, committed or rolled back,
      whatever order equal tap times come in. */
  lemma {:induction false} RunBalances(fares: Fares, db: Db, es: seq<Event>, start: map<string, int>, card: string)
    requires PossibleRun(fares, db, es) && Balanced(start, db, card)
    ensures Balanced(start, Run(fares, db, es), card)
    decreases |es|
  {
    if es == [] {
    } else {
      match es[0] {
        case Arrived(r) => ArrivalRecordsNothing(db.taps, r, card);
        case Constructed(c, order, committed) =>
          SelectedAreIn(db.taps, c, order);
          ConstructBalances(fares, db, c, order, committed, start, card);
      }
      RunBalances(fares, Step(fares, db, es[0]), es[1..], start, card);
    }
  }

  /** A tap is processed at most once: from then on its row never changes. */
  lemma {:induction false} ProcessedOnce(fares: Fares, db: Db, es: seq<Event>, id: string)
    requires PossibleRun(fares, db, es)
    requires id in db.taps && db.taps[id].processed
    ensures id in Run(fares, db, es).taps && Run(fares, db, es).taps[id] == db.taps[id]
    decreases |es|
  {
    if es == [] {
    } else {
      match es[0] {
        case Arrived(r) =>
        case Constructed(c, order, committed) =>
          SelectedAreIn(db.taps, c, order);
          assert id !in order;
          MarkFrame(fares, db.taps, order, |order| / 2, id);
      }
      ProcessedOnce(fares, Step(fares, db, es[0]), es[1..], id);
    }
  }

  // ---------------------------------------------------------------------------
  // What a turn leaves
  // ---------------------------------------------------------------------------

  /** A committed turn leaves at most one tap of the card, whatever the tap times; a turn that is rolled
      back, and every turn of an unknown card, leaves them all. */
  lemma ConstructLeaves(fares: Fares, db: Db, card: string, order: seq<string>, committed: bool, left: seq<string>)
    requires Selects(db.taps, card, order) && AllIn(db.taps, order)
    requires Selects(Construct(fares, db, card, order, committed).taps, card, left)
    ensures |left| == if card in db.cards && committed then |order| % 2 else |order|
  {
    TurnLeaves(fares, db.taps, card, order, if card in db.cards && committed then |order| / 2 else 0, left);
  }

  /** The taps of a card are settled by its turn if and only if the card is known, or has no pair: the taps of
      an unknown card are selected again at every later turn. */
  lemma SettledIffKnown(fares: Fares, db: Db, card: string, order: seq<string>, left: seq<string>)
    requires Selects(db.taps, card, order) && AllIn(db.taps, order)
    requires Selects(Construct(fares, db, card, order, true).taps, card, left)
    ensures |left| < 2 <==> card in db.cards || |order| < 2
  {
    ConstructLeaves(fares, db, card, order, true, left);
  }

  /** At its smallest: the two taps of an unknown card are selected again after their turn. */
  lemma UnknownCardWaits(fares: Fares, card: string, from: string, to: string, first: Tap, second: Tap)
    requires from != to && first.holder == card && second.holder == card && first.time <= second.time
    requires !first.processed && !second.processed
    ensures var db := Db(map[], map[from := first, to := second]);
            Selects(Construct(fares, db, card, [from, to], true).taps, card, [from, to])
  {
  }

  /** Over every run an unknown card's taps are never processed. */
  lemma {:induction false} UnknownNeverProcessed(fares: Fares, db: Db, es: seq<Event>, card: string, id: string)
    requires PossibleRun(fares, db, es) && card !in db.cards
    requires forall x :: x in db.taps && db.taps[x].holder == card ==> !db.taps[x].processed
    requires id in Run(fares, db, es).taps && Run(fares, db, es).taps[id].holder == card
    ensures !Run(fares, db, es).taps[id].processed
    decreases |es|
  {
    if es == [] {
    } else {
      var next := Step(fares, db, es[0]);
      UnknownStep(fares, db, es[0], card);
      UnknownNeverProcessed(fares, next, es[1..], card, id);
    }
  }

  lemma UnknownStep(fares: Fares, db: Db, e: Event, card: string)
    requires Possible(db, e) && card !in db.cards
    requires forall x :: x in db.taps && db.taps[x].holder == card ==> !db.taps[x].processed
    ensures card !in Step(fares, db, e).cards
    ensures var taps := Step(fares, db, e).taps;
            forall x :: x in taps && taps[x].holder == card ==> !taps[x].processed
  {
    if e.Constructed? && Step(fares, db, e) != db {
      SelectedAreIn(db.taps, e.card, e.order);
      var n := |e.order| / 2;
      var taps := Mark(fares, db.taps, e.order, n);
      forall x | x in taps && taps[x].holder == card ensures !taps[x].processed {
        MarkFrame(fares, db.taps, e.order, n, x);
        assert x !in e.order;
      }
    }
  }

  // ---------------------------------------------------------------------------
  // Confluence
  // ---------------------------------------------------------------------------

  function Arrivals(es: seq<Event>): seq<Received> {
    if es == [] then [] else (if es[0].Arrived? then [es[0].r] else []) + Arrivals(es[1..])
  }

  /** The card's rows are its arrivals with the first m pairs processed, and since the lo-th pair its
      balance has gone down from `start` by what the journeys cost. */
  ghost predicate Tracks(fares: Fares, start: map<string, int>, db: Db, card: string, arrivals: seq<Received>,
                         lo: nat, m: nat)
  {
    && db.cards.Keys == start.Keys && lo <= m
    && RowsTrack(fares, db.taps, card, arrivals, m)
    && (card in start ==> db.cards[card] == start[card] - Sum(FareList(fares, arrivals, lo, m)))
  }

  /** The card's own construction, when it commits, processes every complete pair there is. */
  lemma OwnConstructTracks(fares: Fares, start: map<string, int>, db: Db, card: string, arrivals: seq<Received>,
                           lo: nat, m: nat, order: seq<string>)
    requires Tracks(fares, start, db, card, arrivals, lo, m)
    requires card in start && Selects(db.taps, card, order) && AllIn(db.taps, order)
    ensures Tracks(fares, start, Construct(fares, db, card, order, true), card, arrivals, lo, |arrivals| / 2)
  {
    TurnTracks(fares, db.taps, card, arrivals, lo, m, order);
    SumConcat(FareList(fares, arrivals, lo, m), Charges(fares, db.taps, order, |order| / 2));
  }

  lemma ConstructTracks(fares: Fares, start: map<string, int>, db: Db, e: Event, card: string,
                        arrivals: seq<Received>, lo: nat, m: nat) returns (m': nat)
    requires e.Constructed? && Possible(db, e) && Tracks(fares, start, db, card, arrivals, lo, m)
    ensures Tracks(fares, start, Step(fares, db, e), card, arrivals, lo, m')
    ensures card !in start ==> m' == m
  {
    m' := m;
    SelectedAreIn(db.taps, e.card, e.order);
    if Construct(fares, db, e.card, e.order, e.committed) != db {
      if e.card == card {
        m' := |arrivals| / 2;
        OwnConstructTracks(fares, start, db, card, arrivals, lo, m, e.order);
      } else {
        OtherConstructTracks(fares, db.taps, card, arrivals, m, e.card, e.order, |e.order| / 2);
      }
    }
  }

  /** After any run the card's rows are its arrivals in order with some number of leading pairs
      processed, and its balance is what those journeys leave. */
  lemma {:induction false} RunTracks(fares: Fares, start: map<string, int>, db: Db, es: seq<Event>, card: string,
                                     arrivals: seq<Received>, lo: nat, m: nat) returns (m': nat)
    requires PossibleRun(fares, db, es) && Tracks(fares, start, db, card, arrivals, lo, m)
    requires Chronological(arrivals + Kept(db.taps.Keys, Arrivals(es), card))
    ensures Tracks(fares, start, Run(fares, db, es), card, arrivals + Kept(db.taps.Keys, Arrivals(es), card), lo, m')
    ensures card !in start ==> m' == m
    decreases |es|
  {
    if es == [] {
      m' := m;
      assert arrivals + [] == arrivals;
    } else if es[0].Arrived? {
      m' := RunTracksArrival(fares, start, db, es, card, arrivals, lo, m);
    } else {
      m' := ConstructTracks(fares, start, db, es[0], card, arrivals, lo, m);
      SelectedAreIn(db.taps, es[0].card, es[0].order);
      assert Arrivals(es) == Arrivals(es[1..]);
      m' := RunTracks(fares, start, Step(fares, db, es[0]), es[1..], card, arrivals, lo, m');
    }
  }

  lemma {:induction false} RunTracksArrival(fares: Fares, start: map<string, int>, db: Db, es: seq<Event>,
                                            card: string, arrivals: seq<Received>, lo: nat, m: nat)
    returns (m': nat)
    requires es != [] && es[0].Arrived?
    requires PossibleRun(fares, db, es) && Tracks(fares, start, db, card, arrivals, lo, m)
    requires Chronological(arrivals + Kept(db.taps.Keys, Arrivals(es), card))
    ensures Tracks(fares, start, Run(fares, db, es), card, arrivals + Kept(db.taps.Keys, Arrivals(es), card), lo, m')
    ensures card !in start ==> m' == m
    decreases |es|, 0
  {
    var r, all := es[0].r, Arrivals(es);
    assert all[0] == r && all[1..] == Arrivals(es[1..]);
    var first, rest := Adds(db.taps.Keys, r, card), Kept(Sees(db.taps.Keys, r), all[1..], card);
    Append(arrivals, first, rest);
    ChronologicalPrefix(arrivals + first, rest);
    ArrivalTracks(fares, db.taps, card, arrivals, m, r);
    FareListPrefix(fares, arrivals, first, lo, m);
    m' := RunTracks(fares, start, Step(fares, db, es[0]), es[1..], card, arrivals + first, lo, m);
  }

  /** Two databases agree on a card: same rows, same balance. */
  ghost predicate AgreeOn(a: Db, b: Db, card: string) {
    && SameRows(a.taps, b.taps, card)
    && (card in a.cards <==> card in b.cards)
    && (card in a.cards ==> a.cards[card] == b.cards[card])
  }

  /** The final turn of a card that has an account. */
  lemma FinalTurn(fares: Fares, start: map<string, int>, a: Db, b: Db, card: string, arrivals: seq<Received>,
                  lo: nat, m: nat, n: nat, orderA: seq<string>, orderB: seq<string>)
    requires Tracks(fares, start, a, card, arrivals, lo, m) && Tracks(fares, start, b, card, arrivals, lo, n)
    requires card !in start ==> m == n
    requires Selects(a.taps, card, orderA) && Selects(b.taps, card, orderB)
    ensures AgreeOn(Step(fares, a, Constructed(card, orderA, true)), Step(fares, b, Constructed(card, orderB,
                    true)), card)
  {
    SelectedAreIn(a.taps, card, orderA);
    SelectedAreIn(b.taps, card, orderB);
    if card in start {
      OwnConstructTracks(fares, start, a, card, arrivals, lo, m, orderA);
      OwnConstructTracks(fares, start, b, card, arrivals, lo, n, orderB);
      TrackedSame(fares, Construct(fares, a, card, orderA, true).taps, Construct(fares, b, card, orderB, true).taps,
                  card, arrivals, |arrivals| / 2);
    } else {
      TrackedSame(fares, a.taps, b.taps, card, arrivals, m);
    }
  }

  /** Confluence: from any table whose rows of the card are paired up to some point, and for taps that
      arrive in strictly increasing time, running construction at any moments, for any cards, with any
      rollbacks, and once more at the end gives the card the same journeys, the same recorded costs and
      the same balance as inserting all the taps and constructing once. */
  lemma Confluence(fares: Fares, db: Db, es: seq<Event>, card: string, before: seq<Received>, m: nat,
                   order: seq<string>, orderOnce: seq<string>)
    requires RowsTrack(fares, db.taps, card, before, m)
    requires PossibleRun(fares, db, es)
    requires Chronological(before + Kept(db.taps.Keys, Arrivals(es), card))
    requires Selects(Run(fares, db, es).taps, card, order)
    requires Selects(Insert(db.taps, Arrivals(es)), card, orderOnce)
    ensures AgreeOn(Step(fares, Run(fares, db, es), Constructed(card, order, true)),
                    Step(fares, db.(taps := Insert(db.taps, Arrivals(es))), Constructed(card, orderOnce, true)), card)
  {
    var all := before + Kept(db.taps.Keys, Arrivals(es), card);
    var once := db.(taps := Insert(db.taps, Arrivals(es)));
    var m' := RunTracks(fares, db.cards, db, es, card, before, m, m);
    InsertTracks(fares, db.taps, card, before, m, Arrivals(es));
    assert Tracks(fares, db.cards, once, card, all, m, m);
    FinalTurn(fares, db.cards, Run(fares, db, es), once, card, all, m, m', m, order, orderOnce);
  }
}
