/** From the gates to the table: stations buffer and forward the taps of one card type, and a back office
    inserts them. Batches may be inserted in part, and replies may be lost. */
module Delivery {
  import opened Options
  import opened Strings
  import opened Batcher
  import opened Journeys

  /** The stations' lanes and the table of the back office they forward to. */
  datatype System = System(lanes: map<string, Lane>, taps: Taps)

  datatype Event =
    | TappedAt(station: string, tx: Transaction)
    | Sent(station: string, i: nat, rows: nat, replied: bool)  // a batch comes in, and `rows` of it are inserted
    | Constructed(after: Taps)                                 // journeys are constructed

  /** A tap as the back office reads it. */
  function Read(tx: Transaction): Received {
    Received(Trim(tx.id), Trim(tx.holder), Trim(tx.gate), Trim(tx.station), Some(tx.time))
  }

  function ReadAll(batch: seq<Transaction>): (r: seq<Received>)
    ensures |r| == |batch| && forall i :: 0 <= i < |r| ==> r[i] == Read(batch[i])
  {
    seq(|batch|, i requires 0 <= i < |batch| => Read(batch[i]))
  }

  /** The same tap, processed or not. */
  predicate SameTap(a: Tap, b: Tap) {
    a.holder == b.holder && a.station == b.station && a.time == b.time
  }

  ghost predicate SameTaps(a: Taps, b: Taps) {
    a.Keys == b.Keys && forall id :: id in a ==> SameTap(a[id], b[id])
  }

  /** Constructing journeys changes no tap. */
  lemma MarkKeepsTaps(fares: Fares, taps: Taps, order: seq<string>, n: nat)
    requires AllIn(taps, order) && 2 * n <= |order|
    ensures SameTaps(taps, Mark(fares, taps, order, n))
  {
    forall id | id in taps ensures SameTap(taps[id], Mark(fares, taps, order, n)[id]) {
      MarkFrame(fares, taps, order, n, id);
    }
  }

  ghost predicate Possible(cardType: string, s: System, e: Event) {
    match e
    case TappedAt(_, tx) => tx.cardType == cardType
    case Sent(station, i, rows, _) =>
      i < |LaneOf(s.lanes, station).flight| && rows <= |LaneOf(s.lanes, station).flight[i]|
    case Constructed(after) => SameTaps(s.taps, after)
  }

  /** A batch is delivered when all of it is inserted and the reply comes back; otherwise the station puts it
      back, whatever part of it is in the table. */
  function Step(batchSize: nat, cardType: string, s: System, e: Event): System
    requires Possible(cardType, s, e)
  {
    match e
    case TappedAt(station, tx) => s.(lanes := s.lanes[station := Accept(batchSize, LaneOf(s.lanes, station), tx)])
    case Sent(station, i, rows, replied) =>
      var l := LaneOf(s.lanes, station);
      var arrived := rows == |l.flight[i]| && replied;
      System(s.lanes[station := if arrived then Arrive(l, i) else PutBack(l, i)],
             Insert(s.taps, ReadAll(l.flight[i][..rows])))
    case Constructed(after) => s.(taps := after)
  }

  ghost predicate PossibleRun(batchSize: nat, cardType: string, s: System, es: seq<Event>)
    decreases |es|
  {
    es == [] || (Possible(cardType, s, es[0])
                 && PossibleRun(batchSize, cardType, Step(batchSize, cardType, s, es[0]), es[1..]))
  }

  function Run(batchSize: nat, cardType: string, s: System, es: seq<Event>): System
    requires PossibleRun(batchSize, cardType, s, es)
    decreases |es|
  {
    if es == [] then s else Run(batchSize, cardType, Step(batchSize, cardType, s, es[0]), es[1..])
  }

  // ---------------------------------------------------------------------------
  // What the table holds
  // ---------------------------------------------------------------------------

  /** The row is the one this tap makes. */
  ghost predicate RowOf(taps: Taps, id: string, tx: Transaction) {
    && id in taps && Complete(Read(tx)) && Read(tx).id == id
    && SameTap(taps[id], NewTap(Read(tx)))
  }

  ghost predicate HandedIn(s: System, tx: Transaction) {
    exists station :: station in s.lanes && tx in s.lanes[station].accepted
  }

  ghost predicate Delivered(s: System, tx: Transaction) {
    exists station :: station in s.lanes && tx in s.lanes[station].delivered
  }

  /** The row is that of a tap some gate handed in. */
  ghost predicate Traceable(s: System, id: string) {
    exists tx :: HandedIn(s, tx) && RowOf(s.taps, id, tx)
  }

  ghost predicate AllConserved(batchSize: nat, cardType: string, lanes: map<string, Lane>) {
    forall station :: station in lanes ==> Conserved(batchSize, cardType, lanes[station])
  }

  ghost predicate DeliveredAreIn(s: System) {
    forall tx :: Delivered(s, tx) && Complete(Read(tx)) ==> Read(tx).id in s.taps
  }

  ghost predicate AllTraceable(s: System) {
    forall id :: id in s.taps ==> Traceable(s, id)
  }

  ghost predicate Consistent(batchSize: nat, cardType: string, s: System) {
    AllConserved(batchSize, cardType, s.lanes) && DeliveredAreIn(s) && AllTraceable(s)
  }

  /** Nothing handed in is forgotten and nothing in the table is lost. */
  ghost predicate Extends(s: System, s': System) {
    && (forall tx :: HandedIn(s, tx) ==> HandedIn(s', tx))
    && (forall id :: id in s.taps ==> id in s'.taps && SameTap(s.taps[id], s'.taps[id]))
  }

  lemma StillTraceable(s: System, s': System, id: string)
    requires Extends(s, s') && id in s.taps && Traceable(s, id)
    ensures Traceable(s', id)
  {
    var tx :| HandedIn(s, tx) && RowOf(s.taps, id, tx);
    assert HandedIn(s', tx) && RowOf(s'.taps, id, tx);
  }

  // ---------------------------------------------------------------------------
  // Every step keeps it
  // ---------------------------------------------------------------------------

  /** Replacing one lane by one that has taken in more. */
  lemma LaneReplaced(s: System, s': System, station: string, l: Lane, tx: Transaction)
    requires s'.lanes == s.lanes[station := l]
    requires forall x :: x in LaneOf(s.lanes, station).accepted ==> x in l.accepted
    ensures HandedIn(s, tx) || tx in l.accepted ==> HandedIn(s', tx)
    ensures Delivered(s', tx) ==> Delivered(s, tx) || tx in l.delivered
  {
    if HandedIn(s, tx) {
      var at :| at in s.lanes && tx in s.lanes[at].accepted;
      assert at in s'.lanes && tx in s'.lanes[at].accepted;
    }
    if tx in l.accepted { assert station in s'.lanes && tx in s'.lanes[station].accepted; }
    if Delivered(s', tx) {
      var at :| at in s'.lanes && tx in s'.lanes[at].delivered;
      assert at != station ==> at in s.lanes && tx in s.lanes[at].delivered;
    }
  }

  lemma DeliveredHere(s: System, station: string, tx: Transaction)
    requires tx in LaneOf(s.lanes, station).delivered
    ensures Delivered(s, tx)
  {
    assert station in s.lanes && tx in s.lanes[station].delivered;
  }

  lemma ConservedIn(batchSize: nat, cardType: string, lanes: map<string, Lane>, station: string)
    requires AllConserved(batchSize, cardType, lanes)
    ensures Conserved(batchSize, cardType, LaneOf(lanes, station))
  {
  }

  lemma TapConserves(batchSize: nat, cardType: string, s: System, station: string, tx: Transaction)
    requires AllConserved(batchSize, cardType, s.lanes) && tx.cardType == cardType
    ensures AllConserved(batchSize, cardType, Step(batchSize, cardType, s, TappedAt(station, tx)).lanes)
  {
    ConservedIn(batchSize, cardType, s.lanes, station);
    AcceptConserves(batchSize, cardType, LaneOf(s.lanes, station), tx);
  }

  lemma TapKeeps(batchSize: nat, cardType: string, s: System, station: string, tx: Transaction)
    requires Consistent(batchSize, cardType, s) && tx.cardType == cardType
    ensures Consistent(batchSize, cardType, Step(batchSize, cardType, s, TappedAt(station, tx)))
  {
    var l, s' := LaneOf(s.lanes, station), Step(batchSize, cardType, s, TappedAt(station, tx));
    TapConserves(batchSize, cardType, s, station, tx);
    AcceptOnly(s, s', station, Accept(batchSize, l, tx));
  }

  /** Taking taps in disturbs neither what was delivered nor the table. */
  lemma AcceptOnly(s: System, s': System, station: string, l: Lane)
    requires s' == s.(lanes := s.lanes[station := l])
    requires forall x :: x in LaneOf(s.lanes, station).accepted ==> x in l.accepted
    requires l.delivered == LaneOf(s.lanes, station).delivered
    requires DeliveredAreIn(s) && AllTraceable(s)
    ensures DeliveredAreIn(s') && AllTraceable(s')
  {
    forall x ensures HandedIn(s, x) ==> HandedIn(s', x) { LaneReplaced(s, s', station, l, x); }
    forall x | Delivered(s', x) ensures Delivered(s, x) {
      LaneReplaced(s, s', station, l, x);
      if x in l.delivered { DeliveredHere(s, station, x); }
    }
    forall id | id in s'.taps ensures Traceable(s', id) { StillTraceable(s, s', id); }
  }

  lemma ConstructedKeeps(batchSize: nat, cardType: string, s: System, after: Taps)
    requires Consistent(batchSize, cardType, s) && SameTaps(s.taps, after)
    ensures Consistent(batchSize, cardType, Step(batchSize, cardType, s, Constructed(after)))
  {
    var s' := s.(taps := after);
    forall x ensures HandedIn(s, x) <==> HandedIn(s', x) {
    }
    forall x ensures Delivered(s, x) <==> Delivered(s', x) {
    }
    forall id | id in s'.taps ensures Traceable(s', id) { StillTraceable(s, s', id); }
  }

  lemma ReadFrom(batch: seq<Transaction>, r: Received) returns (j: nat)
    requires r in ReadAll(batch)
    ensures j < |batch| && r == Read(batch[j])
  {
    j :| 0 <= j < |batch| && ReadAll(batch)[j] == r;
  }

  /** A row that a batch adds is that of one of its taps. */
  lemma AddedRow(taps: Taps, batch: seq<Transaction>, id: string) returns (j: nat)
    requires id in Insert(taps, ReadAll(batch)) && id !in taps
    ensures j < |batch| && RowOf(Insert(taps, ReadAll(batch)), id, batch[j])
  {
    var read := ReadAll(batch);
    InsertEffect(taps, read);
    var r :| r in read && Complete(r) && r.id == id && Insert(taps, read)[id] == NewTap(r);
    j := ReadFrom(batch, r);
  }

  lemma InsertedIsIn(taps: Taps, batch: seq<Transaction>, tx: Transaction)
    requires tx in batch && Complete(Read(tx))
    ensures Read(tx).id in Insert(taps, ReadAll(batch))
  {
    InsertEffect(taps, ReadAll(batch));
    var j :| 0 <= j < |batch| && batch[j] == tx;
    assert ReadAll(batch)[j] in ReadAll(batch);
  }

  /** Nothing handed in is forgotten when a batch comes in. */
  lemma SentExtends(batchSize: nat, cardType: string, s: System, e: Event)
    requires e.Sent? && Possible(cardType, s, e)
    ensures Extends(s, Step(batchSize, cardType, s, e))
  {
    var l, s' := LaneOf(s.lanes, e.station), Step(batchSize, cardType, s, e);
    InsertEffect(s.taps, ReadAll(l.flight[e.i][..e.rows]));
    forall x ensures HandedIn(s, x) ==> HandedIn(s', x) { LaneReplaced(s, s', e.station, s'.lanes[e.station], x); }
  }

  /** What is delivered after a batch came in was delivered before, or is of a batch that is all inserted. */
  lemma SentDelivers(batchSize: nat, cardType: string, s: System, e: Event, x: Transaction)
    requires e.Sent? && Possible(cardType, s, e) && DeliveredAreIn(s)
    requires Delivered(Step(batchSize, cardType, s, e), x) && Complete(Read(x))
    ensures Read(x).id in Step(batchSize, cardType, s, e).taps
  {
    var l, s' := LaneOf(s.lanes, e.station), Step(batchSize, cardType, s, e);
    var batch := l.flight[e.i];
    LaneReplaced(s, s', e.station, s'.lanes[e.station], x);
    if x in l.delivered { DeliveredHere(s, e.station, x); }
    if Delivered(s, x) {
      InsertEffect(s.taps, ReadAll(batch[..e.rows]));
    } else {
      assert batch[..e.rows] == batch;
      InsertedIsIn(s.taps, batch, x);
    }
  }

  /** The new rows of a batch on its way are those of taps handed in. */
  lemma AddedTraceable(batchSize: nat, cardType: string, s: System, e: Event, id: string)
    requires AllConserved(batchSize, cardType, s.lanes) && e.Sent? && Possible(cardType, s, e)
    requires Extends(s, Step(batchSize, cardType, s, e))
    requires id in Step(batchSize, cardType, s, e).taps && id !in s.taps
    ensures Traceable(Step(batchSize, cardType, s, e), id)
  {
    var l := LaneOf(s.lanes, e.station);
    var j := AddedRow(s.taps, l.flight[e.i][..e.rows], id);
    BatchCameIn(batchSize, cardType, l, e.i, j);
    assert e.station in s.lanes && l.flight[e.i][j] in s.lanes[e.station].accepted;
    assert HandedIn(s, l.flight[e.i][j]);
  }

  lemma SentConserves(batchSize: nat, cardType: string, s: System, e: Event)
    requires AllConserved(batchSize, cardType, s.lanes) && e.Sent? && Possible(cardType, s, e)
    ensures AllConserved(batchSize, cardType, Step(batchSize, cardType, s, e).lanes)
  {
    var l := LaneOf(s.lanes, e.station);
    ConservedIn(batchSize, cardType, s.lanes, e.station);
    ArriveConserves(batchSize, cardType, l, e.i);
    PutBackConserves(batchSize, cardType, l, e.i);
  }

  lemma SentKeeps(batchSize: nat, cardType: string, s: System, e: Event)
    requires Consistent(batchSize, cardType, s) && e.Sent? && Possible(cardType, s, e)
    ensures Consistent(batchSize, cardType, Step(batchSize, cardType, s, e))
  {
    var s' := Step(batchSize, cardType, s, e);
    SentConserves(batchSize, cardType, s, e);
    SentExtends(batchSize, cardType, s, e);
    forall x | Delivered(s', x) && Complete(Read(x)) ensures Read(x).id in s'.taps {
      SentDelivers(batchSize, cardType, s, e, x);
    }
    forall id | id in s'.taps ensures Traceable(s', id) {
      if id in s.taps { StillTraceable(s, s', id); } else { AddedTraceable(batchSize, cardType, s, e, id); }
    }
  }

  /** Every run keeps lanes and table consistent. */
  lemma {:induction false} RunConsistent(batchSize: nat, cardType: string, s: System, es: seq<Event>)
    requires Consistent(batchSize, cardType, s) && PossibleRun(batchSize, cardType, s, es)
    ensures Consistent(batchSize, cardType, Run(batchSize, cardType, s, es))
    decreases |es|
  {
    if es == [] {
    } else {
      match es[0] {
        case TappedAt(station, tx) => TapKeeps(batchSize, cardType, s, station, tx);
        case Sent(_, _, _, _) => SentKeeps(batchSize, cardType, s, es[0]);
        case Constructed(after) => ConstructedKeeps(batchSize, cardType, s, after);
      }
      RunConsistent(batchSize, cardType, Step(batchSize, cardType, s, es[0]), es[1..]);
    }
  }

  /** Every tap a gate hands in is taken in, whatever happens later. */
  lemma {:induction false} TapsAreTakenIn(batchSize: nat, cardType: string, s: System, es: seq<Event>, i: nat)
    requires PossibleRun(batchSize, cardType, s, es) && i < |es| && es[i].TappedAt?
    ensures HandedIn(Run(batchSize, cardType, s, es), es[i].tx)
    decreases |es|
  {
    var s1 := Step(batchSize, cardType, s, es[0]);
    if i == 0 {
      var l := s1.lanes[es[0].station];
      assert es[0].tx in l.accepted;
      StillHandedIn(batchSize, cardType, s1, es[1..], es[0].tx);
    } else {
      TapsAreTakenIn(batchSize, cardType, s1, es[1..], i - 1);
    }
  }

  lemma {:induction false} StillHandedIn(batchSize: nat, cardType: string, s: System, es: seq<Event>, tx: Transaction)
    requires PossibleRun(batchSize, cardType, s, es) && HandedIn(s, tx)
    ensures HandedIn(Run(batchSize, cardType, s, es), tx)
    decreases |es|
  {
    if es == [] {
    } else {
      StepKeepsTaps(batchSize, cardType, s, es[0], tx);
      StillHandedIn(batchSize, cardType, Step(batchSize, cardType, s, es[0]), es[1..], tx);
    }
  }

  lemma StepKeepsTaps(batchSize: nat, cardType: string, s: System, e: Event, tx: Transaction)
    requires Possible(cardType, s, e) && HandedIn(s, tx)
    ensures HandedIn(Step(batchSize, cardType, s, e), tx)
  {
    var s' := Step(batchSize, cardType, s, e);
    match e
    case TappedAt(station, _) => LaneReplaced(s, s', station, s'.lanes[station], tx);
    case Sent(station, _, _, _) => LaneReplaced(s, s', station, s'.lanes[station], tx);
    case Constructed(_) =>
      var at :| at in s.lanes && tx in s.lanes[at].accepted;
      assert at in s'.lanes && tx in s'.lanes[at].accepted;
  }

  /** A batch that is inserted completely and answered leaves the station for good, delivered; any other goes
      back to the front of the buffer. Other stations are not concerned. */
  lemma BatchSettles(batchSize: nat, cardType: string, s: System, e: Event, other: string)
    requires e.Sent? && Possible(cardType, s, e)
    ensures var l, l' := LaneOf(s.lanes, e.station), LaneOf(Step(batchSize, cardType, s, e).lanes, e.station);
            && |l'.flight| == |l.flight| - 1 && l'.accepted == l.accepted
            && (if e.rows == |l.flight[e.i]| && e.replied
                then l'.delivered == l.delivered + l.flight[e.i] && l'.buffer == l.buffer
                else l'.delivered == l.delivered && l'.buffer == l.flight[e.i] + l.buffer)
            && (other != e.station ==>
                  LaneOf(Step(batchSize, cardType, s, e).lanes, other) == LaneOf(s.lanes, other))
  {
  }

  // ---------------------------------------------------------------------------
  // Every tap once and no other
  // ---------------------------------------------------------------------------

  /** No two different taps handed in have the same id. */
  ghost predicate IdsUnique(s: System) {
    forall x, y :: HandedIn(s, x) && HandedIn(s, y) && Read(x).id == Read(y).id ==> x == y
  }

  ghost predicate Idle(s: System) {
    forall station :: station in s.lanes ==> s.lanes[station].buffer == [] && s.lanes[station].flight == []
  }

  lemma DeliveredHandedIn(batchSize: nat, cardType: string, s: System, tx: Transaction)
    requires Consistent(batchSize, cardType, s)
    ensures Delivered(s, tx) ==> HandedIn(s, tx)
    ensures Idle(s) && HandedIn(s, tx) ==> Delivered(s, tx)
  {
    if Delivered(s, tx) {
      var at :| at in s.lanes && tx in s.lanes[at].delivered;
      assert tx in multiset(s.lanes[at].delivered) && tx in multiset(s.lanes[at].accepted);
      assert tx in s.lanes[at].accepted;
    }
    if Idle(s) && HandedIn(s, tx) {
      var at :| at in s.lanes && tx in s.lanes[at].accepted;
      IdleDelivered(batchSize, cardType, s.lanes[at], tx);
    }
  }

  /** Over every run from empty buffers and an empty table, with batches inserted in part, replies lost and
      journeys constructed at any time: the table has a row for every delivered tap and none that no gate
      handed in. With unique ids the row is the tap's own. Once nothing is buffered or on its way, the table
      has exactly the complete taps that were handed in. */
  lemma EveryTapOnceAndNoOther(batchSize: nat, cardType: string, es: seq<Event>, tx: Transaction, id: string)
    requires PossibleRun(batchSize, cardType, System(map[], map[]), es)
    ensures var s := Run(batchSize, cardType, System(map[], map[]), es);
            && (id in s.taps ==> Traceable(s, id))
            && (Delivered(s, tx) && Complete(Read(tx)) ==> Read(tx).id in s.taps)
            && (Delivered(s, tx) && Complete(Read(tx)) && IdsUnique(s) ==> RowOf(s.taps, Read(tx).id, tx))
            && (Idle(s) && HandedIn(s, tx) && Complete(Read(tx)) ==> Read(tx).id in s.taps)
  {
    var s := Run(batchSize, cardType, System(map[], map[]), es);
    RunConsistent(batchSize, cardType, System(map[], map[]), es);
    DeliveredHandedIn(batchSize, cardType, s, tx);
    if Delivered(s, tx) && Complete(Read(tx)) && IdsUnique(s) {
      var x :| HandedIn(s, x) && RowOf(s.taps, Read(tx).id, x);
      assert x == tx;
    }
  }
}
