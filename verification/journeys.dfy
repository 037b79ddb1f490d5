/** Taps, their chronological pairing into journeys, and the ledger the journeys are charged to. */
module Journeys {
  import opened Options

  /** A row of the tap table. `holder` is the card, or the token of a contactless traveller. The
      recorded cost and error appear when the tap is processed. */
  datatype Tap = Tap(holder: string, station: string, time: int, processed: bool, cost: int, unpriced: bool)

  type Taps = map<string, Tap>

  // ---------------------------------------------------------------------------
  // Inserting taps
  // ---------------------------------------------------------------------------

  /** A tap as it is received; a missing time is None. */
  datatype Received = Received(id: string, holder: string, gate: string, station: string, time: Option<int>)

  predicate Complete(r: Received) {
    r.id != "" && r.holder != "" && r.gate != "" && r.station != "" && r.time.Some?
  }

  /** Incomplete taps are skipped, and so are taps whose id is already there. */
  function InsertOne(taps: Taps, r: Received): Taps {
    if !Complete(r) || r.id in taps then taps
    else taps[r.id := NewTap(r)]
  }

  function NewTap(r: Received): Tap
    requires r.time.Some?
  {
    Tap(r.holder, r.station, r.time.value, false, 0, false)
  }

  function Insert(taps: Taps, batch: seq<Received>): Taps {
    if batch == [] then taps else InsertOne(Insert(taps, batch[..|batch| - 1]), batch[|batch| - 1])
  }

  /** Inserting never changes a row that exists, leaves every complete tap of the batch in, and adds nothing
      but rows of the batch. */
  lemma {:induction false} InsertEffect(taps: Taps, batch: seq<Received>)
    ensures forall id :: id in taps ==> id in Insert(taps, batch) && Insert(taps, batch)[id] == taps[id]
    ensures forall r :: r in batch && Complete(r) ==> r.id in Insert(taps, batch)
    ensures forall id :: id in Insert(taps, batch) && id !in taps ==>
              exists r :: r in batch && Complete(r) && r.id == id && Insert(taps, batch)[id] == NewTap(r)
  {
    if batch == [] {
    } else {
      var init, last := batch[..|batch| - 1], batch[|batch| - 1];
      InsertEffect(taps, init);
      assert batch == init + [last];
    }
  }

  /** A batch whose taps are all in the table changes nothing. */
  lemma {:induction false} InsertKnown(taps: Taps, batch: seq<Received>)
    requires forall r :: r in batch && Complete(r) ==> r.id in taps
    ensures Insert(taps, batch) == taps
  {
    if batch == [] {
    } else {
      InsertKnown(taps, batch[..|batch| - 1]);
      assert batch[|batch| - 1] in batch;
    }
  }

  /** Redelivery: a batch of which some prefix was inserted before, with any other batches in
      between and rows processed meanwhile, adds exactly what is missing; a batch that went in
      completely adds nothing. */
  lemma RedeliveryHarmless(taps: Taps, batch: seq<Received>, later: Taps)
    requires forall id :: id in Insert(taps, batch) ==> id in later
    ensures Insert(later, batch) == later
  {
    InsertEffect(taps, batch);
    InsertKnown(later, batch);
  }

  lemma {:induction false} ResumeAfterPartial(taps: Taps, batch: seq<Received>, k: nat)
    requires k <= |batch|
    ensures Insert(Insert(taps, batch[..k]), batch) == Insert(taps, batch)
  {
    if k == 0 {
      assert batch[..0] == [];
    } else if k == |batch| {
      assert batch[..k] == batch;
      InsertEffect(taps, batch);
      InsertKnown(Insert(taps, batch), batch);
    } else {
      var init := batch[..|batch| - 1];
      assert init[..k] == batch[..k];
      ResumeAfterPartial(taps, init, k);
    }
  }

  /** A row that a batch adds is that of the first tap with its id that has all five fields. */
  lemma {:induction false} FirstTapWins(taps: Taps, batch: seq<Received>, i: nat)
    requires i < |batch| && batch[i].id !in taps && batch[i].id != ""
    requires batch[i].holder != "" && batch[i].gate != "" && batch[i].station != "" && batch[i].time.Some?
    requires forall j :: 0 <= j < i && batch[j].id == batch[i].id ==>
               batch[j].holder == "" || batch[j].gate == "" || batch[j].station == "" || batch[j].time.None?
    ensures var r := batch[i];
            && r.id in Insert(taps, batch)
            && Insert(taps, batch)[r.id] == Tap(r.holder, r.station, r.time.value, false, 0, false)
    decreases |batch|
  {
    var init := batch[..|batch| - 1];
    if i == |batch| - 1 {
      NotYetInserted(taps, init, batch[i].id);
    } else {
      FirstTapWins(taps, init, i);
    }
  }

  lemma NotYetInserted(taps: Taps, batch: seq<Received>, id: string)
    requires id !in taps
    requires forall j :: 0 <= j < |batch| && batch[j].id == id ==> !Complete(batch[j])
    ensures id !in Insert(taps, batch)
  {
    InsertEffect(taps, batch);
  }

  /** A tap that lacks a field adds nothing. */
  lemma IncompleteIgnored(taps: Taps, batch: seq<Received>, r: Received)
    requires r.id == "" || r.holder == "" || r.gate == "" || r.station == "" || r.time.None?
    ensures Insert(taps, batch + [r]) == Insert(taps, batch)
  {
    assert (batch + [r])[..|batch|] == batch;
  }

  // ---------------------------------------------------------------------------
  // Pairing
  // ---------------------------------------------------------------------------

  /** The cost lookup between two stations, in whichever direction the table has. */
  type Fares = (string, string) -> Option<int>

  /** Unprocessed taps of a holder, in time order; ties may come in any order. */
  ghost predicate Selects(taps: Taps, holder: string, order: seq<string>) {
    && (forall id :: id in order <==> id in taps && taps[id].holder == holder && !taps[id].processed)
    && (forall i, j :: 0 <= i < j < |order| ==> order[i] != order[j])
    && (forall i, j :: 0 <= i < j < |order| ==>
          order[i] in taps && order[j] in taps && taps[order[i]].time <= taps[order[j]].time)
  }

  predicate AllIn(taps: Taps, order: seq<string>) {
    forall i :: 0 <= i < |order| ==> order[i] in taps
  }

  function Fare(fares: Fares, taps: Taps, from: string, to: string): Option<int>
    requires from in taps && to in taps
  {
    fares(taps[from].station, taps[to].station)
  }

  function Processed(tap: Tap, fare: Option<int>): Tap {
    tap.(processed := true, cost := if fare.Some? then fare.value else 0, unpriced := fare.None?)
  }

  function MarkBoth(taps: Taps, from: string, to: string, fare: Option<int>): Taps
    requires from in taps && to in taps
  {
    taps[from := Processed(taps[from], fare)][to := Processed(taps[to], fare)]
  }

  function MarkPair(fares: Fares, taps: Taps, from: string, to: string): Taps
    requires from in taps && to in taps
  {
    MarkBoth(taps, from, to, Fare(fares, taps, from, to))
  }

  /** The taps after the first n pairs of `order` have been processed. */
  function Mark(fares: Fares, taps: Taps, order: seq<string>, n: nat): (r: Taps)
    requires AllIn(taps, order) && 2 * n <= |order|
    ensures r.Keys == taps.Keys
  {
    if n == 0 then taps
    else
      var before := Mark(fares, taps, order, n - 1);
      MarkPair(fares, before, order[2 * n - 2], order[2 * n - 1])
  }

  /** The charges of the first n pairs: one for every pair with a known cost. */
  function Charges(fares: Fares, taps: Taps, order: seq<string>, n: nat): seq<int>
    requires AllIn(taps, order) && 2 * n <= |order|
  {
    if n == 0 then []
    else
      var fare := Fare(fares, taps, order[2 * n - 2], order[2 * n - 1]);
      Charges(fares, taps, order, n - 1) + if fare.Some? then [fare.value] else []
  }

  function Sum(s: seq<int>): int {
    if s == [] then 0 else Sum(s[..|s| - 1]) + s[|s| - 1]
  }

  lemma {:induction false} SumConcat(a: seq<int>, b: seq<int>)
    ensures Sum(a + b) == Sum(a) + Sum(b)
  {
    if b == [] {
      assert a + b == a;
    } else {
      assert (a + b)[..|a + b| - 1] == a + b[..|b| - 1];
      SumConcat(a, b[..|b| - 1]);
    }
  }

  lemma {:induction false} MarkKeeps(fares: Fares, taps: Taps, order: seq<string>, n: nat, id: string)
    requires AllIn(taps, order) && 2 * n <= |order| && id in taps
    ensures var r := Mark(fares, taps, order, n)[id];
            && r.holder == taps[id].holder && r.station == taps[id].station && r.time == taps[id].time
            && (taps[id].processed ==> r.processed)
  {
    if n == 0 {
    } else {
      MarkKeeps(fares, taps, order, n - 1, id);
    }
  }

  lemma SplitPair<T>(s: seq<T>, n: nat)
    requires 0 < 2 * n <= |s|
    ensures s[..2 * n] == s[..2 * (n - 1)] + [s[2 * n - 2], s[2 * n - 1]]
  {
  }

  lemma {:induction false} MarkOnlyPaired(fares: Fares, taps: Taps, order: seq<string>, n: nat, id: string)
    requires AllIn(taps, order) && 2 * n <= |order| && id in taps && id !in order[..2 * n]
    ensures Mark(fares, taps, order, n)[id] == taps[id]
  {
    if n == 0 {
    } else {
      SplitPair(order, n);
      assert id !in order[..2 * (n - 1)] && id != order[2 * n - 2] && id != order[2 * n - 1];
      MarkOnlyPaired(fares, taps, order, n - 1, id);
    }
  }

  /** Marking changes nothing but the processing columns, and only of the paired taps. */
  lemma MarkFrame(fares: Fares, taps: Taps, order: seq<string>, n: nat, id: string)
    requires AllIn(taps, order) && 2 * n <= |order| && id in taps
    ensures var r := Mark(fares, taps, order, n)[id];
            && r.holder == taps[id].holder && r.station == taps[id].station && r.time == taps[id].time
    ensures id !in order[..2 * n] ==> Mark(fares, taps, order, n)[id] == taps[id]
    ensures taps[id].processed ==> Mark(fares, taps, order, n)[id].processed
  {
    MarkKeeps(fares, taps, order, n, id);
    if id !in order[..2 * n] { MarkOnlyPaired(fares, taps, order, n, id); }
  }

  /** The row is the tap, processed, with this outcome of the fare lookup. */
  predicate RecordsFare(row: Tap, tap: Tap, fare: Option<int>) {
    && row.processed && row.holder == tap.holder && row.station == tap.station && row.time == tap.time
    && row.cost == (if fare.Some? then fare.value else 0)
    && (row.unpriced <==> fare.None?)
  }

  lemma LastPairRecords(fares: Fares, taps: Taps, order: seq<string>, k: nat, from: string, to: string)
    requires AllIn(taps, order) && 2 * k + 2 <= |order| && from == order[2 * k] && to == order[2 * k + 1] && from != to
    ensures var after, fare := Mark(fares, taps, order, k + 1), fares(taps[from].station, taps[to].station);
            RecordsFare(after[from], taps[from], fare) && RecordsFare(after[to], taps[to], fare)
  {
    MarkFrame(fares, taps, order, k, from);
    MarkFrame(fares, taps, order, k, to);
  }

  /** The tap is in none of the pairs from the k-th on. */
  ghost predicate InNoPairFrom(order: seq<string>, k: nat, n: nat, id: string) {
    2 * n <= |order| && forall i :: 2 * k <= i < 2 * n ==> order[i] != id
  }

  lemma {:induction false} StaysRecorded(fares: Fares, taps: Taps, order: seq<string>, k: nat, n: nat, id: string)
    requires AllIn(taps, order) && k <= n && id in taps && InNoPairFrom(order, k, n, id)
    ensures Mark(fares, taps, order, n)[id] == Mark(fares, taps, order, k)[id]
  {
    if n == k {
    } else {
      assert order[2 * n - 2] != id && order[2 * n - 1] != id;
      StaysRecorded(fares, taps, order, k, n - 1, id);
    }
  }

  ghost predicate NoneTwice(order: seq<string>) {
    forall i, j :: 0 <= i < j < |order| ==> order[i] != order[j]
  }

  lemma InOnePair(order: seq<string>, k: nat, n: nat)
    requires NoneTwice(order)
    requires k < n && 2 * n <= |order|
    ensures InNoPairFrom(order, k + 1, n, order[2 * k]) && InNoPairFrom(order, k + 1, n, order[2 * k + 1])
    ensures order[2 * k] != order[2 * k + 1]
  {
  }

  /** Both taps of every processed pair record the cost between their stations, or that there is none. */
  lemma PairedTaps(fares: Fares, taps: Taps, order: seq<string>, n: nat, k: nat, from: string, to: string)
    requires AllIn(taps, order) && 2 * n <= |order| && k < n && from == order[2 * k] && to == order[2 * k + 1]
    requires NoneTwice(order)
    ensures var after, fare := Mark(fares, taps, order, n), fares(taps[from].station, taps[to].station);
            RecordsFare(after[from], taps[from], fare) && RecordsFare(after[to], taps[to], fare)
  {
    InOnePair(order, k, n);
    var j := k + 1;
    LastPairRecords(fares, taps, order, k, from, to);
    StaysRecorded(fares, taps, order, j, n, from);
    StaysRecorded(fares, taps, order, j, n, to);
  }

  // ---------------------------------------------------------------------------
  // The ledger
  // ---------------------------------------------------------------------------

  /** What the processed taps in `ids` record, added up. */
  ghost function Recorded(taps: Taps, ids: set<string>): int
    requires ids <= taps.Keys
  {
    if ids == {} then 0
    else
      var id :| id in ids;
      RecordedAt(taps[id]) + Recorded(taps, ids - {id})
  }

  function RecordedAt(tap: Tap): int {
    if tap.processed then tap.cost else 0
  }

  /** The sum does not depend on the order in which it is taken. */
  lemma {:induction false} RecordedRemove(taps: Taps, ids: set<string>, id: string)
    requires ids <= taps.Keys && id in ids
    ensures Recorded(taps, ids) == RecordedAt(taps[id]) + Recorded(taps, ids - {id})
    decreases |ids|
  {
    var first :| first in ids && Recorded(taps, ids) == RecordedAt(taps[first]) + Recorded(taps, ids - {first});
    if first == id {
    } else {
      RecordedRemove(taps, ids - {first}, id);
      RecordedRemove(taps, ids - {id}, first);
      assert ids - {first} - {id} == ids - {id} - {first};
    }
  }

  lemma {:induction false} RecordedSame(a: Taps, b: Taps, ids: set<string>)
    requires ids <= a.Keys && ids <= b.Keys
    requires forall id :: id in ids ==> RecordedAt(a[id]) == RecordedAt(b[id])
    ensures Recorded(a, ids) == Recorded(b, ids)
    decreases |ids|
  {
    if ids == {} {
    } else {
      var id :| id in ids;
      RecordedRemove(a, ids, id);
      RecordedRemove(b, ids, id);
      RecordedSame(a, b, ids - {id});
    }
  }

  lemma RecordedUpdate(a: Taps, b: Taps, ids: set<string>, id: string)
    requires ids <= a.Keys && ids <= b.Keys && id in ids
    requires forall x :: x in ids && x != id ==> RecordedAt(a[x]) == RecordedAt(b[x])
    ensures Recorded(b, ids) == Recorded(a, ids) - RecordedAt(a[id]) + RecordedAt(b[id])
  {
    RecordedRemove(a, ids, id);
    RecordedRemove(b, ids, id);
    RecordedSame(a, b, ids - {id});
  }

  /** Processing a pair adds its fare twice to what is recorded. */
  lemma MarkPairRecords(fares: Fares, taps: Taps, from: string, to: string, ids: set<string>)
    requires from in taps && to in taps && from != to
    requires !taps[from].processed && !taps[to].processed
    requires ids <= taps.Keys && from in ids && to in ids
    ensures Recorded(MarkPair(fares, taps, from, to), ids)
         == Recorded(taps, ids) + 2 * if Fare(fares, taps, from, to).Some? then Fare(fares, taps, from, to).value else 0
  {
    var fare := Fare(fares, taps, from, to);
    var mid := taps[from := Processed(taps[from], fare)];
    RecordedUpdate(taps, mid, ids, from);
    RecordedUpdate(mid, MarkPair(fares, taps, from, to), ids, to);
  }

  /** A tap beyond the first n pairs is as it was when they have been marked. */
  lemma StillUnprocessed(fares: Fares, taps: Taps, order: seq<string>, n: nat, i: nat)
    requires AllIn(taps, order) && 2 * n <= i < |order|
    requires forall i, j :: 0 <= i < j < |order| ==> order[i] != order[j]
    ensures Mark(fares, taps, order, n)[order[i]] == taps[order[i]]
  {
    assert order[i] !in order[..2 * n];
    MarkFrame(fares, taps, order, n, order[i]);
  }

  lemma ChargesSum(fares: Fares, taps: Taps, order: seq<string>, n: nat)
    requires AllIn(taps, order) && 0 < 2 * n <= |order|
    ensures var fare := Fare(fares, taps, order[2 * n - 2], order[2 * n - 1]);
            Sum(Charges(fares, taps, order, n))
            == Sum(Charges(fares, taps, order, n - 1)) + if fare.Some? then fare.value else 0
  {
    var fare := Fare(fares, taps, order[2 * n - 2], order[2 * n - 1]);
    SumConcat(Charges(fares, taps, order, n - 1), if fare.Some? then [fare.value] else []);
  }

  /** Distinct unprocessed taps among `ids`. */
  ghost predicate Unmarked(taps: Taps, order: seq<string>, ids: set<string>) {
    && (forall i :: 0 <= i < |order| ==> order[i] in taps && !taps[order[i]].processed && order[i] in ids)
    && (forall i, j :: 0 <= i < j < |order| ==> order[i] != order[j])
  }

  /** Processing a pair that is as in `taps` records what it costs there. */
  lemma PairRecords(fares: Fares, taps: Taps, before: Taps, from: string, to: string, ids: set<string>)
    requires PairWaits(taps, before, from, to, ids) && ids <= before.Keys
    ensures var fare := Fare(fares, taps, from, to);
            Recorded(MarkPair(fares, before, from, to), ids)
            == Recorded(before, ids) + 2 * if fare.Some? then fare.value else 0
  {
    MarkPairRecords(fares, before, from, to, ids);
  }

  lemma MarkLast(fares: Fares, taps: Taps, order: seq<string>, n: nat)
    requires AllIn(taps, order) && 0 < 2 * n <= |order|
    ensures Mark(fares, taps, order, n)
         == MarkPair(fares, Mark(fares, taps, order, n - 1), order[2 * n - 2], order[2 * n - 1])
  {
  }

  /** The next pair to be processed is still as it was. */
  ghost predicate PairWaits(taps: Taps, before: Taps, from: string, to: string, ids: set<string>) {
    && from in taps && to in taps && from in before && to in before && from != to
    && before[from] == taps[from] && before[to] == taps[to]
    && !taps[from].processed && !taps[to].processed && from in ids && to in ids
  }

  lemma NextPairWaits(fares: Fares, taps: Taps, order: seq<string>, n: nat, ids: set<string>, from: string, to: string)
    requires AllIn(taps, order) && 2 * n + 2 <= |order| && from == order[2 * n] && to == order[2 * n + 1]
    requires Unmarked(taps, order, ids)
    ensures PairWaits(taps, Mark(fares, taps, order, n), from, to, ids)
  {
    StillUnprocessed(fares, taps, order, n, 2 * n);
    StillUnprocessed(fares, taps, order, n, 2 * n + 1);
  }

  lemma MarkNextFare(fares: Fares, taps: Taps, order: seq<string>, n: nat, ids: set<string>, from: string, to: string)
    requires AllIn(taps, order) && 0 < 2 * n <= |order| && from == order[2 * n - 2] && to == order[2 * n - 1]
    requires PairWaits(taps, Mark(fares, taps, order, n - 1), from, to, ids) && ids <= taps.Keys
    ensures var fare := Fare(fares, taps, from, to);
            Recorded(Mark(fares, taps, order, n), ids)
            == Recorded(Mark(fares, taps, order, n - 1), ids) + 2 * if fare.Some? then fare.value else 0
  {
    PairRecords(fares, taps, Mark(fares, taps, order, n - 1), from, to, ids);
    MarkLast(fares, taps, order, n);
  }

  lemma MarkNextRecords(fares: Fares, taps: Taps, order: seq<string>, n: nat, ids: set<string>)
    requires AllIn(taps, order) && 0 < 2 * n <= |order|
    requires Unmarked(taps, order, ids) && ids <= taps.Keys
    ensures Recorded(Mark(fares, taps, order, n), ids) - Recorded(Mark(fares, taps, order, n - 1), ids)
         == 2 * (Sum(Charges(fares, taps, order, n)) - Sum(Charges(fares, taps, order, n - 1)))
  {
    NextPairWaits(fares, taps, order, n - 1, ids, order[2 * n - 2], order[2 * n - 1]);
    MarkNextFare(fares, taps, order, n, ids, order[2 * n - 2], order[2 * n - 1]);
    ChargesSum(fares, taps, order, n);
  }

  /** Over any number of pairs, what the taps record grows by twice what is charged. */
  lemma {:induction false} MarkRecords(fares: Fares, taps: Taps, order: seq<string>, n: nat, ids: set<string>)
    requires AllIn(taps, order) && 2 * n <= |order|
    requires Unmarked(taps, order, ids) && ids <= taps.Keys
    ensures Recorded(Mark(fares, taps, order, n), ids) == Recorded(taps, ids) + 2 * Sum(Charges(fares, taps, order, n))
  {
    if n == 0 {
    } else {
      MarkRecords(fares, taps, order, n - 1, ids);
      MarkNextRecords(fares, taps, order, n, ids);
    }
  }
}
