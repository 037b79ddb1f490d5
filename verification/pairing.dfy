/** Chronological pairing: a holder's taps, in the order they arrive, and how far they have been paired
    into journeys. Cards and contactless tokens are paired alike. */
module Pairing {
  import opened Options
  import opened Sorting
  import opened Journeys

  lemma SelectedAreIn(taps: Taps, holder: string, order: seq<string>)
    requires Selects(taps, holder, order)
    ensures AllIn(taps, order)
    ensures forall i :: 0 <= i < |order| ==> taps[order[i]].holder == holder && !taps[order[i]].processed
  {
    forall i | 0 <= i < |order|
      ensures order[i] in taps && taps[order[i]].holder == holder && !taps[order[i]].processed
    {
      assert order[i] in order;
    }
  }

  // ---------------------------------------------------------------------------
  // What a holder's rows record
  // ---------------------------------------------------------------------------

  function IdsOf(taps: Taps, holder: string): set<string> {
    set id | id in taps && taps[id].holder == holder
  }

  lemma ArrivalRecordsNothing(taps: Taps, r: Received, holder: string)
    ensures Recorded(InsertOne(taps, r), IdsOf(InsertOne(taps, r), holder)) == Recorded(taps, IdsOf(taps, holder))
  {
    var after := InsertOne(taps, r);
    var ids := IdsOf(after, holder);
    if after != taps && r.holder == holder {
      RecordedRemove(after, ids, r.id);
      assert ids - {r.id} == IdsOf(taps, holder);
    } else {
      assert ids == IdsOf(taps, holder);
    }
    RecordedSame(taps, after, IdsOf(taps, holder));
  }

  /** A holder's turn adds twice its charges to what its own rows record and nothing to anybody else's. */
  lemma TurnRecords(fares: Fares, taps: Taps, holder: string, order: seq<string>, n: nat, other: string)
    requires Selects(taps, holder, order) && AllIn(taps, order) && 2 * n <= |order|
    ensures var after := Mark(fares, taps, order, n);
            Recorded(after, IdsOf(after, other))
            == Recorded(taps, IdsOf(taps, other))
               + if other == holder then 2 * Sum(Charges(fares, taps, order, n)) else 0
  {
    var after := Mark(fares, taps, order, n);
    SelectedAreIn(taps, holder, order);
    forall id | id in taps ensures after[id].holder == taps[id].holder {
      MarkFrame(fares, taps, order, n, id);
    }
    assert IdsOf(after, other) == IdsOf(taps, other);
    if other == holder {
      MarkRecords(fares, taps, order, n, IdsOf(taps, holder));
    } else {
      forall id | id in IdsOf(taps, other) ensures after[id] == taps[id] {
        MarkFrame(fares, taps, order, n, id);
      }
      RecordedSame(taps, after, IdsOf(taps, other));
    }
  }

  // ---------------------------------------------------------------------------
  // What a turn leaves unpaired
  // ---------------------------------------------------------------------------

  lemma {:induction false} MarkProcesses(fares: Fares, taps: Taps, order: seq<string>, n: nat, id: string)
    requires AllIn(taps, order) && 2 * n <= |order| && id in order[..2 * n]
    ensures id in taps && Mark(fares, taps, order, n)[id].processed
  {
    var from, to := order[2 * n - 2], order[2 * n - 1];
    assert order[..2 * n] == order[..2 * n - 2] + [from, to];
    if id == from || id == to {
    } else {
      MarkProcesses(fares, taps, order, n - 1, id);
    }
  }

  lemma LeftAfterMark(fares: Fares, taps: Taps, holder: string, order: seq<string>, n: nat, left: seq<string>,
                      id: string)
    requires Selects(taps, holder, order) && AllIn(taps, order) && 2 * n <= |order|
    requires Selects(Mark(fares, taps, order, n), holder, left)
    ensures id in left <==> id in order[2 * n..]
  {
    assert order == order[..2 * n] + order[2 * n..];
    if id in taps { MarkFrame(fares, taps, order, n, id); }
    if id in order[..2 * n] { MarkProcesses(fares, taps, order, n, id); }
  }

  /** Two selections with the same members are equally long. */
  lemma SameLength(a: seq<string>, b: seq<string>)
    requires forall i, j :: 0 <= i < j < |a| ==> a[i] != a[j]
    requires forall i, j :: 0 <= i < j < |b| ==> b[i] != b[j]
    requires forall x :: x in a <==> x in b
    ensures |a| == |b|
  {
    SameElements(a, b);
    assert |multiset(a)| == |multiset(b)|;
  }

  /** A turn that processes n pairs leaves exactly the other taps of the selection, whatever their times. */
  lemma TurnLeaves(fares: Fares, taps: Taps, holder: string, order: seq<string>, n: nat, left: seq<string>)
    requires Selects(taps, holder, order) && AllIn(taps, order) && 2 * n <= |order|
    requires Selects(Mark(fares, taps, order, n), holder, left)
    ensures |left| == |order| - 2 * n
  {
    var rest := order[2 * n..];
    forall id ensures id in left <==> id in rest {
      LeftAfterMark(fares, taps, holder, order, n, left, id);
    }
    SameLength(left, rest);
  }

  // ---------------------------------------------------------------------------
  // Rows in arrival order
  // ---------------------------------------------------------------------------

  /** The card's taps in arrival order, of which the first m pairs are processed. */
  function RowAt(fares: Fares, card: string, arrivals: seq<Received>, m: nat, i: nat): Tap
    requires i < |arrivals| && 2 * m <= |arrivals|
    requires Complete(arrivals[i])
  {
    var raw := Tap(card, arrivals[i].station, arrivals[i].time.value, false, 0, false);
    if i < 2 * m then Processed(raw, PairFare(fares, arrivals, i / 2)) else raw
  }

  function PairFare(fares: Fares, arrivals: seq<Received>, j: nat): Option<int>
    requires 2 * j + 1 < |arrivals|
  {
    fares(arrivals[2 * j].station, arrivals[2 * j + 1].station)
  }

  /** The charges of the pairs from the lo-th up to the hi-th: one for every pair with a known cost. */
  function FareList(fares: Fares, arrivals: seq<Received>, lo: nat, hi: nat): seq<int>
    requires lo <= hi && 2 * hi <= |arrivals|
    decreases hi
  {
    if lo == hi then []
    else
      var fare := PairFare(fares, arrivals, hi - 1);
      FareList(fares, arrivals, lo, hi - 1) + if fare.Some? then [fare.value] else []
  }

  lemma {:induction false} FareListPrefix(fares: Fares, arrivals: seq<Received>, more: seq<Received>, lo: nat, hi: nat)
    requires lo <= hi && 2 * hi <= |arrivals|
    ensures FareList(fares, arrivals + more, lo, hi) == FareList(fares, arrivals, lo, hi)
    decreases hi
  {
    if lo == hi {
    } else {
      FareListPrefix(fares, arrivals, more, lo, hi - 1);
    }
  }

  ghost predicate Earlier(arrivals: seq<Received>, i: int, j: int) {
    && 0 <= i < |arrivals| && 0 <= j < |arrivals| && Complete(arrivals[i]) && Complete(arrivals[j])
    && arrivals[i].time.value < arrivals[j].time.value && arrivals[i].id != arrivals[j].id
  }

  /** Complete taps with strictly increasing times and distinct ids. */
  ghost predicate Chronological(arrivals: seq<Received>) {
    && (forall i :: 0 <= i < |arrivals| ==> Complete(arrivals[i]))
    && (forall i, j :: 0 <= i < j < |arrivals| ==> Earlier(arrivals, i, j))
  }

  ghost predicate RowOk(fares: Fares, taps: Taps, card: string, arrivals: seq<Received>, m: nat, i: nat) {
    && i < |arrivals| && 2 * m <= |arrivals| && Complete(arrivals[i])
    && arrivals[i].id in taps && taps[arrivals[i].id] == RowAt(fares, card, arrivals, m, i)
  }

  ghost predicate HasArrived(arrivals: seq<Received>, id: string) {
    exists i :: 0 <= i < |arrivals| && arrivals[i].id == id
  }

  /** The card's rows are exactly its arrivals, with the first m pairs processed. */
  ghost predicate RowsTrack(fares: Fares, taps: Taps, card: string, arrivals: seq<Received>, m: nat) {
    && Chronological(arrivals) && 2 * m <= |arrivals|
    && (forall i :: 0 <= i < |arrivals| ==> RowOk(fares, taps, card, arrivals, m, i))
    && (forall id :: id in taps && taps[id].holder == card ==> HasArrived(arrivals, id))
  }

  // ---------------------------------------------------------------------------
  // What the SELECT returns
  // ---------------------------------------------------------------------------

  function Ids(arrivals: seq<Received>): (r: seq<string>)
    ensures |r| == |arrivals|
    ensures forall i :: 0 <= i < |r| ==> r[i] == arrivals[i].id
  {
    if arrivals == [] then [] else [arrivals[0].id] + Ids(arrivals[1..])
  }

  lemma {:induction false} DistinctCount(s: seq<string>, x: string)
    requires forall i, j :: 0 <= i < j < |s| ==> s[i] != s[j]
    ensures multiset(s)[x] == if x in s then 1 else 0
  {
    if s == [] {
    } else {
      Behead(s);
      DistinctCount(s[1..], x);
      assert x in s <==> x == s[0] || x in s[1..];
    }
  }

  function ByTime(taps: Taps): string -> int {
    (id: string) => if id in taps then taps[id].time else 0
  }

  lemma InRest(arrivals: seq<Received>, m: nat, i: nat)
    requires 2 * m <= i < |arrivals|
    ensures arrivals[i].id in Ids(arrivals[2 * m..])
  {
    assert Ids(arrivals[2 * m..])[i - 2 * m] == arrivals[i].id;
  }

  lemma RestMembers(fares: Fares, taps: Taps, card: string, arrivals: seq<Received>, m: nat, order: seq<string>,
                    id: string)
    requires RowsTrack(fares, taps, card, arrivals, m) && Selects(taps, card, order)
    ensures id in order <==> id in Ids(arrivals[2 * m..])
  {
    var rest := Ids(arrivals[2 * m..]);
    if id in order {
      assert HasArrived(arrivals, id);
      var i :| 0 <= i < |arrivals| && arrivals[i].id == id;
      assert RowOk(fares, taps, card, arrivals, m, i);
      InRest(arrivals, m, i);
    }
    if id in rest {
      var i :| 0 <= i < |rest| && rest[i] == id;
      assert RowOk(fares, taps, card, arrivals, m, 2 * m + i);
    }
  }

  lemma SameElements(a: seq<string>, b: seq<string>)
    requires forall i, j :: 0 <= i < j < |a| ==> a[i] != a[j]
    requires forall i, j :: 0 <= i < j < |b| ==> b[i] != b[j]
    requires forall x :: x in a <==> x in b
    ensures multiset(a) == multiset(b)
  {
    forall x ensures multiset(a)[x] == multiset(b)[x] {
      DistinctCount(a, x);
      DistinctCount(b, x);
    }
  }

  lemma RestTime(fares: Fares, taps: Taps, card: string, arrivals: seq<Received>, m: nat, i: nat)
    requires RowsTrack(fares, taps, card, arrivals, m) && i < |arrivals|
    ensures ByTime(taps)(arrivals[i].id) == arrivals[i].time.value
  {
    assert RowOk(fares, taps, card, arrivals, m, i);
  }

  lemma RestAt(arrivals: seq<Received>, m: nat, i: nat)
    requires i < |arrivals| - 2 * m
    ensures Ids(arrivals[2 * m..])[i] == arrivals[2 * m + i].id
  {
  }

  ghost predicate KeyLess(key: string -> int, arrivals: seq<Received>, i: int, j: int) {
    0 <= i < |arrivals| && 0 <= j < |arrivals| && key(arrivals[i].id) < key(arrivals[j].id)
  }

  lemma RestOrdered(fares: Fares, taps: Taps, card: string, arrivals: seq<Received>, m: nat, i: nat, j: nat)
    requires RowsTrack(fares, taps, card, arrivals, m) && i < j < |arrivals|
    ensures KeyLess(ByTime(taps), arrivals, i, j)
  {
    assert Earlier(arrivals, i, j);
    RestTime(fares, taps, card, arrivals, m, i);
    RestTime(fares, taps, card, arrivals, m, j);
  }

  ghost predicate Increasing(key: string -> int, s: seq<string>) {
    forall i, j :: 0 <= i < j < |s| ==> key(s[i]) < key(s[j])
  }

  lemma IncreasingSorted(key: string -> int, s: seq<string>)
    requires Increasing(key, s)
    ensures SortedBy(key, s) && Distinguishes(key, s)
    ensures forall i, j :: 0 <= i < j < |s| ==> s[i] != s[j]
  {
  }

  lemma TailIncreasing(key: string -> int, arrivals: seq<Received>, m: nat)
    requires 2 * m <= |arrivals|
    requires forall i, j :: 0 <= i < j < |arrivals| ==> KeyLess(key, arrivals, i, j)
    ensures Increasing(key, Ids(arrivals[2 * m..]))
  {
    var rest := Ids(arrivals[2 * m..]);
    forall i, j | 0 <= i < j < |rest| ensures key(rest[i]) < key(rest[j]) {
      RestAt(arrivals, m, i);
      RestAt(arrivals, m, j);
      assert KeyLess(key, arrivals, 2 * m + i, 2 * m + j);
    }
  }

  lemma RestIncreasing(fares: Fares, taps: Taps, card: string, arrivals: seq<Received>, m: nat)
    requires RowsTrack(fares, taps, card, arrivals, m)
    ensures Increasing(ByTime(taps), Ids(arrivals[2 * m..]))
  {
    forall i, j | 0 <= i < j < |arrivals| ensures KeyLess(ByTime(taps), arrivals, i, j) {
      RestOrdered(fares, taps, card, arrivals, m, i, j);
    }
    TailIncreasing(ByTime(taps), arrivals, m);
  }

  /** When tap times are strictly increasing, the SELECT returns exactly the unpaired taps in
      arrival order. */
  lemma SelectionIsRest(fares: Fares, taps: Taps, card: string, arrivals: seq<Received>, m: nat, order: seq<string>)
    requires RowsTrack(fares, taps, card, arrivals, m) && Selects(taps, card, order)
    ensures order == Ids(arrivals[2 * m..])
  {
    var rest, key := Ids(arrivals[2 * m..]), ByTime(taps);
    forall id ensures id in order <==> id in rest {
      RestMembers(fares, taps, card, arrivals, m, order, id);
    }
    RestIncreasing(fares, taps, card, arrivals, m);
    IncreasingSorted(key, rest);
    SameElements(order, rest);
    SortedUnique(key, rest, order);
  }

  /** `order` lists the ids of the arrivals after the first m pairs. */
  ghost predicate IsRest(arrivals: seq<Received>, m: nat, order: seq<string>) {
    |order| == |arrivals| - 2 * m && forall k :: 0 <= k < |order| ==> order[k] == arrivals[2 * m + k].id
  }

  lemma MarkPairTracks(fares: Fares, taps: Taps, card: string, arrivals: seq<Received>, m: nat, from: string,
                       to: string)
    requires RowsTrack(fares, taps, card, arrivals, m) && 2 * m + 2 <= |arrivals|
    requires from == arrivals[2 * m].id && to == arrivals[2 * m + 1].id && from in taps && to in taps
    ensures RowsTrack(fares, MarkPair(fares, taps, from, to), card, arrivals, m + 1)
  {
    var after := MarkPair(fares, taps, from, to);
    assert RowOk(fares, taps, card, arrivals, m, 2 * m) && RowOk(fares, taps, card, arrivals, m, 2 * m + 1);
    assert Earlier(arrivals, 2 * m, 2 * m + 1);
    var done := m + 1;
    forall i | 0 <= i < |arrivals| ensures RowOk(fares, after, card, arrivals, done, i) {
      assert RowOk(fares, taps, card, arrivals, m, i);
      if i < 2 * m { assert Earlier(arrivals, i, 2 * m) && Earlier(arrivals, i, 2 * m + 1); }
      if i > 2 * m + 1 { assert Earlier(arrivals, 2 * m, i) && Earlier(arrivals, 2 * m + 1, i); }
    }
  }

  lemma RestPair(arrivals: seq<Received>, m: nat, order: seq<string>, n: nat, k: nat)
    requires IsRest(arrivals, m, order) && n > 0 && k == m + n - 1 && 2 * k + 2 <= |arrivals|
    ensures 2 * n <= |order| && order[2 * n - 2] == arrivals[2 * k].id && order[2 * n - 1] == arrivals[2 * k + 1].id
  {
  }

  lemma MarkNextTracks(fares: Fares, taps: Taps, card: string, arrivals: seq<Received>, k: nat, hi: nat,
                       order: seq<string>, n: nat)
    requires hi == k + 1 && AllIn(taps, order) && 0 < 2 * n <= |order| && 2 * k + 2 <= |arrivals|
    requires order[2 * n - 2] == arrivals[2 * k].id && order[2 * n - 1] == arrivals[2 * k + 1].id
    requires RowsTrack(fares, Mark(fares, taps, order, n - 1), card, arrivals, k)
    ensures RowsTrack(fares, Mark(fares, taps, order, n), card, arrivals, hi)
  {
    MarkPairTracks(fares, Mark(fares, taps, order, n - 1), card, arrivals, k, order[2 * n - 2], order[2 * n - 1]);
  }

  lemma {:induction false} MarkTracks(fares: Fares, taps: Taps, card: string, arrivals: seq<Received>, m: nat,
                                      order: seq<string>, n: nat, hi: nat)
    requires RowsTrack(fares, taps, card, arrivals, m) && hi == m + n && 2 * hi <= |arrivals|
    requires IsRest(arrivals, m, order) && AllIn(taps, order)
    ensures 2 * n <= |order| && RowsTrack(fares, Mark(fares, taps, order, n), card, arrivals, hi)
  {
    if n == 0 {
    } else {
      MarkTracks(fares, taps, card, arrivals, m, order, n - 1, hi - 1);
      RestPair(arrivals, m, order, n, hi - 1);
      MarkNextTracks(fares, taps, card, arrivals, hi - 1, hi, order, n);
    }
  }

  /** The n-th pair of the selection costs what the pair of arrivals it is costs. */
  ghost predicate Priced(fares: Fares, taps: Taps, arrivals: seq<Received>, m: nat, order: seq<string>, n: nat)
    requires AllIn(taps, order)
  {
    && 0 < 2 * n <= |order| && 2 * (m + n) <= |arrivals|
    && Fare(fares, taps, order[2 * n - 2], order[2 * n - 1]) == PairFare(fares, arrivals, m + n - 1)
  }

  lemma NextFare(fares: Fares, taps: Taps, card: string, arrivals: seq<Received>, m: nat, order: seq<string>, n: nat,
                 k: nat)
    requires RowsTrack(fares, taps, card, arrivals, m) && n > 0 && k == m + n - 1 && 2 * k + 2 <= |arrivals|
    requires IsRest(arrivals, m, order) && AllIn(taps, order)
    ensures Priced(fares, taps, arrivals, m, order, n)
  {
    assert RowOk(fares, taps, card, arrivals, m, 2 * k) && RowOk(fares, taps, card, arrivals, m, 2 * k + 1);
    RestPair(arrivals, m, order, n, k);
  }

  lemma {:induction false} PricedCharges(fares: Fares, taps: Taps, arrivals: seq<Received>, lo: nat, m: nat,
                                         order: seq<string>, n: nat, hi: nat)
    requires AllIn(taps, order) && lo <= m && hi == m + n && 2 * n <= |order| && 2 * hi <= |arrivals|
    requires forall j :: 0 < j <= n ==> Priced(fares, taps, arrivals, m, order, j)
    ensures FareList(fares, arrivals, lo, hi) == FareList(fares, arrivals, lo, m) + Charges(fares, taps, order, n)
  {
    if n == 0 {
      assert FareList(fares, arrivals, lo, m) + [] == FareList(fares, arrivals, lo, m);
    } else {
      PricedCharges(fares, taps, arrivals, lo, m, order, n - 1, hi - 1);
      assert Priced(fares, taps, arrivals, m, order, n);
      var fare := PairFare(fares, arrivals, hi - 1);
      Append(FareList(fares, arrivals, lo, m), Charges(fares, taps, order, n - 1),
             if fare.Some? then [fare.value] else []);
    }
  }

  /** The pairs of a selection are charged like the pairs of arrivals they are. */
  lemma ChargesAreFares(fares: Fares, taps: Taps, card: string, arrivals: seq<Received>, lo: nat, m: nat,
                        order: seq<string>, n: nat, hi: nat)
    requires RowsTrack(fares, taps, card, arrivals, m) && hi == m + n && 2 * hi <= |arrivals| && lo <= m
    requires IsRest(arrivals, m, order) && AllIn(taps, order)
    ensures 2 * n <= |order|
    ensures FareList(fares, arrivals, lo, hi) == FareList(fares, arrivals, lo, m) + Charges(fares, taps, order, n)
  {
    forall j | 0 < j <= n ensures Priced(fares, taps, arrivals, m, order, j) {
      NextFare(fares, taps, card, arrivals, m, order, j, m + j - 1);
    }
    PricedCharges(fares, taps, arrivals, lo, m, order, n, hi);
  }

  lemma Append<T>(a: seq<T>, b: seq<T>, c: seq<T>)
    ensures (a + b) + c == a + (b + c)
  {
  }

  lemma Halves(all: nat, m: nat, rest: nat)
    requires rest == all - 2 * m
    ensures m + rest / 2 == all / 2 && 2 * (m + rest / 2) <= all
  {
  }

  /** A holder's own turn processes every complete pair there is, and charges exactly the new ones. */
  lemma TurnTracks(fares: Fares, taps: Taps, card: string, arrivals: seq<Received>, lo: nat, m: nat,
                   order: seq<string>)
    requires RowsTrack(fares, taps, card, arrivals, m) && lo <= m
    requires Selects(taps, card, order) && AllIn(taps, order)
    ensures m <= |arrivals| / 2
    ensures RowsTrack(fares, Mark(fares, taps, order, |order| / 2), card, arrivals, |arrivals| / 2)
    ensures FareList(fares, arrivals, lo, |arrivals| / 2)
         == FareList(fares, arrivals, lo, m) + Charges(fares, taps, order, |order| / 2)
  {
    assert IsRest(arrivals, m, order) by { SelectionIsRest(fares, taps, card, arrivals, m, order); }
    Halves(|arrivals|, m, |order|);
    RestTracks(fares, taps, card, arrivals, lo, m, order, |order| / 2, |arrivals| / 2);
  }

  lemma RestTracks(fares: Fares, taps: Taps, card: string, arrivals: seq<Received>, lo: nat, m: nat,
                   order: seq<string>, n: nat, hi: nat)
    requires RowsTrack(fares, taps, card, arrivals, m) && lo <= m
    requires IsRest(arrivals, m, order) && AllIn(taps, order)
    requires hi == m + n && 2 * hi <= |arrivals|
    ensures 2 * n <= |order|
    ensures RowsTrack(fares, Mark(fares, taps, order, n), card, arrivals, hi)
    ensures FareList(fares, arrivals, lo, hi)
         == FareList(fares, arrivals, lo, m) + Charges(fares, taps, order, n)
  {
    MarkTracks(fares, taps, card, arrivals, m, order, n, hi);
    ChargesAreFares(fares, taps, card, arrivals, lo, m, order, n, hi);
  }

  // ---------------------------------------------------------------------------
  // Arrivals
  // ---------------------------------------------------------------------------

  lemma OwnArrivalTracks(fares: Fares, taps: Taps, card: string, arrivals: seq<Received>, m: nat, r: Received)
    requires RowsTrack(fares, taps, card, arrivals, m)
    requires Complete(r) && r.id !in taps && r.holder == card && Chronological(arrivals + [r])
    ensures RowsTrack(fares, InsertOne(taps, r), card, arrivals + [r], m)
  {
    var after, all := InsertOne(taps, r), arrivals + [r];
    forall i | 0 <= i < |all| ensures RowOk(fares, after, card, all, m, i) {
      if i < |arrivals| { assert RowOk(fares, taps, card, arrivals, m, i); }
    }
    forall id | id in after && after[id].holder == card ensures HasArrived(all, id) {
      if id == r.id {
        assert all[|arrivals|].id == id;
      } else {
        assert HasArrived(arrivals, id);
        var i :| 0 <= i < |arrivals| && arrivals[i].id == id;
        assert all[i].id == id;
      }
    }
  }

  lemma OtherArrivalTracks(fares: Fares, taps: Taps, card: string, arrivals: seq<Received>, m: nat, r: Received)
    requires RowsTrack(fares, taps, card, arrivals, m)
    requires !Complete(r) || r.id in taps || r.holder != card
    ensures RowsTrack(fares, InsertOne(taps, r), card, arrivals, m)
  {
    forall i | 0 <= i < |arrivals| ensures RowOk(fares, InsertOne(taps, r), card, arrivals, m, i) {
      assert RowOk(fares, taps, card, arrivals, m, i);
    }
  }

  /** Another card's construction leaves this card's rows alone. */
  lemma OtherConstructTracks(fares: Fares, taps: Taps, card: string, arrivals: seq<Received>, m: nat, other: string,
                             order: seq<string>, n: nat)
    requires RowsTrack(fares, taps, card, arrivals, m)
    requires other != card && Selects(taps, other, order) && AllIn(taps, order) && 2 * n <= |order|
    ensures RowsTrack(fares, Mark(fares, taps, order, n), card, arrivals, m)
  {
    var after := Mark(fares, taps, order, n);
    SelectedAreIn(taps, other, order);
    forall i | 0 <= i < |arrivals| ensures RowOk(fares, after, card, arrivals, m, i) {
      assert RowOk(fares, taps, card, arrivals, m, i);
      assert arrivals[i].id !in order;
      MarkFrame(fares, taps, order, n, arrivals[i].id);
    }
    forall id | id in after && after[id].holder == card ensures HasArrived(arrivals, id) {
      MarkFrame(fares, taps, order, n, id);
    }
  }

  /** What a received tap adds to the holder's rows: itself, if it is complete, the holder's and new. */
  function Adds(seen: set<string>, r: Received, card: string): seq<Received> {
    if Complete(r) && r.id !in seen && r.holder == card then [r] else []
  }

  function Sees(seen: set<string>, r: Received): set<string> {
    if Complete(r) then seen + {r.id} else seen
  }

  /** The holder's taps among the received ones that are added to the table. */
  function Kept(seen: set<string>, received: seq<Received>, card: string): seq<Received>
    decreases |received|
  {
    if received == [] then []
    else Adds(seen, received[0], card) + Kept(Sees(seen, received[0]), received[1..], card)
  }

  lemma ChronologicalPrefix(a: seq<Received>, b: seq<Received>)
    requires Chronological(a + b)
    ensures Chronological(a)
  {
    forall i, j | 0 <= i < j < |a| ensures Earlier(a, i, j) {
      assert Earlier(a + b, i, j);
    }
    forall i | 0 <= i < |a| ensures Complete(a[i]) {
      assert (a + b)[i] == a[i];
    }
  }

  lemma ArrivalTracks(fares: Fares, taps: Taps, card: string, arrivals: seq<Received>, m: nat, r: Received)
    requires RowsTrack(fares, taps, card, arrivals, m) && Chronological(arrivals + Adds(taps.Keys, r, card))
    ensures RowsTrack(fares, InsertOne(taps, r), card, arrivals + Adds(taps.Keys, r, card), m)
    ensures InsertOne(taps, r).Keys == Sees(taps.Keys, r)
  {
    if Adds(taps.Keys, r, card) == [] {
      assert arrivals + [] == arrivals;
      OtherArrivalTracks(fares, taps, card, arrivals, m, r);
    } else {
      OwnArrivalTracks(fares, taps, card, arrivals, m, r);
    }
  }

  lemma {:induction false} InsertFirst(taps: Taps, batch: seq<Received>)
    requires batch != []
    ensures Insert(taps, batch) == Insert(InsertOne(taps, batch[0]), batch[1..])
  {
    if |batch| == 1 {
      assert batch[..0] == [] && batch[1..] == [];
    } else {
      var init := batch[..|batch| - 1];
      InsertFirst(taps, init);
      assert batch[1..][..|batch| - 2] == init[1..];
    }
  }

  /** Inserting a batch adds the kept taps and pairs nothing. */
  lemma {:induction false} InsertTracks(fares: Fares, taps: Taps, card: string, arrivals: seq<Received>, m: nat,
                                        batch: seq<Received>)
    requires RowsTrack(fares, taps, card, arrivals, m) && Chronological(arrivals + Kept(taps.Keys, batch, card))
    ensures RowsTrack(fares, Insert(taps, batch), card, arrivals + Kept(taps.Keys, batch, card), m)
    decreases |batch|
  {
    if batch == [] {
      assert arrivals + [] == arrivals;
    } else {
      var first := Adds(taps.Keys, batch[0], card);
      var rest := Kept(Sees(taps.Keys, batch[0]), batch[1..], card);
      Append(arrivals, first, rest);
      ChronologicalPrefix(arrivals + first, rest);
      ArrivalTracks(fares, taps, card, arrivals, m, batch[0]);
      InsertTracks(fares, InsertOne(taps, batch[0]), card, arrivals + first, m, batch[1..]);
      InsertFirst(taps, batch);
    }
  }

  /** Two tap tables have the same rows of the holder. */
  ghost predicate SameRows(a: Taps, b: Taps, card: string) {
    && (forall id :: id in a && a[id].holder == card ==> id in b && b[id] == a[id])
    && (forall id :: id in b && b[id].holder == card ==> id in a && a[id] == b[id])
  }

  lemma TrackedSame(fares: Fares, a: Taps, b: Taps, card: string, arrivals: seq<Received>, m: nat)
    requires RowsTrack(fares, a, card, arrivals, m) && RowsTrack(fares, b, card, arrivals, m)
    ensures SameRows(a, b, card)
  {
    forall id | (id in a && a[id].holder == card) || (id in b && b[id].holder == card)
      ensures id in a && id in b && a[id] == b[id]
    {
      assert HasArrived(arrivals, id);
      var i :| 0 <= i < |arrivals| && arrivals[i].id == id;
      assert RowOk(fares, a, card, arrivals, m, i) && RowOk(fares, b, card, arrivals, m, i);
    }
  }
}
