/** The station computer's batching: taps are buffered per card type, forwarded in full batches, and
    put back when forwarding fails. */
module Batcher {

  datatype Transaction = Transaction(id: string, cardType: string, holder: string, gate: string, station: string,
                                     time: int)

  // ---------------------------------------------------------------------------
  // One card type
  // ---------------------------------------------------------------------------

  /** Everything that happened to the taps of one card type: what is buffered, the batches on their
      way in the order they left, and the histories of what arrived and what was delivered. */
  datatype Lane = Lane(
    buffer: seq<Transaction>,
    flight: seq<seq<Transaction>>,
    delivered: seq<Transaction>,
    accepted: seq<Transaction>)

  function Flatten(batches: seq<seq<Transaction>>): seq<Transaction> {
    if batches == [] then [] else batches[0] + Flatten(batches[1..])
  }

  /** Appends the tap and takes a full batch off the front when there is one. */
  function Add(batchSize: nat, buffer: seq<Transaction>, tx: Transaction): (r: (seq<Transaction>, seq<Transaction>))
    ensures buffer + [tx] == r.1 + r.0
    ensures |r.1| == if |buffer| + 1 < batchSize then 0 else batchSize
  {
    var cur := buffer + [tx];
    if |cur| < batchSize then (cur, []) else (cur[batchSize..], cur[..batchSize])
  }

  function Accept(batchSize: nat, l: Lane, tx: Transaction): Lane {
    var (rest, batch) := Add(batchSize, l.buffer, tx);
    l.(buffer := rest, accepted := l.accepted + [tx], flight := if batch == [] then l.flight else l.flight + [batch])
  }

  function Without(batches: seq<seq<Transaction>>, i: nat): seq<seq<Transaction>>
    requires i < |batches|
  {
    batches[..i] + batches[i + 1..]
  }

  /** The i-th batch on its way arrives. */
  function Arrive(l: Lane, i: nat): Lane
    requires i < |l.flight|
  {
    l.(flight := Without(l.flight, i), delivered := l.delivered + l.flight[i])
  }

  /** The i-th batch fails and goes back to the front of the buffer. */
  function PutBack(l: Lane, i: nat): Lane
    requires i < |l.flight|
  {
    l.(flight := Without(l.flight, i), buffer := l.flight[i] + l.buffer)
  }

  lemma {:induction false} FlattenConcat(a: seq<seq<Transaction>>, b: seq<seq<Transaction>>)
    ensures Flatten(a + b) == Flatten(a) + Flatten(b)
  {
    if a == [] {
      assert a + b == b;
    } else {
      assert (a + b)[1..] == a[1..] + b;
      FlattenConcat(a[1..], b);
    }
  }

  lemma FlattenCons(b: seq<Transaction>, rest: seq<seq<Transaction>>)
    ensures Flatten([b] + rest) == b + Flatten(rest)
  {
    assert ([b] + rest)[1..] == rest;
  }

  lemma FlattenParts(before: seq<seq<Transaction>>, b: seq<Transaction>, after: seq<seq<Transaction>>)
    ensures Flatten(before + ([b] + after)) == Flatten(before) + (b + Flatten(after))
  {
    FlattenConcat(before, [b] + after);
    FlattenCons(b, after);
  }

  lemma SplitAt<T>(s: seq<T>, i: nat)
    requires i < |s|
    ensures s == s[..i] + ([s[i]] + s[i + 1..])
  {
  }

  lemma FlattenAt(batches: seq<seq<Transaction>>, i: nat)
    requires i < |batches|
    ensures Flatten(batches) == Flatten(batches[..i]) + (batches[i] + Flatten(batches[i + 1..]))
  {
    SplitAt(batches, i);
    FlattenParts(batches[..i], batches[i], batches[i + 1..]);
  }

  lemma FlattenWithout(batches: seq<seq<Transaction>>, i: nat)
    requires i < |batches|
    ensures Flatten(Without(batches, i)) == Flatten(batches[..i]) + Flatten(batches[i + 1..])
  {
    FlattenConcat(batches[..i], batches[i + 1..]);
  }

  // ---------------------------------------------------------------------------
  // Conservation
  // ---------------------------------------------------------------------------

  /** Every accepted tap is in exactly one place; batches on their way are full; all taps of the lane
      have its card type. */
  ghost predicate Conserved(batchSize: nat, cardType: string, l: Lane) {
    && multiset(l.accepted) == multiset(l.buffer) + multiset(Flatten(l.flight)) + multiset(l.delivered)
    && (forall i :: 0 <= i < |l.flight| ==> |l.flight[i]| == batchSize)
    && (forall i :: 0 <= i < |l.accepted| ==> l.accepted[i].cardType == cardType)
  }

  lemma AcceptFlight(batchSize: nat, l: Lane, tx: Transaction)
    ensures Flatten(Accept(batchSize, l, tx).flight) == Flatten(l.flight) + Add(batchSize, l.buffer, tx).1
  {
    var batch := Add(batchSize, l.buffer, tx).1;
    FlattenConcat(l.flight, [batch]);
    FlattenCons(batch, []);
    assert [batch] + [] == [batch];
  }

  lemma AcceptConserves(batchSize: nat, cardType: string, l: Lane, tx: Transaction)
    requires Conserved(batchSize, cardType, l) && tx.cardType == cardType
    ensures Conserved(batchSize, cardType, Accept(batchSize, l, tx))
  {
    var (rest, batch) := Add(batchSize, l.buffer, tx);
    AcceptFlight(batchSize, l, tx);
    assert multiset(l.buffer) + multiset{tx} == multiset(batch) + multiset(rest) by {
      assert multiset(l.buffer + [tx]) == multiset(batch + rest);
    }
    assert multiset(Flatten(l.flight) + batch) == multiset(Flatten(l.flight)) + multiset(batch);
    Regroup(multiset(l.accepted), multiset(l.buffer), multiset(Flatten(l.flight)), multiset(l.delivered),
            multiset{tx}, multiset(batch), multiset(rest));
  }

  lemma Regroup<T>(a: multiset<T>, b: multiset<T>, f: multiset<T>, d: multiset<T>, t: multiset<T>, out: multiset<T>,
                   rest: multiset<T>)
    requires a == b + f + d && b + t == out + rest
    ensures a + t == rest + (f + out) + d
  {
    assert a + t == (b + t) + f + d;
  }

  /** Taking a batch off the way removes its taps and no others. */
  lemma FlattenTakes(batches: seq<seq<Transaction>>, i: nat)
    requires i < |batches|
    ensures multiset(Flatten(batches)) == multiset(batches[i]) + multiset(Flatten(Without(batches, i)))
  {
    var before, b, after := Flatten(batches[..i]), batches[i], Flatten(batches[i + 1..]);
    FlattenAt(batches, i);
    FlattenWithout(batches, i);
    assert multiset(before + (b + after)) == multiset(before) + (multiset(b) + multiset(after));
    assert multiset(before + after) == multiset(before) + multiset(after);
  }

  lemma ArriveConserves(batchSize: nat, cardType: string, l: Lane, i: nat)
    requires Conserved(batchSize, cardType, l) && i < |l.flight|
    ensures Conserved(batchSize, cardType, Arrive(l, i))
  {
    FlattenTakes(l.flight, i);
    assert multiset(l.delivered + l.flight[i]) == multiset(l.delivered) + multiset(l.flight[i]);
  }

  lemma PutBackConserves(batchSize: nat, cardType: string, l: Lane, i: nat)
    requires Conserved(batchSize, cardType, l) && i < |l.flight|
    ensures Conserved(batchSize, cardType, PutBack(l, i))
  {
    FlattenTakes(l.flight, i);
    assert multiset(l.flight[i] + l.buffer) == multiset(l.flight[i]) + multiset(l.buffer);
  }

  /** A batch on its way holds only taps that came in. */
  lemma BatchCameIn(batchSize: nat, cardType: string, l: Lane, i: nat, j: nat)
    requires Conserved(batchSize, cardType, l) && i < |l.flight| && j < |l.flight[i]|
    ensures l.flight[i][j] in l.accepted
  {
    FlattenAt(l.flight, i);
    assert l.flight[i][j] in multiset(Flatten(l.flight));
    assert l.flight[i][j] in multiset(l.accepted);
  }

  /** A batch on its way holds only taps of one card type. */
  lemma BatchHasOneType(batchSize: nat, cardType: string, l: Lane, i: nat, j: nat)
    requires Conserved(batchSize, cardType, l) && i < |l.flight| && j < |l.flight[i]|
    ensures l.flight[i][j].cardType == cardType
  {
    BatchCameIn(batchSize, cardType, l, i, j);
  }

  /** When nothing is buffered or on its way, everything that came in has been delivered. */
  lemma IdleDelivered(batchSize: nat, cardType: string, l: Lane, tx: Transaction)
    requires Conserved(batchSize, cardType, l) && l.buffer == [] && l.flight == []
    ensures tx in l.accepted <==> tx in l.delivered
  {
    assert multiset(l.accepted) == multiset(l.delivered);
    assert tx in l.accepted <==> tx in multiset(l.accepted);
    assert tx in l.delivered <==> tx in multiset(l.delivered);
  }

  // ---------------------------------------------------------------------------
  // Arrival order
  // ---------------------------------------------------------------------------

  /** Delivered, on the way, buffered: in the order the taps came in. */
  ghost predicate InOrder(l: Lane) {
    l.accepted == l.delivered + Flatten(l.flight) + l.buffer
  }

  lemma Reassociate<T>(a: seq<T>, b: seq<T>, c: seq<T>, d: seq<T>)
    ensures a + (b + c) + d == (a + b) + c + d
    ensures a + (b + c) + d == a + b + (c + d)
  {
  }

  lemma AcceptKeepsOrder(batchSize: nat, l: Lane, tx: Transaction)
    requires InOrder(l)
    ensures InOrder(Accept(batchSize, l, tx))
  {
    var (rest, batch) := Add(batchSize, l.buffer, tx);
    AcceptFlight(batchSize, l, tx);
    Reassociate(l.delivered, Flatten(l.flight), batch, rest);
    Reassociate(l.delivered, Flatten(l.flight), l.buffer, [tx]);
  }

  lemma OldestArrives(l: Lane)
    requires InOrder(l) && l.flight != []
    ensures InOrder(Arrive(l, 0))
  {
    assert Without(l.flight, 0) == l.flight[1..];
    Reassociate(l.delivered, l.flight[0], Flatten(l.flight[1..]), l.buffer);
  }

  lemma YoungestPutBack(l: Lane)
    requires InOrder(l) && l.flight != []
    ensures InOrder(PutBack(l, |l.flight| - 1))
  {
    var i := |l.flight| - 1;
    FlattenAt(l.flight, i);
    FlattenWithout(l.flight, i);
    assert l.flight[i + 1..] == [];
    assert l.delivered + (Flatten(l.flight[..i]) + l.flight[i]) + l.buffer
        == l.delivered + Flatten(l.flight[..i]) + (l.flight[i] + l.buffer);
  }

  ghost predicate Distinct(s: seq<Transaction>) {
    forall i, j :: 0 <= i < j < |s| ==> s[i] != s[j]
  }

  /** Exactly the oldest batch may arrive without disturbing the order. */
  lemma ArriveKeepsOrderIff(l: Lane, i: nat)
    requires InOrder(l) && Distinct(l.accepted) && i < |l.flight|
    requires forall j :: 0 <= j < |l.flight| ==> l.flight[j] != []
    ensures InOrder(Arrive(l, i)) <==> i == 0
  {
    if i == 0 {
      OldestArrives(l);
    } else {
      FlattenAt(l.flight, i);
      FlattenWithout(l.flight, i);
      var before, after := l.accepted, Arrive(l, i).delivered + Flatten(Arrive(l, i).flight) + l.buffer;
      FlattenAt(l.flight, 0);
      assert l.flight[..0] == [];
      var at := |l.delivered|;
      assert before[at] == l.flight[0][0] && after[at] == l.flight[i][0];
      var there := at + |Flatten(l.flight[..i])|;
      FlattenAt(l.flight[..i], 0);
      assert before[there] == l.flight[i][0] && at < there;
    }
  }

  /** Exactly the youngest batch may be put back without disturbing the order. */
  lemma PutBackKeepsOrderIff(l: Lane, i: nat)
    requires InOrder(l) && Distinct(l.accepted) && i < |l.flight|
    requires forall j :: 0 <= j < |l.flight| ==> l.flight[j] != []
    ensures InOrder(PutBack(l, i)) <==> i == |l.flight| - 1
  {
    if i == |l.flight| - 1 {
      YoungestPutBack(l);
    } else {
      FlattenAt(l.flight, i);
      FlattenWithout(l.flight, i);
      var tail := Flatten(l.flight[i + 1..]);
      var before, after := l.accepted, l.delivered + Flatten(Without(l.flight, i)) + (l.flight[i] + l.buffer);
      FlattenAt(l.flight[i + 1..], 0);
      var at := |l.delivered| + |Flatten(l.flight[..i])|;
      assert before[at] == l.flight[i][0];
      assert after[at] == l.flight[i + 1][0] == tail[0];
      var there := at + |l.flight[i]|;
      assert before[there] == tail[0] && at < there;
    }
  }

  // ---------------------------------------------------------------------------
  // Whole runs
  // ---------------------------------------------------------------------------

  type Station = map<string, Lane>

  function LaneOf(s: Station, cardType: string): Lane {
    if cardType in s then s[cardType] else Lane([], [], [], [])
  }

  datatype Event =
    | Tapped(tx: Transaction)                  // a gate hands in a tap
    | Forwarded(cardType: string, i: nat)      // a batch on its way is acknowledged
    | Failed(cardType: string, i: nat)         // a batch on its way fails and is put back

  predicate Possible(s: Station, e: Event) {
    !e.Tapped? ==> e.i < |LaneOf(s, e.cardType).flight|
  }

  function Step(batchSize: nat, s: Station, e: Event): Station
    requires Possible(s, e)
  {
    match e
    case Tapped(tx) => s[tx.cardType := Accept(batchSize, LaneOf(s, tx.cardType), tx)]
    case Forwarded(cardType, i) => s[cardType := Arrive(LaneOf(s, cardType), i)]
    case Failed(cardType, i) => s[cardType := PutBack(LaneOf(s, cardType), i)]
  }

  predicate PossibleRun(batchSize: nat, s: Station, es: seq<Event>)
    decreases |es|
  {
    es == [] || (Possible(s, es[0]) && PossibleRun(batchSize, Step(batchSize, s, es[0]), es[1..]))
  }

  function Run(batchSize: nat, s: Station, es: seq<Event>): Station
    requires PossibleRun(batchSize, s, es)
    decreases |es|
  {
    if es == [] then s else Run(batchSize, Step(batchSize, s, es[0]), es[1..])
  }

  /** A tap is taken in at the end; a batch that is acknowledged is delivered and gone; one that fails goes back to
      the front of the buffer. Lanes of other card types are not concerned. */
  lemma EventMoves(batchSize: nat, s: Station, e: Event, other: string)
    requires Possible(s, e)
    ensures var s' := Step(batchSize, s, e);
            match e
            case Tapped(tx) =>
              && LaneOf(s', tx.cardType).accepted == LaneOf(s, tx.cardType).accepted + [tx]
              && LaneOf(s', tx.cardType).delivered == LaneOf(s, tx.cardType).delivered
              && (other != tx.cardType ==> LaneOf(s', other) == LaneOf(s, other))
            case Forwarded(c, i) =>
              var l, l' := LaneOf(s, c), LaneOf(s', c);
              && l'.delivered == l.delivered + l.flight[i] && l'.buffer == l.buffer && |l'.flight| == |l.flight| - 1
              && l'.accepted == l.accepted && (other != c ==> LaneOf(s', other) == LaneOf(s, other))
            case Failed(c, i) =>
              var l, l' := LaneOf(s, c), LaneOf(s', c);
              && l'.delivered == l.delivered && l'.buffer == l.flight[i] + l.buffer && |l'.flight| == |l.flight| - 1
              && l'.accepted == l.accepted && (other != c ==> LaneOf(s', other) == LaneOf(s, other))
  {
  }

  /** Conservation: over every interleaving of taps, deliveries and failures, each card type's
      accepted taps are exactly those buffered, on their way or delivered, and every batch on its
      way is full. */
  lemma {:induction false} RunConserves(batchSize: nat, s: Station, es: seq<Event>, cardType: string)
    requires PossibleRun(batchSize, s, es)
    requires Conserved(batchSize, cardType, LaneOf(s, cardType))
    ensures Conserved(batchSize, cardType, LaneOf(Run(batchSize, s, es), cardType))
    decreases |es|
  {
    if es == [] {
    } else {
      var l := LaneOf(s, cardType);
      match es[0] {
        case Tapped(tx) => if tx.cardType == cardType { AcceptConserves(batchSize, cardType, l, tx); }
        case Forwarded(c, i) => if c == cardType { ArriveConserves(batchSize, cardType, l, i); }
        case Failed(c, i) => if c == cardType { PutBackConserves(batchSize, cardType, l, i); }
      }
      RunConserves(batchSize, Step(batchSize, s, es[0]), es[1..], cardType);
    }
  }

  /** At no moment of the run are two batches of the card type on their way. */
  ghost predicate OneAtATime(batchSize: nat, s: Station, es: seq<Event>, cardType: string)
    requires PossibleRun(batchSize, s, es)
    decreases |es|
  {
    && |LaneOf(s, cardType).flight| <= 1
    && (es != [] ==> OneAtATime(batchSize, Step(batchSize, s, es[0]), es[1..], cardType))
  }

  /** Arrival order is kept over every run in which batches of the card type go one at a time. */
  lemma {:induction false} RunKeepsOrder(batchSize: nat, s: Station, es: seq<Event>, cardType: string)
    requires PossibleRun(batchSize, s, es) && OneAtATime(batchSize, s, es, cardType)
    requires InOrder(LaneOf(s, cardType))
    ensures InOrder(LaneOf(Run(batchSize, s, es), cardType))
    decreases |es|
  {
    if es == [] {
    } else {
      var l := LaneOf(s, cardType);
      match es[0] {
        case Tapped(tx) => if tx.cardType == cardType { AcceptKeepsOrder(batchSize, l, tx); }
        case Forwarded(c, i) => if c == cardType { OldestArrives(l); }
        case Failed(c, i) => if c == cardType { YoungestPutBack(l); }
      }
      RunKeepsOrder(batchSize, Step(batchSize, s, es[0]), es[1..], cardType);
    }
  }

  class PerTypeBatcher {
    const batchSize: nat
    var byType: map<string, seq<Transaction>>

    function Buffer(cardType: string): seq<Transaction>
      reads this
    {
      if cardType in byType then byType[cardType] else []
    }

    constructor (batchSize: nat)
      ensures this.batchSize == batchSize && forall t :: Buffer(t) == []
    {
      this.batchSize := batchSize;
      byType := map["OY" := [], "PCTR" := []];
    }

    /** Buffers the tap; hands out a full batch when there is one. */
    method AddTransaction(tx: Transaction) returns (remaining: nat, batch: seq<Transaction>)
      modifies this
      ensures (Buffer(tx.cardType), batch) == Add(batchSize, old(Buffer(tx.cardType)), tx)
      ensures remaining == |Buffer(tx.cardType)|
      ensures forall t :: t != tx.cardType ==> Buffer(t) == old(Buffer(t))
    {
      var cur := Buffer(tx.cardType) + [tx];
      byType := byType[tx.cardType := cur];
      if |cur| < batchSize { return |cur|, []; }
      batch := cur[..batchSize];
      byType := byType[tx.cardType := cur[batchSize..]];
      remaining := |cur| - batchSize;
    }

    /** Puts a failed batch back in front of what was buffered meanwhile. */
    method Restore(batch: seq<Transaction>)
      requires batch != []
      modifies this
      ensures Buffer(batch[0].cardType) == batch + old(Buffer(batch[0].cardType))
      ensures forall t :: t != batch[0].cardType ==> Buffer(t) == old(Buffer(t))
    {
      var t := batch[0].cardType;
      byType := byType[t := batch + Buffer(t)];
    }
  }
}
