/** Contactless travellers: journeys become debt rows, and unreported debts are summed per token and
    posted to the payment authority, which stores what it receives. */
module Debts {
  import opened Journeys
  import opened Pairing

  datatype Debt = Debt(token: string, amount: int, reported: bool)

  datatype Owed = Owed(token: string, amount: int)

  /** The back office's tables, and the rows the payment authority has received. */
  datatype Office = Office(taps: Taps, debts: seq<Debt>, received: seq<Owed>)

  // ---------------------------------------------------------------------------
  // Building debts
  // ---------------------------------------------------------------------------

  function NewDebts(token: string, charges: seq<int>): seq<Debt> {
    if charges == [] then []
    else NewDebts(token, charges[..|charges| - 1]) + [Debt(token, charges[|charges| - 1], false)]
  }

  /** One token's turn of journey construction, in a transaction. */
  function Build(fares: Fares, s: Office, token: string, order: seq<string>, committed: bool): Office
    requires AllIn(s.taps, order)
  {
    if |order| < 2 || !committed then s
    else
      var n := |order| / 2;
      s.(taps := Mark(fares, s.taps, order, n), debts := s.debts + NewDebts(token, Charges(fares, s.taps, order, n)))
  }

  /** A committed turn leaves at most one tap of the token, whatever the tap times; a turn that is rolled
      back leaves them all. */
  lemma BuildLeaves(fares: Fares, s: Office, token: string, order: seq<string>, committed: bool, left: seq<string>)
    requires Selects(s.taps, token, order) && AllIn(s.taps, order)
    requires Selects(Build(fares, s, token, order, committed).taps, token, left)
    ensures |left| == if committed then |order| % 2 else |order|
  {
    TurnLeaves(fares, s.taps, token, order, if committed then |order| / 2 else 0, left);
  }

  // ---------------------------------------------------------------------------
  // Reporting them
  // ---------------------------------------------------------------------------

  /** What a token's debts with the given flag add up to. */
  function TotalDebt(debts: seq<Debt>, token: string, reported: bool): int {
    if debts == [] then 0
    else
      var last := debts[|debts| - 1];
      TotalDebt(debts[..|debts| - 1], token, reported)
      + if last.token == token && last.reported == reported then last.amount else 0
  }

  /** The posted list: one sum per token with unreported debts. */
  function Statement(debts: seq<Debt>, tokens: seq<string>): seq<Owed> {
    if tokens == [] then []
    else
      var last := tokens[|tokens| - 1];
      Statement(debts, tokens[..|tokens| - 1]) + [Owed(last, TotalDebt(debts, last, false))]
  }

  ghost predicate HasUnreported(debts: seq<Debt>, token: string) {
    exists i :: 0 <= i < |debts| && debts[i].token == token && !debts[i].reported
  }

  /** The tokens of the GROUP BY: each token with unreported debts, once. */
  ghost predicate Groups(debts: seq<Debt>, tokens: seq<string>) {
    && (forall t :: t in tokens <==> HasUnreported(debts, t))
    && (forall i, j :: 0 <= i < j < |tokens| ==> tokens[i] != tokens[j])
  }

  /** The payment authority inserts row by row, leaving out empty tokens and zero amounts. */
  function InsertDebts(received: seq<Owed>, rows: seq<Owed>): seq<Owed> {
    if rows == [] then received
    else
      var before, last := InsertDebts(received, rows[..|rows| - 1]), rows[|rows| - 1];
      if last.token == "" || last.amount == 0 then before else before + [last]
  }

  function MarkReported(debts: seq<Debt>): (r: seq<Debt>)
    ensures |r| == |debts|
  {
    if debts == [] then [] else MarkReported(debts[..|debts| - 1]) + [debts[|debts| - 1].(reported := true)]
  }

  /** How far a post gets: how many rows the authority inserts before it fails, if it does; whether
      its reply comes back; and whether the marking that follows a good reply succeeds. */
  datatype Post = Post(rows: nat, replied: bool, marked: bool)

  /** One reporting cycle. Only a complete, answered post is followed by marking everything that is
      still unreported. */
  function Report(s: Office, tokens: seq<string>, post: Post): Office {
    var statement := Statement(s.debts, tokens);
    var rows := if post.rows < |statement| then post.rows else |statement|;
    if tokens == [] then s
    else
      var s1 := s.(received := InsertDebts(s.received, statement[..rows]));
      if rows == |statement| && post.replied && post.marked then s1.(debts := MarkReported(s.debts)) else s1
  }

  function TotalReceived(received: seq<Owed>, token: string): int {
    if received == [] then 0
    else
      var last := received[|received| - 1];
      TotalReceived(received[..|received| - 1], token) + if last.token == token then last.amount else 0
  }

  // ---------------------------------------------------------------------------
  // Sums
  // ---------------------------------------------------------------------------

  lemma {:induction false} InsertDebtsTotal(received: seq<Owed>, rows: seq<Owed>, token: string)
    requires token != ""
    ensures TotalReceived(InsertDebts(received, rows), token)
         == TotalReceived(received, token) + TotalReceived(rows, token)
  {
    if rows == [] {
    } else {
      InsertDebtsTotal(received, rows[..|rows| - 1], token);
    }
  }

  lemma {:induction false} NoUnreported(debts: seq<Debt>, token: string)
    requires !HasUnreported(debts, token)
    ensures TotalDebt(debts, token, false) == 0
  {
    if debts == [] {
    } else {
      var init := debts[..|debts| - 1];
      forall i | 0 <= i < |init| ensures !(init[i].token == token && !init[i].reported) {
        assert debts[i] == init[i];
      }
      NoUnreported(init, token);
    }
  }

  lemma {:induction false} StatementAbsent(debts: seq<Debt>, tokens: seq<string>, token: string)
    requires token !in tokens
    ensures TotalReceived(Statement(debts, tokens), token) == 0
  {
    if tokens == [] {
    } else {
      StatementAbsent(debts, tokens[..|tokens| - 1], token);
    }
  }

  lemma {:induction false} StatementPresent(debts: seq<Debt>, tokens: seq<string>, token: string)
    requires token in tokens && forall i, j :: 0 <= i < j < |tokens| ==> tokens[i] != tokens[j]
    ensures TotalReceived(Statement(debts, tokens), token) == TotalDebt(debts, token, false)
  {
    var init, last := tokens[..|tokens| - 1], tokens[|tokens| - 1];
    if last == token {
      StatementAbsent(debts, init, token);
    } else {
      assert token in init;
      StatementPresent(debts, init, token);
    }
  }

  /** The statement owes every token exactly its unreported debts. */
  lemma StatementTotal(debts: seq<Debt>, tokens: seq<string>, token: string)
    requires Groups(debts, tokens)
    ensures TotalReceived(Statement(debts, tokens), token) == TotalDebt(debts, token, false)
  {
    if token in tokens {
      StatementPresent(debts, tokens, token);
    } else {
      StatementAbsent(debts, tokens, token);
      NoUnreported(debts, token);
    }
  }

  lemma {:induction false} MarkReportedTotal(debts: seq<Debt>, token: string)
    ensures TotalDebt(MarkReported(debts), token, true)
         == TotalDebt(debts, token, true) + TotalDebt(debts, token, false)
    ensures TotalDebt(MarkReported(debts), token, false) == 0
  {
    if debts == [] {
    } else {
      MarkReportedTotal(debts[..|debts| - 1], token);
    }
  }

  lemma {:induction false} NewDebtsTotal(debts: seq<Debt>, token: string, charges: seq<int>, t: string)
    ensures TotalDebt(debts + NewDebts(token, charges), t, true) == TotalDebt(debts, t, true)
    ensures TotalDebt(debts + NewDebts(token, charges), t, false)
         == TotalDebt(debts, t, false) + if t == token then Sum(charges) else 0
  {
    if charges == [] {
      assert debts + [] == debts;
    } else {
      var init := charges[..|charges| - 1];
      NewDebtsTotal(debts, token, init, t);
      var all := debts + NewDebts(token, charges);
      assert all[..|all| - 1] == debts + NewDebts(token, init);
    }
  }

  // ---------------------------------------------------------------------------
  // Runs
  // ---------------------------------------------------------------------------

  datatype Event =
    | Tapped(r: Received)
    | Built(token: string, order: seq<string>, committed: bool)
    | Reported(tokens: seq<string>, post: Post)

  ghost predicate Possible(s: Office, e: Event) {
    match e
    case Tapped(_) => true
    case Built(token, order, _) => Selects(s.taps, token, order)
    case Reported(tokens, _) => Groups(s.debts, tokens)
  }

  ghost function Step(fares: Fares, s: Office, e: Event): Office
    requires Possible(s, e)
  {
    match e
    case Tapped(r) => s.(taps := InsertOne(s.taps, r))
    case Built(token, order, committed) => SelectedAreIn(s.taps, token, order); Build(fares, s, token, order, committed)
    case Reported(tokens, post) => Report(s, tokens, post)
  }

  ghost predicate PossibleRun(fares: Fares, s: Office, es: seq<Event>)
    decreases |es|
  {
    es == [] || (Possible(s, es[0]) && PossibleRun(fares, Step(fares, s, es[0]), es[1..]))
  }

  ghost function Run(fares: Fares, s: Office, es: seq<Event>): Office
    requires PossibleRun(fares, s, es)
    decreases |es|
  {
    if es == [] then s else Run(fares, Step(fares, s, es[0]), es[1..])
  }

  // ---------------------------------------------------------------------------
  // At least once
  // ---------------------------------------------------------------------------

  /** No fare is negative: the seeding skips negative costs. */
  ghost predicate NonNegative(fares: Fares) {
    forall a, b :: fares(a, b).Some? ==> fares(a, b).value >= 0
  }

  ghost predicate NoCredit(debts: seq<Debt>) {
    forall i :: 0 <= i < |debts| ==> debts[i].amount >= 0
  }

  lemma {:induction false} TotalDebtNonNegative(debts: seq<Debt>, token: string, reported: bool)
    requires NoCredit(debts)
    ensures TotalDebt(debts, token, reported) >= 0
  {
    if debts == [] {
    } else {
      TotalDebtNonNegative(debts[..|debts| - 1], token, reported);
    }
  }

  lemma {:induction false} StatementPrefixNonNegative(debts: seq<Debt>, tokens: seq<string>, k: nat, token: string)
    requires NoCredit(debts) && k <= |Statement(debts, tokens)|
    ensures TotalReceived(Statement(debts, tokens)[..k], token) >= 0
  {
    var rows := Statement(debts, tokens);
    if tokens == [] {
    } else {
      var init := tokens[..|tokens| - 1];
      TotalDebtNonNegative(debts, tokens[|tokens| - 1], false);
      if k < |rows| {
        assert rows[..k] == Statement(debts, init)[..k];
        StatementPrefixNonNegative(debts, init, k, token);
      } else {
        assert rows[..k] == rows;
        StatementPrefixNonNegative(debts, init, |Statement(debts, init)|, token);
        assert Statement(debts, init)[..|Statement(debts, init)|] == Statement(debts, init);
        assert rows[..|rows| - 1] == Statement(debts, init);
      }
    }
  }

  lemma {:induction false} ChargesNonNegative(fares: Fares, taps: Taps, order: seq<string>, n: nat, token: string)
    requires NonNegative(fares) && AllIn(taps, order) && 2 * n <= |order|
    ensures NoCredit(NewDebts(token, Charges(fares, taps, order, n)))
  {
    if n == 0 {
    } else {
      ChargesNonNegative(fares, taps, order, n - 1, token);
      var fare := Fare(fares, taps, order[2 * n - 2], order[2 * n - 1]);
      var init := Charges(fares, taps, order, n - 1);
      if fare.Some? {
        assert (init + [fare.value])[..|init|] == init;
      } else {
        assert init + [] == init;
      }
    }
  }

  lemma {:induction false} MarkReportedNoCredit(debts: seq<Debt>)
    requires NoCredit(debts)
    ensures NoCredit(MarkReported(debts))
  {
    if debts == [] {
    } else {
      MarkReportedNoCredit(debts[..|debts| - 1]);
    }
  }

  /** How much more the authority has received than is marked reported. */
  function Surplus(s: Office, token: string): int {
    TotalReceived(s.received, token) - TotalDebt(s.debts, token, true)
  }

  /** Every row is inserted, the reply arrives and the marking succeeds. */
  predicate Delivers(s: Office, tokens: seq<string>, post: Post) {
    post.rows >= |Statement(s.debts, tokens)| && post.replied && post.marked
  }

  /** What a cycle that does not go through leaves at the authority, to be posted once more later. */
  function Resent(s: Office, tokens: seq<string>, post: Post, token: string): int {
    var statement := Statement(s.debts, tokens);
    if Delivers(s, tokens, post) then 0
    else TotalReceived(statement[..if post.rows < |statement| then post.rows else |statement|], token)
  }

  /** A cycle that goes through brings every unreported amount to the authority and leaves none unreported; any
      other marks nothing, and has brought the rows that were inserted. */
  lemma ReportOutcome(s: Office, tokens: seq<string>, post: Post, token: string)
    requires Groups(s.debts, tokens) && token != ""
    ensures var s', statement := Report(s, tokens, post), Statement(s.debts, tokens);
            var rows := if post.rows < |statement| then post.rows else |statement|;
            && s'.taps == s.taps
            && (Delivers(s, tokens, post) ==>
                  && TotalReceived(s'.received, token)
                     == TotalReceived(s.received, token) + TotalDebt(s.debts, token, false)
                  && TotalDebt(s'.debts, token, false) == 0
                  && TotalDebt(s'.debts, token, true)
                     == TotalDebt(s.debts, token, true) + TotalDebt(s.debts, token, false))
            && (!Delivers(s, tokens, post) ==>
                  && s'.debts == s.debts
                  && TotalReceived(s'.received, token)
                     == TotalReceived(s.received, token) + TotalReceived(statement[..rows], token))
  {
    var statement := Statement(s.debts, tokens);
    var rows := if post.rows < |statement| then post.rows else |statement|;
    InsertDebtsTotal(s.received, statement[..rows], token);
    StatementTotal(s.debts, tokens, token);
    MarkReportedTotal(s.debts, token);
    assert statement[..|statement|] == statement;
  }

  lemma ReportSurplus(s: Office, tokens: seq<string>, post: Post, token: string)
    requires Groups(s.debts, tokens) && token != ""
    ensures Surplus(Report(s, tokens, post), token) == Surplus(s, token) + Resent(s, tokens, post, token)
  {
    if tokens != [] {
      var statement := Statement(s.debts, tokens);
      var rows := if post.rows < |statement| then post.rows else |statement|;
      InsertDebtsTotal(s.received, statement[..rows], token);
      if rows == |statement| {
        assert statement[..rows] == statement;
        StatementTotal(s.debts, tokens, token);
        MarkReportedTotal(s.debts, token);
      }
    }
  }

  lemma StepSurplus(fares: Fares, s: Office, e: Event, token: string)
    requires Possible(s, e) && token != ""
    ensures Surplus(Step(fares, s, e), token)
         == Surplus(s, token) + if e.Reported? then Resent(s, e.tokens, e.post, token) else 0
  {
    match e
    case Tapped(_) =>
    case Built(t, order, committed) =>
      SelectedAreIn(s.taps, t, order);
      NewDebtsTotal(s.debts, t, Charges(fares, s.taps, order, |order| / 2), token);
    case Reported(tokens, post) => ReportSurplus(s, tokens, post, token);
  }

  lemma StepNoCredit(fares: Fares, s: Office, e: Event)
    requires Possible(s, e) && NonNegative(fares) && NoCredit(s.debts)
    ensures NoCredit(Step(fares, s, e).debts)
  {
    match e
    case Tapped(_) =>
    case Built(t, order, committed) =>
      SelectedAreIn(s.taps, t, order);
      ChargesNonNegative(fares, s.taps, order, |order| / 2, t);
    case Reported(tokens, post) => MarkReportedNoCredit(s.debts);
  }

  /** What the cycles of a run that did not go through left at the authority, together. */
  ghost function TotalResent(fares: Fares, s: Office, es: seq<Event>, token: string): int
    requires PossibleRun(fares, s, es)
    decreases |es|
  {
    if es == [] then 0
    else
      (if es[0].Reported? then Resent(s, es[0].tokens, es[0].post, token) else 0)
      + TotalResent(fares, Step(fares, s, es[0]), es[1..], token)
  }

  /** Over every run, received and reported differ by exactly what was resent. */
  lemma {:induction false} RunSurplus(fares: Fares, s: Office, es: seq<Event>, token: string)
    requires PossibleRun(fares, s, es) && token != ""
    ensures Surplus(Run(fares, s, es), token) == Surplus(s, token) + TotalResent(fares, s, es, token)
    decreases |es|
  {
    if es == [] {
    } else {
      StepSurplus(fares, s, es[0], token);
      RunSurplus(fares, Step(fares, s, es[0]), es[1..], token);
    }
  }

  lemma {:induction false} ResentNonNegative(fares: Fares, s: Office, es: seq<Event>, token: string)
    requires PossibleRun(fares, s, es) && NonNegative(fares) && NoCredit(s.debts)
    ensures TotalResent(fares, s, es, token) >= 0
    decreases |es|
  {
    if es == [] {
    } else {
      if es[0].Reported? {
        var n, rows := |Statement(s.debts, es[0].tokens)|, es[0].post.rows;
        StatementPrefixNonNegative(s.debts, es[0].tokens, if rows < n then rows else n, token);
      }
      StepNoCredit(fares, s, es[0]);
      ResentNonNegative(fares, Step(fares, s, es[0]), es[1..], token);
    }
  }

  /** At least once: over every run with failed or partial posts, lost replies and failed marks, what
      the authority has received for a token never falls below what is marked reported. */
  lemma AtLeastOnce(fares: Fares, s: Office, es: seq<Event>, token: string)
    requires PossibleRun(fares, s, es) && NonNegative(fares) && NoCredit(s.debts) && token != ""
    requires TotalReceived(s.received, token) >= TotalDebt(s.debts, token, true)
    ensures TotalReceived(Run(fares, s, es).received, token) >= TotalDebt(Run(fares, s, es).debts, token, true)
  {
    RunSurplus(fares, s, es, token);
    ResentNonNegative(fares, s, es, token);
  }

  /** Every reporting cycle of the run goes through. */
  ghost predicate AllDeliver(fares: Fares, s: Office, es: seq<Event>)
    requires PossibleRun(fares, s, es)
    decreases |es|
  {
    es == [] || ((es[0].Reported? ==> Delivers(s, es[0].tokens, es[0].post))
                 && AllDeliver(fares, Step(fares, s, es[0]), es[1..]))
  }

  lemma {:induction false} NothingResent(fares: Fares, s: Office, es: seq<Event>, token: string)
    requires PossibleRun(fares, s, es) && AllDeliver(fares, s, es)
    ensures TotalResent(fares, s, es, token) == 0
    decreases |es|
  {
    if es == [] {
    } else {
      NothingResent(fares, Step(fares, s, es[0]), es[1..], token);
    }
  }

  /** Exactly once: if every cycle goes through, received and reported stay equal. */
  lemma ExactlyOnce(fares: Fares, s: Office, es: seq<Event>, token: string)
    requires PossibleRun(fares, s, es) && AllDeliver(fares, s, es) && token != ""
    requires TotalReceived(s.received, token) == TotalDebt(s.debts, token, true)
    ensures TotalReceived(Run(fares, s, es).received, token) == TotalDebt(Run(fares, s, es).debts, token, true)
  {
    RunSurplus(fares, s, es, token);
    NothingResent(fares, s, es, token);
  }

  /** The marking ignores which debts were posted. Debts that a second builder wrote between the
      statement and the marking would be marked without being posted, and the surplus would fall by
      exactly their sum. The office has one loop that builds and reports in turn, so no cycle of a
      run above has debts in between. */
  lemma LateDebtsUnposted(s: Office, tokens: seq<string>, holder: string, charges: seq<int>, token: string)
    requires Groups(s.debts, tokens) && token != ""
    ensures var posted := s.(received := InsertDebts(s.received, Statement(s.debts, tokens)));
            var marked := posted.(debts := MarkReported(s.debts + NewDebts(holder, charges)));
            Surplus(marked, token) == Surplus(s, token) - if token == holder then Sum(charges) else 0
  {
    InsertDebtsTotal(s.received, Statement(s.debts, tokens), token);
    StatementTotal(s.debts, tokens, token);
    MarkReportedTotal(s.debts + NewDebts(holder, charges), token);
    NewDebtsTotal(s.debts, holder, charges, token);
  }

  // ---------------------------------------------------------------------------
  // The debt ledger
  // ---------------------------------------------------------------------------

  /** Twice the token's debts, reported or not, equals what its taps record. */
  ghost predicate DebtsBalanced(s: Office, token: string) {
    2 * (TotalDebt(s.debts, token, true) + TotalDebt(s.debts, token, false)) == Recorded(s.taps, IdsOf(s.taps, token))
  }

  lemma BuildBalances(fares: Fares, s: Office, token: string, order: seq<string>, committed: bool, t: string)
    requires Selects(s.taps, token, order) && AllIn(s.taps, order) && DebtsBalanced(s, t)
    ensures DebtsBalanced(Build(fares, s, token, order, committed), t)
  {
    if |order| >= 2 && committed {
      TurnRecords(fares, s.taps, token, order, |order| / 2, t);
      NewDebtsTotal(s.debts, token, Charges(fares, s.taps, order, |order| / 2), t);
    }
  }

  /** Over every run the debts account exactly for the recorded journeys, and reporting neither
      creates nor loses any. */
  lemma {:induction false} RunBalancesDebts(fares: Fares, s: Office, es: seq<Event>, token: string)
    requires PossibleRun(fares, s, es) && DebtsBalanced(s, token)
    ensures DebtsBalanced(Run(fares, s, es), token)
    decreases |es|
  {
    if es == [] {
    } else {
      match es[0] {
        case Tapped(r) => ArrivalRecordsNothing(s.taps, r, token);
        case Built(t, order, committed) =>
          SelectedAreIn(s.taps, t, order);
          BuildBalances(fares, s, t, order, committed, token);
        case Reported(tokens, post) => MarkReportedTotal(s.debts, token);
      }
      RunBalancesDebts(fares, Step(fares, s, es[0]), es[1..], token);
    }
  }

  // ---------------------------------------------------------------------------
  // Confluence
  // ---------------------------------------------------------------------------

  /** The amounts of the token's debts, reported or not, in order. */
  function Amounts(debts: seq<Debt>, token: string): seq<int> {
    if debts == [] then []
    else
      var last := debts[|debts| - 1];
      Amounts(debts[..|debts| - 1], token) + if last.token == token then [last.amount] else []
  }

  lemma AmountsAppend(debts: seq<Debt>, d: Debt, token: string)
    ensures Amounts(debts + [d], token) == Amounts(debts, token) + if d.token == token then [d.amount] else []
  {
    assert (debts + [d])[..|debts|] == debts;
  }

  lemma {:induction false} AmountsAdded(debts: seq<Debt>, token: string, charges: seq<int>, t: string)
    ensures Amounts(debts + NewDebts(token, charges), t) == Amounts(debts, t) + if t == token then charges else []
  {
    if charges == [] {
      assert debts + [] == debts && Amounts(debts, t) + [] == Amounts(debts, t);
    } else {
      var init, last := charges[..|charges| - 1], charges[|charges| - 1];
      AmountsAdded(debts, token, init, t);
      Append(debts, NewDebts(token, init), [Debt(token, last, false)]);
      AmountsAppend(debts + NewDebts(token, init), Debt(token, last, false), t);
      if t == token {
        assert charges == init + [last];
        Append(Amounts(debts, t), init, [last]);
      } else {
        assert Amounts(debts, t) + [] + [] == Amounts(debts, t) + [];
      }
    }
  }

  lemma {:induction false} AmountsKept(debts: seq<Debt>, token: string)
    ensures Amounts(MarkReported(debts), token) == Amounts(debts, token)
  {
    if debts == [] {
    } else {
      AmountsKept(debts[..|debts| - 1], token);
    }
  }

  function Arrivals(es: seq<Event>): seq<Received> {
    if es == [] then [] else (if es[0].Tapped? then [es[0].r] else []) + Arrivals(es[1..])
  }

  /** The token's rows are its arrivals with the first m pairs processed, and since the lo-th pair its
      debts have grown from `start` by one for every priced pair. */
  ghost predicate Tracks(fares: Fares, start: seq<int>, s: Office, token: string, arrivals: seq<Received>,
                         lo: nat, m: nat)
  {
    && lo <= m && RowsTrack(fares, s.taps, token, arrivals, m)
    && Amounts(s.debts, token) == start + FareList(fares, arrivals, lo, m)
  }

  lemma OwnBuildTracks(fares: Fares, start: seq<int>, s: Office, token: string, arrivals: seq<Received>,
                       lo: nat, m: nat, order: seq<string>)
    requires Tracks(fares, start, s, token, arrivals, lo, m)
    requires Selects(s.taps, token, order) && AllIn(s.taps, order)
    ensures Tracks(fares, start, Build(fares, s, token, order, true), token, arrivals, lo, |arrivals| / 2)
  {
    var charges := Charges(fares, s.taps, order, |order| / 2);
    TurnTracks(fares, s.taps, token, arrivals, lo, m, order);
    AmountsAdded(s.debts, token, charges, token);
    Append(start, FareList(fares, arrivals, lo, m), charges);
    if |order| < 2 {
      assert charges == [] && s.debts + [] == s.debts;
    }
  }

  lemma BuildTracks(fares: Fares, start: seq<int>, s: Office, e: Event, token: string, arrivals: seq<Received>,
                    lo: nat, m: nat) returns (m': nat)
    requires e.Built? && Possible(s, e) && Tracks(fares, start, s, token, arrivals, lo, m)
    ensures Tracks(fares, start, Step(fares, s, e), token, arrivals, lo, m')
  {
    m' := m;
    SelectedAreIn(s.taps, e.token, e.order);
    if |e.order| >= 2 && e.committed {
      if e.token == token {
        m' := |arrivals| / 2;
        OwnBuildTracks(fares, start, s, token, arrivals, lo, m, e.order);
      } else {
        OtherConstructTracks(fares, s.taps, token, arrivals, m, e.token, e.order, |e.order| / 2);
        AmountsAdded(s.debts, e.token, Charges(fares, s.taps, e.order, |e.order| / 2), token);
        assert Amounts(s.debts, token) + [] == Amounts(s.debts, token);
      }
    }
  }

  /** After any run the token's rows are its arrivals in order with some number of leading pairs
      processed, and its debts are those of the processed pairs. */
  lemma {:induction false} RunTracks(fares: Fares, start: seq<int>, s: Office, es: seq<Event>, token: string,
                                     arrivals: seq<Received>, lo: nat, m: nat) returns (m': nat)
    requires PossibleRun(fares, s, es) && Tracks(fares, start, s, token, arrivals, lo, m)
    requires Chronological(arrivals + Kept(s.taps.Keys, Arrivals(es), token))
    ensures Tracks(fares, start, Run(fares, s, es), token, arrivals + Kept(s.taps.Keys, Arrivals(es), token), lo, m')
    decreases |es|, 1
  {
    if es == [] {
      m' := m;
      assert arrivals + [] == arrivals;
    } else if es[0].Tapped? {
      m' := RunTracksTap(fares, start, s, es, token, arrivals, lo, m);
    } else {
      assert Arrivals(es) == Arrivals(es[1..]);
      if es[0].Built? {
        m' := BuildTracks(fares, start, s, es[0], token, arrivals, lo, m);
        SelectedAreIn(s.taps, es[0].token, es[0].order);
      } else {
        m' := m;
        AmountsKept(s.debts, token);
      }
      m' := RunTracks(fares, start, Step(fares, s, es[0]), es[1..], token, arrivals, lo, m');
    }
  }

  lemma {:induction false} RunTracksTap(fares: Fares, start: seq<int>, s: Office, es: seq<Event>, token: string,
                                        arrivals: seq<Received>, lo: nat, m: nat) returns (m': nat)
    requires es != [] && es[0].Tapped?
    requires PossibleRun(fares, s, es) && Tracks(fares, start, s, token, arrivals, lo, m)
    requires Chronological(arrivals + Kept(s.taps.Keys, Arrivals(es), token))
    ensures Tracks(fares, start, Run(fares, s, es), token, arrivals + Kept(s.taps.Keys, Arrivals(es), token), lo, m')
    decreases |es|, 0
  {
    var r, all := es[0].r, Arrivals(es);
    assert all[0] == r && all[1..] == Arrivals(es[1..]);
    var first, rest := Adds(s.taps.Keys, r, token), Kept(Sees(s.taps.Keys, r), all[1..], token);
    Append(arrivals, first, rest);
    ChronologicalPrefix(arrivals + first, rest);
    ArrivalTracks(fares, s.taps, token, arrivals, m, r);
    FareListPrefix(fares, arrivals, first, lo, m);
    m' := RunTracks(fares, start, Step(fares, s, es[0]), es[1..], token, arrivals + first, lo, m);
  }

  /** Confluence: for taps that arrive in strictly increasing time, constructing at any moments, for any
      tokens, with any rollbacks and any reporting in between, and once more at the end gives the token
      the same debts in the same order and the same rows as inserting all the taps and constructing once. */
  lemma Confluence(fares: Fares, s: Office, es: seq<Event>, token: string, before: seq<Received>, m: nat,
                   order: seq<string>, orderOnce: seq<string>)
    requires RowsTrack(fares, s.taps, token, before, m)
    requires PossibleRun(fares, s, es)
    requires Chronological(before + Kept(s.taps.Keys, Arrivals(es), token))
    requires Selects(Run(fares, s, es).taps, token, order)
    requires Selects(Insert(s.taps, Arrivals(es)), token, orderOnce)
    ensures var many := Step(fares, Run(fares, s, es), Built(token, order, true));
            var once := Step(fares, s.(taps := Insert(s.taps, Arrivals(es))), Built(token, orderOnce, true));
            Amounts(many.debts, token) == Amounts(once.debts, token) && SameRows(many.taps, once.taps, token)
  {
    var start, all := Amounts(s.debts, token), before + Kept(s.taps.Keys, Arrivals(es), token);
    var many, once := Run(fares, s, es), s.(taps := Insert(s.taps, Arrivals(es)));
    assert start + [] == start;
    var m' := RunTracks(fares, start, s, es, token, before, m, m);
    InsertTracks(fares, s.taps, token, before, m, Arrivals(es));
    assert Tracks(fares, start, once, token, all, m, m);
    SelectedAreIn(many.taps, token, order);
    SelectedAreIn(once.taps, token, orderOnce);
    OwnBuildTracks(fares, start, many, token, all, m, m', order);
    OwnBuildTracks(fares, start, once, token, all, m, m, orderOnce);
    TrackedSame(fares, Build(fares, many, token, order, true).taps, Build(fares, once, token, orderOnce, true).taps,
                token, all, |all| / 2);
  }
}
