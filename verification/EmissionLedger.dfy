/** Conservation: where every issued unit went, over whole runs. */
module EmissionLedger {
  import opened Schedule
  import opened Emission
  import opened EmissionRuns

  // ---------------------------------------------------------------- totals of a map

  ghost function SumMap(m: map<Account, nat>): nat {
    if m == map[] then 0
    else
      var a :| a in m;
      m[a] + SumMap(m - {a})
  }

  lemma {:induction false} SumMapRemove(m: map<Account, nat>, a: Account)
    requires a in m
    ensures SumMap(m) == m[a] + SumMap(m - {a})
    decreases |m|
  {
    var b :| b in m && SumMap(m) == m[b] + SumMap(m - {b});
    if a != b {
      SumMapRemove(m - {b}, a);
      SumMapRemove(m - {a}, b);
      assert m - {b} - {a} == m - {a} - {b};
    }
  }

  lemma SumMapUpdate(m: map<Account, nat>, a: Account, v: nat)
    ensures SumMap(m[a := v]) == SumMap(m) - (if a in m then m[a] else 0) + v
  {
    SumMapRemove(m[a := v], a);
    assert m[a := v] - {a} == m - {a};
    if a in m {
      SumMapRemove(m, a);
    } else {
      assert m - {a} == m;
    }
  }

  lemma SumMapMove(m: map<Account, nat>, source: Account, who: Account, amount: nat)
    requires source in m && m[source] >= amount
    ensures SumMap(Move(m, source, who, amount)) == SumMap(m)
  {
    var debited := m[source := m[source] - amount];
    SumMapUpdate(m, source, m[source] - amount);
    SumMapCredit(debited, who, amount);
    assert Move(m, source, who, amount) == debited[who := At(debited, who) + amount];
  }

  lemma SumMapCredit(m: map<Account, nat>, who: Account, amount: nat)
    ensures SumMap(m[who := At(m, who) + amount]) == SumMap(m) + amount
  {
    SumMapUpdate(m, who, At(m, who) + amount);
  }

  // ---------------------------------------------------------------- accounting of one state

  /** What one event takes from an account ... */
  function Debit(e: Event, a: Account): nat {
    if (e.RewardPaid? && Pot(e.subnet) == a) || (e.Transferred? && e.source == a) then e.amount else 0
  }

  /** ... and brings it, scheduled funding aside. */
  function Credit(e: Event, a: Account): nat {
    if (e.RewardPaid? || e.FaucetMinted? || e.Transferred?) && e.who == a then e.amount else 0
  }

  function DebitsFrom(events: seq<Event>, a: Account): nat {
    if events == [] then 0 else DebitsFrom(events[..|events| - 1], a) + Debit(events[|events| - 1], a)
  }

  function CreditsTo(events: seq<Event>, a: Account): nat {
    if events == [] then 0 else CreditsTo(events[..|events| - 1], a) + Credit(events[|events| - 1], a)
  }

  lemma AppendEvent(events: seq<Event>, e: Event, a: Account)
    ensures DebitsFrom(events + [e], a) == DebitsFrom(events, a) + Debit(e, a)
    ensures CreditsTo(events + [e], a) == CreditsTo(events, a) + Credit(e, a)
  {
    assert (events + [e])[..|events|] == events;
  }

  /** Scheduled funding so far: the counter of a pot's subnet. */
  function Scheduled(c: Chain, a: Account): nat {
    if a.Pot? then c.Issued(a.subnet) else 0
  }

  /** Issuance not explained by the two budgets: what existed at genesis. */
  function Genesis(c: Chain): int {
    c.issuance - c.scheduledIssued - c.faucetIssued
  }

  /** An account's balance less everything that explains it. */
  function Drift(c: Chain, a: Account): int {
    c.Free(a) + DebitsFrom(c.events, a) - Scheduled(c, a) - CreditsTo(c.events, a)
  }

  ghost predicate Backed(c: Chain) {
    c.issuance == SumMap(c.balances)
  }

  // ---------------------------------------------------------------- issuance and budget

  /** Issuance moves only together with one of the two counters, and the faucet
      counter stays within a fixed budget. */
  ghost predicate KeepsBudgets(c: Chain, c': Chain) {
    && Genesis(c') == Genesis(c) && c'.faucetBudget == c.faucetBudget
    && (c.faucetIssued <= c.faucetBudget ==> c'.faucetIssued <= c.faucetBudget)
  }

  lemma {:induction false} RoutesKeepBudgets(c: Chain, total: nat, routes: seq<Route>, deposits: seq<bool>, k: nat)
    requires k <= |routes|
    ensures KeepsBudgets(c, AccrueRoutes(c, total, routes, deposits, k))
  {
    if k > 0 {
      RoutesKeepBudgets(c, total, routes, deposits, k - 1);
    }
  }

  lemma StepKeepsBudgets(c: Chain, call: Call)
    ensures KeepsBudgets(c, Step(c, call))
  {
    if call.OnAccrue? && c.startAt.Some? {
      var entitled := Entitlement(call.annual, Elapsed(call.now, c.startAt.value));
      if entitled.Some? {
        RoutesKeepBudgets(c, entitled.value, c.routes, call.deposits, |c.routes|);
      }
    }
  }

  // ---------------------------------------------------------------- backing

  lemma SettleBacked(c: Chain, subnet: nat, target: nat, accepts: bool)
    requires Backed(c)
    ensures Backed(Settle(c, subnet, target, accepts))
  {
    if target > c.Issued(subnet) {
      SumMapCredit(c.balances, Pot(subnet), target - c.Issued(subnet));
    }
  }

  lemma {:induction false} RoutesBacked(c: Chain, total: nat, routes: seq<Route>, deposits: seq<bool>, k: nat)
    requires k <= |routes| && Backed(c)
    ensures Backed(AccrueRoutes(c, total, routes, deposits, k))
  {
    if k > 0 {
      RoutesBacked(c, total, routes, deposits, k - 1);
      var before, route := AccrueRoutes(c, total, routes, deposits, k - 1), routes[k - 1];
      SettleBacked(before, route.subnet, MulFloor(route.share, total), Takes(deposits, k - 1));
    }
  }

  lemma StepBacked(c: Chain, call: Call)
    requires Backed(c)
    ensures Backed(Step(c, call))
  {
    match call
    case OnAccrue(annual, now, deposits) =>
      if c.startAt.Some? {
        var entitled := Entitlement(annual, Elapsed(now, c.startAt.value));
        if entitled.Some? {
          RoutesBacked(c, entitled.value, c.routes, deposits, |c.routes|);
        }
      }
    case OnFaucet(who, amount, accepts) => SumMapCredit(c.balances, who, amount);
    case OnPay(minimum, subnet, who, requested, accepts) =>
      var (c', amount) := Pay(c, minimum, subnet, who, requested, accepts);
      if amount > 0 {
        SumMapMove(c.balances, Pot(subnet), who, amount);
      }
    case OnTransfer(id, who, amount) =>
      if c.Free(Holder(id)) >= amount && Holder(id) in c.balances {
        SumMapMove(c.balances, Holder(id), who, amount);
      }
    case OnUpgrade(annual, clock) =>
  }

  // ---------------------------------------------------------------- every account

  /** One event at most, and the account changes by what the event and the
      counter say. */
  ghost predicate Explained(c: Chain, c': Chain, a: Account) {
    || (c'.events == c.events && c'.Free(a) - Scheduled(c', a) == c.Free(a) - Scheduled(c, a))
    || (exists e :: c'.events == c.events + [e] && EventExplains(c, c', e, a))
  }

  ghost predicate EventExplains(c: Chain, c': Chain, e: Event, a: Account) {
    (c'.Free(a) - Scheduled(c', a)) - (c.Free(a) - Scheduled(c, a)) == Credit(e, a) - Debit(e, a)
  }

  lemma ExplainedKeepsDrift(c: Chain, c': Chain, a: Account)
    requires Explained(c, c', a)
    ensures Drift(c', a) == Drift(c, a)
  {
    if c'.events != c.events {
      var e :| c'.events == c.events + [e] && EventExplains(c, c', e, a);
      AppendEvent(c.events, e, a);
    }
  }

  lemma SettleExplained(c: Chain, subnet: nat, target: nat, accepts: bool, a: Account)
    ensures Explained(c, Settle(c, subnet, target, accepts), a)
  {
    var c' := Settle(c, subnet, target, accepts);
    if target > c.Issued(subnet) {
      var e := c'.events[|c.events|];
      assert c'.events == c.events + [e] && EventExplains(c, c', e, a);
    }
  }

  lemma {:induction false} RoutesKeepDrift(c: Chain, total: nat, routes: seq<Route>, deposits: seq<bool>, k: nat,
                                           a: Account)
    requires k <= |routes|
    ensures Drift(AccrueRoutes(c, total, routes, deposits, k), a) == Drift(c, a)
  {
    if k > 0 {
      RoutesKeepDrift(c, total, routes, deposits, k - 1, a);
      var before, route := AccrueRoutes(c, total, routes, deposits, k - 1), routes[k - 1];
      SettleExplained(before, route.subnet, MulFloor(route.share, total), Takes(deposits, k - 1), a);
      ExplainedKeepsDrift(before, AccrueRoutes(c, total, routes, deposits, k), a);
    }
  }

  lemma FaucetExplained(c: Chain, who: Account, amount: nat, accepts: bool, a: Account)
    requires MintFaucet(c, who, amount, accepts).Ok?
    ensures Explained(c, MintFaucet(c, who, amount, accepts).value, a)
  {
    assert EventExplains(c, MintFaucet(c, who, amount, accepts).value, FaucetMinted(who, amount), a);
  }

  lemma PayExplained(c: Chain, minimum: nat, subnet: nat, who: Account, requested: nat, accepts: bool, a: Account)
    ensures Explained(c, Pay(c, minimum, subnet, who, requested, accepts).0, a)
  {
    var c' := Pay(c, minimum, subnet, who, requested, accepts).0;
    var e := c'.events[|c.events|];
    assert c'.events == c.events + [e] && EventExplains(c, c', e, a);
  }

  lemma TransferExplained(c: Chain, id: nat, who: Account, amount: nat, a: Account)
    ensures Explained(c, Transfer(c, id, who, amount), a)
  {
    if c.Free(Holder(id)) >= amount && Holder(id) in c.balances {
      assert EventExplains(c, Transfer(c, id, who, amount), Transferred(Holder(id), who, amount), a);
    }
  }

  /** Every step but an accrual writes at most one event. */
  lemma SingleStepExplained(c: Chain, call: Call, a: Account)
    requires !call.OnAccrue?
    ensures Explained(c, Step(c, call), a)
  {
    match call
    case OnFaucet(who, amount, accepts) =>
      if MintFaucet(c, who, amount, accepts).Ok? {
        FaucetExplained(c, who, amount, accepts, a);
      }
    case OnPay(minimum, subnet, who, requested, accepts) =>
      PayExplained(c, minimum, subnet, who, requested, accepts, a);
    case OnTransfer(id, who, amount) => TransferExplained(c, id, who, amount, a);
    case OnUpgrade(annual, clock) =>
  }

  lemma StepKeepsDrift(c: Chain, call: Call, a: Account)
    ensures Drift(Step(c, call), a) == Drift(c, a)
  {
    if !call.OnAccrue? {
      SingleStepExplained(c, call, a);
      ExplainedKeepsDrift(c, Step(c, call), a);
    } else if c.startAt.Some? {
      var entitled := Entitlement(call.annual, Elapsed(call.now, c.startAt.value));
      if entitled.Some? {
        RoutesKeepDrift(c, entitled.value, c.routes, call.deposits, |c.routes|, a);
      }
    }
  }

  // ---------------------------------------------------------------- runs

  /** Conservation over every run, with any rates, clocks, failures and
      upgrades: total issuance is the genesis amount plus the two issued
      counters and is backed by balances; every account's balance plus what left
      it is what it started with plus what came in, and plus the subnet's counter
      for a pot; the faucet stays within its budget. */
  lemma {:induction false} RunConserves(c: Chain, calls: seq<Call>, a: Account)
    requires Backed(c) && c.faucetIssued <= c.faucetBudget
    ensures var c' := Run(c, calls);
            && c'.issuance - c'.scheduledIssued - c'.faucetIssued == c.issuance - c.scheduledIssued - c.faucetIssued
            && Drift(c', a) == Drift(c, a)
            && c'.issuance == SumMap(c'.balances)
            && c'.faucetIssued <= c'.faucetBudget == c.faucetBudget
  {
    if calls != [] {
      RunConserves(c, calls[..|calls| - 1], a);
      var mid, call := Run(c, calls[..|calls| - 1]), calls[|calls| - 1];
      StepKeepsBudgets(mid, call);
      StepBacked(mid, call);
      StepKeepsDrift(mid, call, a);
    }
  }

  /** A chain as the genesis build leaves it, its issuance held by somebody. */
  ghost predicate IsGenesis(c: Chain) {
    && DistinctSubnets(c.routes) && c.subnetIssued == map[] && c.scheduledIssued == 0 && c.faucetIssued == 0
    && c.events == [] && c.issuance == SumMap(c.balances)
  }

  /** What every chain reached from genesis satisfies. */
  lemma ReachableFromGenesis(c: Chain, calls: seq<Call>)
    requires IsGenesis(c)
    ensures var c' := Run(c, calls);
            && c'.issuance == c.issuance + c'.scheduledIssued + c'.faucetIssued == SumMap(c'.balances)
            && CountersAdd(c') && c'.faucetIssued <= c.faucetBudget
  {
    EmptyCountersAdd(c);
    RunCountersAdd(c, calls);
    RunConserves(c, calls, Pot(0));
  }

  /** From genesis: a pot holds its counter and its credits less its payouts. */
  lemma PotBalanceFromGenesis(c: Chain, calls: seq<Call>, s: nat)
    requires Backed(c) && c.faucetIssued <= c.faucetBudget && c.events == [] && c.Free(Pot(s)) == 0 && c.Issued(s) == 0
    ensures var c' := Run(c, calls);
            c'.Free(Pot(s)) + DebitsFrom(c'.events, Pot(s)) == c'.Issued(s) + CreditsTo(c'.events, Pot(s))
  {
    RunConserves(c, calls, Pot(s));
  }

  /** An ordinary account has what it started with and what it received, less
      what it sent: nothing is scheduled to it. */
  lemma HolderBalance(c: Chain, calls: seq<Call>, id: nat)
    requires Backed(c) && c.faucetIssued <= c.faucetBudget && c.events == []
    ensures var c' := Run(c, calls);
            c'.Free(Holder(id))
            == c.Free(Holder(id)) + CreditsTo(c'.events, Holder(id)) - DebitsFrom(c'.events, Holder(id))
  {
    RunConserves(c, calls, Holder(id));
  }

  /** A payout debits only its own pot, leaves the minimum balance in it, mints
      nothing, and pays all that is available up to the request. */
  lemma PayoutIsConfined(c: Chain, minimum: nat, subnet: nat, who: Account, requested: nat, accepts: bool, other: nat)
    ensures var (c', amount) := Pay(c, minimum, subnet, who, requested, accepts);
            && c'.issuance == c.issuance && amount <= requested
            && c'.Free(Pot(subnet)) == c.Free(Pot(subnet)) - amount
            && (amount > 0 ==> c'.Free(Pot(subnet)) >= minimum && c'.Free(who) == c.Free(who) + amount)
            && (other != subnet ==> c'.Free(Pot(other)) >= c.Free(Pot(other)))
            && (accepts && who != Pot(subnet) ==> amount == requested || c'.Free(Pot(subnet)) <= minimum)
  {
  }

  /** No other step debits any pot. */
  lemma OnlyPayoutsDebitPots(c: Chain, call: Call, s: nat)
    requires !(call.OnPay? && call.subnet == s)
    ensures Step(c, call).Free(Pot(s)) >= c.Free(Pot(s))
  {
    if call.OnAccrue? && c.startAt.Some? {
      var entitled := Entitlement(call.annual, Elapsed(call.now, c.startAt.value));
      if entitled.Some? {
        RoutesCreditPots(c, entitled.value, c.routes, call.deposits, |c.routes|, s);
      }
    }
  }

  lemma {:induction false} RoutesCreditPots(c: Chain, total: nat, routes: seq<Route>, deposits: seq<bool>, k: nat,
                                            s: nat)
    requires k <= |routes|
    ensures AccrueRoutes(c, total, routes, deposits, k).Free(Pot(s)) >= c.Free(Pot(s))
  {
    if k > 0 {
      RoutesCreditPots(c, total, routes, deposits, k - 1, s);
    }
  }
}
