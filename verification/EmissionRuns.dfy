/** What holds over whole runs of the emission controller. */
module EmissionRuns {
  import opened Common
  import opened Schedule
  import opened Emission

  datatype Call =
    | OnAccrue(annual: nat, now: nat, deposits: seq<bool>)
    | OnFaucet(who: Account, amount: nat, accepts: bool)
    | OnPay(minimum: nat, subnet: nat, who: Account, requested: nat, accepts: bool)
    | OnTransfer(id: nat, who: Account, amount: nat)
    | OnUpgrade(annual: nat, clock: nat)

  function Step(c: Chain, call: Call): Chain {
    match call
    case OnAccrue(annual, now, deposits) => Accrue(c, annual, now, deposits)
    case OnFaucet(who, amount, accepts) =>
      var r := MintFaucet(c, who, amount, accepts);
      if r.Ok? then r.value else c
    case OnPay(minimum, subnet, who, requested, accepts) => Pay(c, minimum, subnet, who, requested, accepts).0
    case OnTransfer(id, who, amount) => Transfer(c, id, who, amount)
    case OnUpgrade(annual, clock) => Upgrade(c, annual, clock)
  }

  function Run(c: Chain, calls: seq<Call>): Chain {
    if calls == [] then c else Step(Run(c, calls[..|calls| - 1]), calls[|calls| - 1])
  }

  // ---------------------------------------------------------------- one accrual

  /** Fields an accrual leaves alone. */
  ghost predicate SameSchedule(c: Chain, c': Chain) {
    && c'.enabled == c.enabled && c'.startAt == c.startAt && c'.routes == c.routes
    && c'.faucetBudget == c.faucetBudget && c'.faucetIssued == c.faucetIssued && c'.version == c.version
  }

  lemma {:induction false} RoutesFrame(c: Chain, total: nat, routes: seq<Route>, deposits: seq<bool>, k: nat)
    requires k <= |routes|
    ensures SameSchedule(c, AccrueRoutes(c, total, routes, deposits, k))
    ensures c.events <= AccrueRoutes(c, total, routes, deposits, k).events
  {
    if k > 0 {
      RoutesFrame(c, total, routes, deposits, k - 1);
    }
  }

  /** Subnets not visited keep their counter. */
  lemma {:induction false} RoutesElsewhere(c: Chain, total: nat, routes: seq<Route>, deposits: seq<bool>, i: nat,
                                           k: nat, s: nat)
    requires i <= k <= |routes| && forall j :: i <= j < k ==> routes[j].subnet != s
    ensures AccrueRoutes(c, total, routes, deposits, k).Issued(s)
            == AccrueRoutes(c, total, routes, deposits, i).Issued(s)
    decreases k
  {
    if i < k {
      RoutesElsewhere(c, total, routes, deposits, i, k - 1, s);
    }
  }

  /** A visited subnet either keeps its counter, although it was short, with a
      visible failure, or ends at the larger of its counter and its target. */
  lemma RoutesAt(c: Chain, total: nat, routes: seq<Route>, deposits: seq<bool>, i: nat, k: nat)
    requires i < k <= |routes| && DistinctSubnets(routes)
    ensures var c' := AccrueRoutes(c, total, routes, deposits, k);
            var s, target := routes[i].subnet, MulFloor(routes[i].share, total);
            || c'.Issued(s) == Max(c.Issued(s), target)
            || (&& c.Issued(s) == c'.Issued(s) < target
                && exists n :: |c.events| <= n < |c'.events| && FailedFor(c'.events[n], s))
  {
    var s := routes[i].subnet;
    RoutesElsewhere(c, total, routes, deposits, 0, i, s);
    RoutesElsewhere(c, total, routes, deposits, i + 1, k, s);
    RoutesFrame(c, total, routes, deposits, i);
    var before, after, c' := AccrueRoutes(c, total, routes, deposits, i),
                             AccrueRoutes(c, total, routes, deposits, i + 1),
                             AccrueRoutes(c, total, routes, deposits, k);
    var target := MulFloor(routes[i].share, total);
    SettleAt(before, s, target, Takes(deposits, i));
    if after.Issued(s) != Max(c.Issued(s), target) {
      EventsGrow(c, total, routes, deposits, i + 1, k);
      assert c'.events[|before.events|] == after.events[|before.events|];
    }
  }

  lemma SettleAt(c: Chain, s: nat, target: nat, accepts: bool)
    ensures var c' := Settle(c, s, target, accepts);
            || c'.Issued(s) == Max(c.Issued(s), target)
            || (&& c.Issued(s) == c'.Issued(s) < target
                && |c'.events| == |c.events| + 1 && FailedFor(c'.events[|c.events|], s))
  {
  }

  ghost predicate FailedFor(e: Event, s: nat) {
    e.FundingFailed? && e.subnet == s
  }

  lemma {:induction false} EventsGrow(c: Chain, total: nat, routes: seq<Route>, deposits: seq<bool>, i: nat, k: nat)
    requires i <= k <= |routes|
    ensures AccrueRoutes(c, total, routes, deposits, i).events <= AccrueRoutes(c, total, routes, deposits, k).events
    decreases k
  {
    if i < k {
      EventsGrow(c, total, routes, deposits, i, k - 1);
    }
  }

  // ---------------------------------------------------------------- bounds over runs

  /** What route i is entitled to at a given clock. */
  function Target(c: Chain, annual: nat, i: nat, now: nat): nat
    requires c.startAt.Some? && i < |c.routes|
  {
    MulFloor(c.routes[i].share, Curve(annual, Elapsed(now, c.startAt.value)))
  }

  lemma TargetMono(c: Chain, annual: nat, i: nat, now: nat, later: nat)
    requires c.startAt.Some? && i < |c.routes| && now <= later
    ensures Target(c, annual, i, now) <= Target(c, annual, i, later)
  {
    CurveMono(annual, Elapsed(now, c.startAt.value), Elapsed(later, c.startAt.value));
    MulFloorMono(c.routes[i].share, Curve(annual, Elapsed(now, c.startAt.value)),
                 Curve(annual, Elapsed(later, c.startAt.value)));
  }

  /** Any calls but upgrades, all at one annual rate. */
  ghost predicate Steady(calls: seq<Call>, annual: nat) {
    forall i :: 0 <= i < |calls| ==> !calls[i].OnUpgrade? && (calls[i].OnAccrue? ==> calls[i].annual == annual)
  }

  /** Largest clock any accrual saw. */
  function MaxClock(calls: seq<Call>): nat {
    if calls == [] then 0
    else
      var k := |calls| - 1;
      Max(MaxClock(calls[..k]), if calls[k].OnAccrue? then calls[k].now else 0)
  }

  ghost predicate Anchored(c: Chain) {
    c.startAt.Some? && DistinctSubnets(c.routes)
  }

  /** One steady step of an anchored chain. */
  lemma SteadyStep(c: Chain, call: Call, annual: nat, i: nat)
    requires Anchored(c) && i < |c.routes| && Steady([call], annual)
    ensures var c' := Step(c, call);
            && c'.startAt == c.startAt && c'.routes == c.routes && c'.enabled == c.enabled
            && c.Issued(c.routes[i].subnet) <= c'.Issued(c.routes[i].subnet)
               <= Max(c.Issued(c.routes[i].subnet), Target(c, annual, i, if call.OnAccrue? then call.now else 0))
  {
    assert [call][0] == call;
    if call.OnAccrue? {
      var elapsed := Elapsed(call.now, c.startAt.value);
      EntitlementIsCurve(annual, elapsed);
      if c.enabled && call.now != 0 && Entitlement(annual, elapsed).Some? {
        var total := Entitlement(annual, elapsed).value;
        RoutesFrame(c, total, c.routes, call.deposits, |c.routes|);
        RoutesAt(c, total, c.routes, call.deposits, i, |c.routes|);
      }
    }
  }

  /** One steady step of a chain without an anchor: the first non-zero clock
      anchors it, and nothing is minted. */
  lemma UnanchoredStep(c: Chain, call: Call, annual: nat)
    requires c.startAt.None? && Steady([call], annual)
    ensures var c' := Step(c, call);
            && c'.routes == c.routes && c'.enabled == c.enabled && c'.subnetIssued == c.subnetIssued
            && c'.startAt == if c.enabled && call.OnAccrue? && call.now != 0 then Some(call.now) else None
  {
    assert [call][0] == call;
  }

  /** For every chain, anchored or not, every clock sequence, with regressions,
      and every pattern of failed deposits: a subnet's counter never decreases,
      stays put while there is no anchor, and with one never passes its share of
      the entitlement at the largest clock seen (or where it started). */
  lemma {:induction false} IssuedWithinEntitlement(c: Chain, calls: seq<Call>, annual: nat, i: nat)
    requires DistinctSubnets(c.routes) && i < |c.routes| && Steady(calls, annual)
    ensures var c' := Run(c, calls);
            var before, after := c.Issued(c.routes[i].subnet), c'.Issued(c.routes[i].subnet);
            && c'.routes == c.routes && c'.enabled == c.enabled && before <= after
            && (c.startAt.Some? ==> c'.startAt == c.startAt)
            && (c'.startAt.None? ==> after == before)
            && (c'.startAt.Some? ==> after <= Max(before, Target(c', annual, i, MaxClock(calls))))
  {
    if calls != [] {
      var k := |calls| - 1;
      IssuedWithinEntitlement(c, calls[..k], annual, i);
      var mid := Run(c, calls[..k]);
      assert Steady([calls[k]], annual);
      if mid.startAt.None? {
        UnanchoredStep(mid, calls[k], annual);
      } else {
        SteadyStep(mid, calls[k], annual, i);
        TargetMono(mid, annual, i, MaxClock(calls[..k]), MaxClock(calls));
        TargetMono(mid, annual, i, if calls[k].OnAccrue? then calls[k].now else 0, MaxClock(calls));
      }
    }
  }

  /** The first non-zero clock any accrual saw. */
  function FirstClock(calls: seq<Call>): Option<nat> {
    if calls == [] then None
    else
      var k := |calls| - 1;
      var before := FirstClock(calls[..k]);
      if before.Some? then before
      else if calls[k].OnAccrue? && calls[k].now != 0 then Some(calls[k].now)
      else None
  }

  /** A chain without an anchor takes the first non-zero clock it sees and keeps
      it, whatever follows; while disabled it takes none. Entitlement therefore
      counts from that clock. */
  lemma {:induction false} AnchorIsFirstClock(c: Chain, calls: seq<Call>, annual: nat)
    requires c.startAt.None? && DistinctSubnets(c.routes) && Steady(calls, annual)
    ensures Run(c, calls).startAt == if c.enabled then FirstClock(calls) else None
    ensures Run(c, calls).enabled == c.enabled && Run(c, calls).routes == c.routes
  {
    if calls != [] {
      var k := |calls| - 1;
      AnchorIsFirstClock(c, calls[..k], annual);
      var mid := Run(c, calls[..k]);
      assert Steady([calls[k]], annual);
      if mid.startAt.None? {
        UnanchoredStep(mid, calls[k], annual);
      } else {
        AnchorStays(mid, calls[k], annual);
      }
    }
  }

  lemma AnchorStays(c: Chain, call: Call, annual: nat)
    requires c.startAt.Some? && Steady([call], annual)
    ensures var c' := Step(c, call);
            c'.startAt == c.startAt && c'.enabled == c.enabled && c'.routes == c.routes
  {
    assert [call][0] == call;
    if call.OnAccrue? {
      var entitled := Entitlement(annual, Elapsed(call.now, c.startAt.value));
      if entitled.Some? {
        RoutesFrame(c, entitled.value, c.routes, call.deposits, |c.routes|);
      }
    }
  }

  /** No deposit failure was recorded between two states. */
  ghost predicate NoFailures(c: Chain, c': Chain) {
    forall n :: |c.events| <= n < |c'.events| ==> !c'.events[n].FundingFailed?
  }

  /** The accrual computed an entitlement and funded every route. */
  ghost predicate FullAccrual(c: Chain, annual: nat, now: nat, deposits: seq<bool>) {
    && c.enabled && now != 0 && c.startAt.Some? && Entitlement(annual, Elapsed(now, c.startAt.value)).Some?
    && NoFailures(c, Accrue(c, annual, now, deposits))
  }

  lemma FullAccrualReaches(c: Chain, annual: nat, now: nat, deposits: seq<bool>, i: nat)
    requires Anchored(c) && i < |c.routes| && FullAccrual(c, annual, now, deposits)
    ensures Accrue(c, annual, now, deposits).Issued(c.routes[i].subnet)
            == Max(c.Issued(c.routes[i].subnet), Target(c, annual, i, now))
  {
    var elapsed := Elapsed(now, c.startAt.value);
    EntitlementIsCurve(annual, elapsed);
    RoutesAt(c, Entitlement(annual, elapsed).value, c.routes, deposits, i, |c.routes|);
  }

  /** After any history, from any chain, a full accrual at the largest clock
      leaves every counter at its share of the curve (or where it started). */
  lemma FullAccrualAfterRun(c: Chain, calls: seq<Call>, annual: nat, now: nat, deposits: seq<bool>, i: nat)
    requires DistinctSubnets(c.routes) && i < |c.routes| && Steady(calls, annual) && MaxClock(calls) <= now
    requires FullAccrual(Run(c, calls), annual, now, deposits)
    ensures Run(c, calls).routes == c.routes
    ensures Accrue(Run(c, calls), annual, now, deposits).Issued(c.routes[i].subnet)
            == Max(c.Issued(c.routes[i].subnet), Target(Run(c, calls), annual, i, now))
  {
    IssuedWithinEntitlement(c, calls, annual, i);
    TargetMono(Run(c, calls), annual, i, MaxClock(calls), now);
    FullAccrualReaches(Run(c, calls), annual, now, deposits, i);
  }

  /** Skipped, failed and repeated calls leave no trace: two histories with the
      same anchor end, after a full accrual at the same latest clock, with the
      same counters. */
  lemma HistoriesAgree(c: Chain, calls: seq<Call>, calls': seq<Call>, annual: nat, now: nat,
                       deposits: seq<bool>, deposits': seq<bool>, i: nat)
    requires DistinctSubnets(c.routes) && i < |c.routes| && Steady(calls, annual) && Steady(calls', annual)
    requires MaxClock(calls) <= now && MaxClock(calls') <= now && Run(c, calls).startAt == Run(c, calls').startAt
    requires FullAccrual(Run(c, calls), annual, now, deposits) && FullAccrual(Run(c, calls'), annual, now, deposits')
    ensures Accrue(Run(c, calls), annual, now, deposits).Issued(c.routes[i].subnet)
            == Accrue(Run(c, calls'), annual, now, deposits').Issued(c.routes[i].subnet)
  {
    FullAccrualAfterRun(c, calls, annual, now, deposits, i);
    FullAccrualAfterRun(c, calls', annual, now, deposits', i);
  }

  /** In particular every counter of an anchored chain is what one single
      successful call at that clock would have made it. */
  lemma CatchUp(c: Chain, calls: seq<Call>, annual: nat, now: nat, deposits: seq<bool>, once: seq<bool>, i: nat)
    requires Anchored(c) && i < |c.routes| && Steady(calls, annual) && MaxClock(calls) <= now
    requires FullAccrual(Run(c, calls), annual, now, deposits) && FullAccrual(c, annual, now, once)
    ensures Accrue(Run(c, calls), annual, now, deposits).Issued(c.routes[i].subnet)
            == Accrue(c, annual, now, once).Issued(c.routes[i].subnet)
            == Max(c.Issued(c.routes[i].subnet), Target(c, annual, i, now))
  {
    IssuedWithinEntitlement(c, calls, annual, i);
    HistoriesAgree(c, calls, [], annual, now, deposits, once, i);
    FullAccrualAfterRun(c, [], annual, now, once, i);
  }

  // ---------------------------------------------------------------- counters add up

  function SumIssued(c: Chain, routes: seq<Route>): nat {
    if routes == [] then 0
    else SumIssued(c, routes[..|routes| - 1]) + c.Issued(routes[|routes| - 1].subnet)
  }

  lemma {:induction false} SumIssuedSame(c: Chain, c': Chain, routes: seq<Route>)
    requires forall i :: 0 <= i < |routes| ==> c'.Issued(routes[i].subnet) == c.Issued(routes[i].subnet)
    ensures SumIssued(c', routes) == SumIssued(c, routes)
  {
    if routes != [] {
      SumIssuedSame(c, c', routes[..|routes| - 1]);
    }
  }

  lemma {:induction false} SumIssuedBump(c: Chain, c': Chain, routes: seq<Route>, i: nat)
    requires DistinctSubnets(routes) && i < |routes|
    requires forall j :: 0 <= j < |routes| && j != i ==> c'.Issued(routes[j].subnet) == c.Issued(routes[j].subnet)
    ensures SumIssued(c', routes) - SumIssued(c, routes) == c'.Issued(routes[i].subnet) - c.Issued(routes[i].subnet)
  {
    var k := |routes| - 1;
    if i == k {
      SumIssuedSame(c, c', routes[..k]);
    } else {
      SumIssuedBump(c, c', routes[..k], i);
    }
  }

  lemma {:induction false} RoutesSum(c: Chain, total: nat, routes: seq<Route>, deposits: seq<bool>, k: nat)
    requires k <= |routes| && DistinctSubnets(routes)
    ensures var c' := AccrueRoutes(c, total, routes, deposits, k);
            c'.scheduledIssued - SumIssued(c', routes) == c.scheduledIssued - SumIssued(c, routes)
  {
    if k > 0 {
      RoutesSum(c, total, routes, deposits, k - 1);
      var before, after := AccrueRoutes(c, total, routes, deposits, k - 1), AccrueRoutes(c, total, routes, deposits, k);
      SumIssuedBump(before, after, routes, k - 1);
    }
  }

  /** `ScheduledIssued` is the sum of the subnet counters in every reachable
      state, upgrades included. */
  ghost predicate CountersAdd(c: Chain) {
    DistinctSubnets(c.routes) && c.scheduledIssued == SumIssued(c, c.routes)
  }

  /** Empty counters add up. */
  lemma EmptyCountersAdd(c: Chain)
    requires c.subnetIssued == map[] && c.scheduledIssued == 0 && DistinctSubnets(c.routes)
    ensures CountersAdd(c)
  {
    NothingIssued(c, c.routes);
  }

  lemma {:induction false} NothingIssued(c: Chain, routes: seq<Route>)
    requires c.subnetIssued == map[]
    ensures SumIssued(c, routes) == 0
  {
    if routes != [] {
      NothingIssued(c, routes[..|routes| - 1]);
    }
  }

  lemma StepCountersAdd(c: Chain, call: Call)
    requires CountersAdd(c)
    ensures CountersAdd(Step(c, call))
  {
    var c' := Step(c, call);
    if call.OnAccrue? && c.startAt.Some? {
      var entitled := Entitlement(call.annual, Elapsed(call.now, c.startAt.value));
      if c.enabled && call.now != 0 && entitled.Some? {
        RoutesFrame(c, entitled.value, c.routes, call.deposits, |c.routes|);
        RoutesSum(c, entitled.value, c.routes, call.deposits, |c.routes|);
        return;
      }
    }
    SumIssuedSame(c, c', c.routes);
  }

  lemma {:induction false} RunCountersAdd(c: Chain, calls: seq<Call>)
    requires CountersAdd(c)
    ensures CountersAdd(Run(c, calls))
  {
    if calls != [] {
      RunCountersAdd(c, calls[..|calls| - 1]);
      StepCountersAdd(Run(c, calls[..|calls| - 1]), calls[|calls| - 1]);
    }
  }

  // ---------------------------------------------------------------- the total

  lemma {:induction false} SumWithinTargets(c: Chain, routes: seq<Route>, total: nat)
    requires forall i :: 0 <= i < |routes| ==> c.Issued(routes[i].subnet) <= MulFloor(routes[i].share, total)
    ensures SumIssued(c, routes) <= SumTargets(routes, total)
  {
    if routes != [] {
      SumWithinTargets(c, routes[..|routes| - 1], total);
    }
  }

  /** From empty counters, over any clocks and failures, everything minted on
      schedule stays within the curve at the largest clock seen, and nothing is
      minted without an anchor. */
  lemma TotalWithinCurve(c: Chain, calls: seq<Call>, annual: nat)
    requires c.subnetIssued == map[] && c.scheduledIssued == 0
    requires DistinctSubnets(c.routes) && SumShares(c.routes) == BILLION && Steady(calls, annual)
    ensures var c' := Run(c, calls);
            c'.scheduledIssued
            <= if c'.startAt.None? then 0 else Curve(annual, Elapsed(MaxClock(calls), c'.startAt.value))
  {
    var c' := Run(c, calls);
    var total := if c'.startAt.None? then 0 else Curve(annual, Elapsed(MaxClock(calls), c'.startAt.value));
    EmptyCountersAdd(c);
    RunCountersAdd(c, calls);
    forall i | 0 <= i < |c.routes| ensures c'.Issued(c.routes[i].subnet) <= MulFloor(c.routes[i].share, total) {
      IssuedWithinEntitlement(c, calls, annual, i);
    }
    assert c.routes != [];
    IssuedWithinEntitlement(c, calls, annual, 0);
    SumWithinTargets(c', c.routes, total);
    SharesNeverExceed(c.routes, total);
  }
}
