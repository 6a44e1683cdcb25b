/** The storage upgrade that re-anchors the schedule after a rate change. */
module Rebase {
  import opened Common
  import opened Radix
  import opened Schedule
  import opened Emission
  import opened EmissionRuns

  /** The upgrade has something to rebase and can compute the new anchor. */
  predicate Rebases(c: Chain, annual: nat, clock: nat) {
    c.version < VERSION && c.enabled && c.startAt.Some? && c.scheduledIssued > 0 && RebasedStart(c, annual, clock).Some?
  }

  /** Seconds the new curve needs to reach what was already paid. */
  function PaidSeconds(c: Chain, annual: nat): nat
    requires annual > 0
  {
    c.scheduledIssued * YEAR_SECONDS / annual
  }

  /** The paid total lies between the curve at those seconds and one second
      later, so less than one second of entitlement is outstanding. */
  lemma PaidIsBracketed(c: Chain, annual: nat)
    requires annual > 0
    ensures Curve(annual, PaidSeconds(c, annual)) <= c.scheduledIssued <= Curve(annual, PaidSeconds(c, annual) + 1)
    ensures c.scheduledIssued * YEAR_SECONDS < annual * (PaidSeconds(c, annual) + 1)
  {
    var paid, seconds := c.scheduledIssued * YEAR_SECONDS, PaidSeconds(c, annual);
    assert paid == annual * seconds + paid % annual;
    Distribute(seconds, 1, annual);
    DivMod(c.scheduledIssued, 0, YEAR_SECONDS);
    DivMono(annual * seconds, paid, YEAR_SECONDS);
    DivMono(paid, annual * (seconds + 1), YEAR_SECONDS);
  }

  /** What the upgrade writes: the anchor and the version, nothing else. The
      curve then stands at the paid seconds, or at the whole clock if that is
      less (an anchor before the Unix epoch is clamped to it). */
  lemma RebaseEffect(c: Chain, annual: nat, clock: nat)
    requires Rebases(c, annual, clock) && clock <= U64_MAX
    ensures var c' := Upgrade(c, annual, clock);
            && annual > 0 && c'.startAt.Some?
            && c' == c.(startAt := c'.startAt, version := VERSION)
            && Elapsed(clock, c'.startAt.value) == Min(clock, PaidSeconds(c, annual))
  {
  }

  /** With no clamping the new curve brackets the paid history at the clock of
      the upgrade and one second later. */
  lemma RebaseBrackets(c: Chain, annual: nat, clock: nat)
    requires Rebases(c, annual, clock) && clock <= U64_MAX && annual > 0 && PaidSeconds(c, annual) <= clock
    ensures var start := Upgrade(c, annual, clock).startAt;
            && start.Some? && Elapsed(clock, start.value) == PaidSeconds(c, annual)
            && Curve(annual, Elapsed(clock, start.value)) <= c.scheduledIssued
               <= Curve(annual, Elapsed(clock + 1, start.value))
  {
    RebaseEffect(c, annual, clock);
    PaidIsBracketed(c, annual);
  }

  /** Every subnet was paid its share of one common entitlement. */
  ghost predicate Level(c: Chain, total: nat) {
    forall i :: 0 <= i < |c.routes| ==> c.Issued(c.routes[i].subnet) == MulFloor(c.routes[i].share, total)
  }

  lemma {:induction false} SumOfLevel(c: Chain, routes: seq<Route>, total: nat)
    requires forall i :: 0 <= i < |routes| ==> c.Issued(routes[i].subnet) == MulFloor(routes[i].share, total)
    ensures SumIssued(c, routes) == SumTargets(routes, total)
  {
    if routes != [] {
      SumOfLevel(c, routes[..|routes| - 1], total);
    }
  }

  lemma {:induction false} NothingDue(c: Chain, total: nat, routes: seq<Route>, deposits: seq<bool>, k: nat)
    requires k <= |routes|
    requires forall i :: 0 <= i < k ==> MulFloor(routes[i].share, total) <= c.Issued(routes[i].subnet)
    ensures AccrueRoutes(c, total, routes, deposits, k) == c
  {
    if k > 0 {
      NothingDue(c, total, routes, deposits, k - 1);
    }
  }

  /** If the counters were level, an accrual at the clock of the upgrade mints
      nothing, clamped or not. */
  lemma RebaseMintsNothing(c: Chain, annual: nat, clock: nat, total: nat, deposits: seq<bool>)
    requires Rebases(c, annual, clock) && clock <= U64_MAX
    requires CountersAdd(c) && c.routes != [] && SumShares(c.routes) == BILLION && Level(c, total)
    ensures Accrue(Upgrade(c, annual, clock), annual, clock, deposits) == Upgrade(c, annual, clock)
  {
    RebaseEffect(c, annual, clock);
    var c' := Upgrade(c, annual, clock);
    var elapsed := Elapsed(clock, c'.startAt.value);
    var entitled := Entitlement(annual, elapsed);
    if clock != 0 && entitled.Some? {
      EntitlementIsCurve(annual, elapsed);
      CurveMono(annual, elapsed, PaidSeconds(c, annual));
      PaidIsBracketed(c, annual);
      SumOfLevel(c, c.routes, total);
      SharesNeverExceed(c.routes, total);
      forall i | 0 <= i < |c.routes|
        ensures MulFloor(c.routes[i].share, entitled.value) <= c'.Issued(c.routes[i].subnet)
      {
        MulFloorMono(c.routes[i].share, entitled.value, total);
      }
      NothingDue(c', entitled.value, c'.routes, deposits, |c'.routes|);
    }
  }

  /** In general an accrual changes nothing exactly when no route is short of
      its share of the curve at that clock. */
  lemma AccrueIdleIff(c: Chain, annual: nat, now: nat, deposits: seq<bool>)
    requires Anchored(c) && c.enabled && now != 0 && Entitlement(annual, Elapsed(now, c.startAt.value)).Some?
    ensures Accrue(c, annual, now, deposits) == c <==>
              forall i :: 0 <= i < |c.routes| ==> Target(c, annual, i, now) <= c.Issued(c.routes[i].subnet)
  {
    var elapsed := Elapsed(now, c.startAt.value);
    EntitlementIsCurve(annual, elapsed);
    var total := Entitlement(annual, elapsed).value;
    if forall i :: 0 <= i < |c.routes| ==> Target(c, annual, i, now) <= c.Issued(c.routes[i].subnet) {
      NothingDue(c, total, c.routes, deposits, |c.routes|);
    } else {
      var i :| 0 <= i < |c.routes| && Target(c, annual, i, now) > c.Issued(c.routes[i].subnet);
      RoutesAt(c, total, c.routes, deposits, i, |c.routes|);
    }
  }

  /** So an accrual at the clock of the upgrade mints nothing exactly when every
      counter already covers its share of the curve at the paid seconds. */
  lemma RebaseIdleIff(c: Chain, annual: nat, clock: nat, deposits: seq<bool>)
    requires Rebases(c, annual, clock) && clock <= U64_MAX && DistinctSubnets(c.routes) && annual > 0
    requires Entitlement(annual, Min(clock, PaidSeconds(c, annual))).Some?
    ensures var curve := Curve(annual, Min(clock, PaidSeconds(c, annual)));
            Accrue(Upgrade(c, annual, clock), annual, clock, deposits) == Upgrade(c, annual, clock) <==>
            forall i :: 0 <= i < |c.routes| ==> MulFloor(c.routes[i].share, curve) <= c.Issued(c.routes[i].subnet)
  {
    RebaseEffect(c, annual, clock);
    var c' := Upgrade(c, annual, clock);
    if clock != 0 {
      AccrueIdleIff(c', annual, clock, deposits);
      forall i | 0 <= i < |c.routes|
        ensures Target(c', annual, i, clock)
                == MulFloor(c.routes[i].share, Curve(annual, Min(clock, PaidSeconds(c, annual))))
                && c'.Issued(c.routes[i].subnet) == c.Issued(c.routes[i].subnet)
      {
      }
    }
  }

  /** Level counters matter. A history: the deposit of one subnet fails once,
      the rebase spreads the sum over both subnets, and the accrual at the clock
      of the upgrade mints for the one that is behind. */
  lemma UnevenHistoryMints()
    ensures var genesis := Chain(true, Some(500), [Route(0, 500_000_000), Route(1, 500_000_000)], map[], 0,
                                 0, 0, 1, map[], 0, []);
            var failing, upgrade := OnAccrue(YEAR_SECONDS, 700, [false, true]), OnUpgrade(YEAR_SECONDS, 1000);
            var again := OnAccrue(YEAR_SECONDS, 1000, []);
            && CountersAdd(genesis) && Rebases(Run(genesis, [failing]), YEAR_SECONDS, 1000)
            && Run(genesis, [failing, upgrade]).Issued(0) == 0
            && Run(genesis, [failing, upgrade, again]).Issued(0) == 50
  {
    var routes := [Route(0, 500_000_000), Route(1, 500_000_000)];
    var genesis := Chain(true, Some(500), routes, map[], 0, 0, 0, 1, map[], 0, []);
    var failing, upgrade, again :=
      OnAccrue(YEAR_SECONDS, 700, [false, true]), OnUpgrade(YEAR_SECONDS, 1000), OnAccrue(YEAR_SECONDS, 1000, []);
    EmptyCountersAdd(genesis);
    ThreeCalls(genesis, failing, upgrade, again);
    var c := Step(genesis, failing);
    FirstRouteFails(genesis, routes);
    HundredSecondsPaid(c);
    FirstRouteFunded(Step(c, upgrade), routes);
  }

  lemma ThreeCalls(c: Chain, x: Call, y: Call, z: Call)
    ensures Run(c, [x]) == Step(c, x)
    ensures Run(c, [x, y]) == Step(Step(c, x), y)
    ensures Run(c, [x, y, z]) == Step(Step(Step(c, x), y), z)
  {
    assert [x][..0] == [] && [x, y][..1] == [x] && [x, y, z][..2] == [x, y];
    assert Run(c, []) == c;
    assert Run(c, [x]) == Step(c, x);
    assert Run(c, [x, y]) == Step(Run(c, [x]), y);
  }

  /** After 200 seconds: the first subnet's 100 units are refused, the second
      receives its own. */
  lemma FirstRouteFails(c: Chain, routes: seq<Route>)
    requires routes == [Route(0, 500_000_000), Route(1, 500_000_000)]
    requires c == Chain(true, Some(500), routes, map[], 0, 0, 0, 1, map[], 0, [])
    ensures var c' := Accrue(c, YEAR_SECONDS, 700, [false, true]);
            && c'.scheduledIssued == 100 && c'.issuance == 100 && c'.Issued(0) == 0
            && SameSchedule(c, c')
  {
    var deposits := [false, true];
    assert Entitlement(YEAR_SECONDS, 200) == Some(200);
    assert MulFloor(500_000_000, 200) == 100;
    RoutesFrame(c, 200, routes, deposits, 2);
    var first := AccrueRoutes(c, 200, routes, deposits, 1);
    assert first == Settle(AccrueRoutes(c, 200, routes, deposits, 0), 0, 100, false) == Settle(c, 0, 100, false);
    assert AccrueRoutes(c, 200, routes, deposits, 2) == Settle(first, 1, 100, true);
  }

  lemma HundredSecondsPaid(c: Chain)
    requires c.enabled && c.startAt.Some? && c.version == 1 && c.scheduledIssued == 100
    ensures Rebases(c, YEAR_SECONDS, 1000)
    ensures Upgrade(c, YEAR_SECONDS, 1000) == c.(startAt := Some(900), version := VERSION)
  {
    DivMod(100, 0, YEAR_SECONDS);
  }

  lemma FirstRouteFunded(c: Chain, routes: seq<Route>)
    requires c.enabled && c.startAt == Some(900) && c.routes == routes && c.issuance <= 100 && c.scheduledIssued == 100
    requires routes == [Route(0, 500_000_000), Route(1, 500_000_000)] && c.Issued(0) == 0
    ensures Accrue(c, YEAR_SECONDS, 1000, []).Issued(0) == 50
  {
    assert Entitlement(YEAR_SECONDS, 100) == Some(100);
    assert MulFloor(500_000_000, 100) == 50;
    var first := AccrueRoutes(c, 100, routes, [], 1);
    assert first == Settle(AccrueRoutes(c, 100, routes, [], 0), 0, 50, true) == Settle(c, 0, 50, true);
    RoutesElsewhere(c, 100, routes, [], 1, 2, 0);
  }

  /** A second upgrade call changes nothing, at any clock and rate. */
  lemma UpgradeOnce(c: Chain, annual: nat, clock: nat, annual': nat, clock': nat)
    requires c.version >= VERSION || RebasedStart(c, annual, clock).Some?
    ensures Upgrade(Upgrade(c, annual, clock), annual', clock') == Upgrade(c, annual, clock)
  {
  }
}
