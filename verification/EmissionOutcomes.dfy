/** When each operation of the emission controller succeeds and exactly what it
    does. */
module EmissionOutcomes {
  import opened Common
  import opened Radix
  import opened Schedule
  import opened Emission
  import opened EmissionRuns

  // ---------------------------------------------------------------- the curve in units

  /** A year of 365 days yields the annual amount, and the curve rounds down. */
  lemma CurveIsFloor(annual: nat, elapsed: nat)
    ensures Curve(annual, 365 * 24 * 60 * 60) == annual
    ensures 31_536_000 * Curve(annual, elapsed) <= annual * elapsed < 31_536_000 * (Curve(annual, elapsed) + 1)
  {
    DivMod(annual, 0, YEAR_SECONDS);
  }

  /** A share is in parts per billion, rounded down. */
  lemma ShareIsFloor(share: nat, x: nat)
    ensures MulFloor(1_000_000_000, x) == x
    ensures 1_000_000_000 * MulFloor(share, x) <= share * x < 1_000_000_000 * (MulFloor(share, x) + 1)
  {
    DivMod(x, 0, BILLION);
  }

  // ---------------------------------------------------------------- funding

  ghost predicate Fits128(x: int) {
    x <= U128_MAX
  }

  /** A subnet is funded exactly when the currency takes the deposit and all three
      sums stay within 128 bits; otherwise the error says which it was. */
  lemma FundSubnetIff(c: Chain, subnet: nat, amount: nat, accepts: bool)
    ensures var fits := Fits128(c.Issued(subnet) + amount) && Fits128(c.scheduledIssued + amount)
                        && Fits128(c.issuance + amount);
            var r := FundSubnet(c, subnet, amount, accepts);
            && (r.Ok? <==> accepts && fits)
            && (r.Err? ==> r.error == if fits then DepositFailed else Overflow)
  {
  }

  /** Funding credits the pot and nobody else, and moves the subnet's counter, the
      scheduled total and the issuance by the same amount. */
  lemma FundSubnetEffect(c: Chain, subnet: nat, amount: nat, accepts: bool, a: Account, s: nat)
    requires FundSubnet(c, subnet, amount, accepts).Ok?
    ensures var c' := FundSubnet(c, subnet, amount, accepts).value;
            && c'.Free(a) == c.Free(a) + (if a == Pot(subnet) then amount else 0)
            && c'.Issued(s) == c.Issued(s) + (if s == subnet then amount else 0)
            && c'.scheduledIssued == c.scheduledIssued + amount && c'.issuance == c.issuance + amount
            && c'.events == c.events + [SubnetFunded(subnet, amount)] && SameSchedule(c, c')
  {
  }

  /** What the first k routes are short of. */
  function Due(c: Chain, total: nat, routes: seq<Route>, k: nat): nat
    requires k <= |routes|
  {
    if k == 0 then 0
    else Due(c, total, routes, k - 1)
         + Max(0, MulFloor(routes[k - 1].share, total) - c.Issued(routes[k - 1].subnet))
  }

  /** Route i is short of its share. */
  predicate Short(c: Chain, total: nat, routes: seq<Route>, i: nat)
    requires i < |routes|
  {
    MulFloor(routes[i].share, total) > c.Issued(routes[i].subnet)
  }

  /** The deposit of every short route is taken, and with all of them in no counter
      and neither total leaves 128 bits. */
  ghost predicate Fundable(c: Chain, total: nat, routes: seq<Route>, deposits: seq<bool>, k: nat)
    requires k <= |routes|
  {
    && (forall i :: 0 <= i < k && Short(c, total, routes, i) ==>
          Takes(deposits, i) && Fits128(MulFloor(routes[i].share, total)))
    && Fits128(c.scheduledIssued + Due(c, total, routes, k)) && Fits128(c.issuance + Due(c, total, routes, k))
  }

  /** Both totals have grown by what the first k routes were short of. */
  ghost predicate Grown(c: Chain, c': Chain, total: nat, routes: seq<Route>, k: nat)
    requires k <= |routes|
  {
    && c'.scheduledIssued == c.scheduledIssued + Due(c, total, routes, k)
    && c'.issuance == c.issuance + Due(c, total, routes, k)
  }

  /** A counter below its target leads to one event, a failure exactly when the
      deposit is not taken or something does not fit. */
  lemma SettleOutcome(c: Chain, s: nat, target: nat, takes: bool)
    requires target > c.Issued(s)
    ensures var c', amount := Settle(c, s, target, takes), target - c.Issued(s);
            && |c'.events| == |c.events| + 1 && c.events == c'.events[..|c.events|]
            && (!c'.events[|c.events|].FundingFailed? <==>
                  takes && Fits128(target) && Fits128(c.scheduledIssued + amount) && Fits128(c.issuance + amount))
            && (!c'.events[|c.events|].FundingFailed? ==>
                  && c'.events[|c.events|] == SubnetFunded(s, amount)
                  && c'.scheduledIssued == c.scheduledIssued + amount && c'.issuance == c.issuance + amount)
            && (c'.events[|c.events|].FundingFailed? ==>
                  && c' == c.(events := c'.events)
                  && c'.events[|c.events|].subnet == s && c'.events[|c.events|].amount == amount)
  {
    FundSubnetIff(c, s, target - c.Issued(s), takes);
  }

  /** Whether a failure was recorded, after one more event. */
  lemma OneMoreEvent(c: Chain, c1: Chain, c2: Chain)
    requires |c1.events| >= |c.events| && |c2.events| == |c1.events| + 1 && c1.events == c2.events[..|c1.events|]
    ensures NoFailures(c, c2) <==> NoFailures(c, c1) && !c2.events[|c1.events|].FundingFailed?
  {
    assert forall n :: |c.events| <= n < |c1.events| ==> c2.events[n] == c1.events[n];
  }

  /** One more route of an accrual that went well so far. */
  lemma FundNext(c: Chain, c1: Chain, total: nat, routes: seq<Route>, deposits: seq<bool>, k: nat)
    requires k < |routes| && c1.Issued(routes[k].subnet) == c.Issued(routes[k].subnet) && Grown(c, c1, total, routes, k)
    requires Fundable(c, total, routes, deposits, k) && |c1.events| >= |c.events| && NoFailures(c, c1)
    ensures var c2 := AccrueRoute(c1, total, routes[k], Takes(deposits, k));
            && (NoFailures(c, c2) <==> Fundable(c, total, routes, deposits, k + 1))
            && (NoFailures(c, c2) ==> Grown(c, c2, total, routes, k + 1))
  {
    if Short(c, total, routes, k) {
      var s, target := routes[k].subnet, MulFloor(routes[k].share, total);
      SettleOutcome(c1, s, target, Takes(deposits, k));
      OneMoreEvent(c, c1, Settle(c1, s, target, Takes(deposits, k)));
    }
  }

  /** A recorded failure stays recorded. */
  lemma FailureStays(c: Chain, c1: Chain, c2: Chain)
    requires !NoFailures(c, c1) && c1.events <= c2.events
    ensures !NoFailures(c, c2)
  {
    var n :| |c.events| <= n < |c1.events| && c1.events[n].FundingFailed?;
    assert c2.events[n] == c1.events[n];
  }

  lemma LessIsFundable(c: Chain, total: nat, routes: seq<Route>, deposits: seq<bool>, k: nat)
    requires k < |routes| && Fundable(c, total, routes, deposits, k + 1)
    ensures Fundable(c, total, routes, deposits, k)
  {
  }

  /** The accrual of the first k routes went well exactly when they are fundable. */
  ghost predicate FundedIff(c: Chain, total: nat, routes: seq<Route>, deposits: seq<bool>, k: nat)
    requires k <= |routes|
  {
    var c' := AccrueRoutes(c, total, routes, deposits, k);
    && (NoFailures(c, c') <==> Fundable(c, total, routes, deposits, k))
    && (NoFailures(c, c') ==> Grown(c, c', total, routes, k))
  }

  lemma AfterSuccess(c: Chain, total: nat, routes: seq<Route>, deposits: seq<bool>, k: nat)
    requires k < |routes| && DistinctSubnets(routes) && FundedIff(c, total, routes, deposits, k)
    requires NoFailures(c, AccrueRoutes(c, total, routes, deposits, k))
    ensures FundedIff(c, total, routes, deposits, k + 1)
  {
    RoutesFrame(c, total, routes, deposits, k);
    RoutesElsewhere(c, total, routes, deposits, 0, k, routes[k].subnet);
    FundNext(c, AccrueRoutes(c, total, routes, deposits, k), total, routes, deposits, k);
  }

  lemma AfterFailure(c: Chain, total: nat, routes: seq<Route>, deposits: seq<bool>, k: nat)
    requires k < |routes| && FundedIff(c, total, routes, deposits, k)
    requires !NoFailures(c, AccrueRoutes(c, total, routes, deposits, k))
    ensures FundedIff(c, total, routes, deposits, k + 1)
  {
    EventsGrow(c, total, routes, deposits, k, k + 1);
    FailureStays(c, AccrueRoutes(c, total, routes, deposits, k), AccrueRoutes(c, total, routes, deposits, k + 1));
    if Fundable(c, total, routes, deposits, k + 1) {
      LessIsFundable(c, total, routes, deposits, k);
    }
  }

  lemma {:induction false} RoutesFundedIff(c: Chain, total: nat, routes: seq<Route>, deposits: seq<bool>, k: nat)
    requires k <= |routes| && DistinctSubnets(routes) && Fits128(c.scheduledIssued) && Fits128(c.issuance)
    ensures FundedIff(c, total, routes, deposits, k)
  {
    if k > 0 {
      RoutesFundedIff(c, total, routes, deposits, k - 1);
      if NoFailures(c, AccrueRoutes(c, total, routes, deposits, k - 1)) {
        AfterSuccess(c, total, routes, deposits, k - 1);
      } else {
        AfterFailure(c, total, routes, deposits, k - 1);
      }
    }
  }

  /** An accrual records no failure exactly when the currency takes the deposit of
      every short route and everything fits 128 bits; then every counter ends at
      the larger of itself and its share, and both totals grow by what was due. */
  lemma AccrualSucceedsIff(c: Chain, annual: nat, now: nat, deposits: seq<bool>)
    requires Anchored(c) && c.enabled && now != 0 && Fits128(c.scheduledIssued) && Fits128(c.issuance)
    requires Entitlement(annual, Elapsed(now, c.startAt.value)).Some?
    ensures var total := Entitlement(annual, Elapsed(now, c.startAt.value)).value;
            var c' := Accrue(c, annual, now, deposits);
            && (NoFailures(c, c') <==> Fundable(c, total, c.routes, deposits, |c.routes|))
            && (NoFailures(c, c') ==>
                  && c'.scheduledIssued == c.scheduledIssued + Due(c, total, c.routes, |c.routes|)
                  && c'.issuance == c.issuance + Due(c, total, c.routes, |c.routes|)
                  && forall i :: 0 <= i < |c.routes| ==>
                       c'.Issued(c.routes[i].subnet) == Max(c.Issued(c.routes[i].subnet), Target(c, annual, i, now)))
  {
    var total := Entitlement(annual, Elapsed(now, c.startAt.value)).value;
    RoutesFundedIff(c, total, c.routes, deposits, |c.routes|);
    if NoFailures(c, Accrue(c, annual, now, deposits)) {
      forall i | 0 <= i < |c.routes|
        ensures Accrue(c, annual, now, deposits).Issued(c.routes[i].subnet)
                == Max(c.Issued(c.routes[i].subnet), Target(c, annual, i, now))
      {
        FullAccrualReaches(c, annual, now, deposits, i);
      }
    }
  }

  /** Nothing moves a disabled schedule, over any steady run: no anchor is taken
      and nothing is minted. */
  lemma {:induction false} DisabledIsFrozen(c: Chain, calls: seq<Call>, annual: nat)
    requires !c.enabled && Steady(calls, annual)
    ensures var c' := Run(c, calls);
            && !c'.enabled && c'.startAt == c.startAt
            && c'.subnetIssued == c.subnetIssued && c'.scheduledIssued == c.scheduledIssued
  {
    if calls != [] {
      DisabledIsFrozen(c, calls[..|calls| - 1], annual);
    }
  }

  /** Nor does a clock of zero or an entitlement that overflows. */
  lemma InertAccrual(c: Chain, annual: nat, now: nat, deposits: seq<bool>)
    requires now == 0 || (c.startAt.Some? && Entitlement(annual, Elapsed(now, c.startAt.value)).None?)
    ensures Accrue(c, annual, now, deposits) == c
  {
  }

  // ---------------------------------------------------------------- faucet and payouts

  /** A mint succeeds exactly for a positive amount within what is left of the
      budget that the currency takes and that fits; the error is the first of
      these that fails. */
  lemma MintFaucetIff(c: Chain, who: Account, amount: nat, accepts: bool)
    ensures var r := MintFaucet(c, who, amount, accepts);
            && (r.Ok? <==> 0 < amount <= c.faucetBudget - c.faucetIssued && Fits128(c.faucetIssued + amount)
                           && Fits128(c.issuance + amount) && accepts)
            && (r.Err? ==> r.error == if amount == 0 then ZeroAmount
                                      else if !Fits128(c.faucetIssued + amount) then Overflow
                                      else if amount > c.faucetBudget - c.faucetIssued then BudgetExceeded
                                      else if !Fits128(c.issuance + amount) then Overflow
                                      else DepositFailed)
  {
  }

  /** It credits the recipient and nobody else, and moves the faucet counter and
      the issuance. */
  lemma MintFaucetEffect(c: Chain, who: Account, amount: nat, accepts: bool, a: Account)
    requires MintFaucet(c, who, amount, accepts).Ok?
    ensures var c' := MintFaucet(c, who, amount, accepts).value;
            && c'.Free(a) == c.Free(a) + (if a == who then amount else 0)
            && c'.faucetIssued == c.faucetIssued + amount && c'.issuance == c.issuance + amount
            && c'.subnetIssued == c.subnetIssued && c'.scheduledIssued == c.scheduledIssued
            && c'.startAt == c.startAt && c'.faucetBudget == c.faucetBudget
            && c'.events == c.events + [FaucetMinted(who, amount)]
  {
  }

  /** A payout is the request or what the pot has above the minimum, whichever is
      less, and nothing when the transfer fails or goes to the pot itself; what
      happened is recorded. */
  lemma PayAmount(c: Chain, minimum: nat, subnet: nat, who: Account, requested: nat, accepts: bool)
    ensures var (c', amount) := Pay(c, minimum, subnet, who, requested, accepts);
            var due := Min(requested, Max(0, c.Free(Pot(subnet)) - minimum));
            && amount == (if accepts && who != Pot(subnet) then due else 0)
            && |c'.events| == |c.events| + 1 && c'.events[..|c.events|] == c.events
            && c'.events[|c.events|] == (if amount > 0 then RewardPaid(subnet, who, amount)
                                         else if due == 0 || who == Pot(subnet)
                                         then RewardUnavailable(subnet, who, requested, None)
                                         else RewardUnavailable(subnet, who, requested, Some(TransferFailed)))
            && (amount == 0 ==> c'.balances == c.balances)
  {
  }

  // ---------------------------------------------------------------- the upgrade's other branches

  /** With nothing to rebase the upgrade keeps the anchor and sets the version. */
  lemma UpgradeKeepsAnchor(c: Chain, annual: nat, clock: nat)
    requires c.version < 2 && (!c.enabled || c.startAt.None? || c.scheduledIssued == 0)
    ensures Upgrade(c, annual, clock) == c.(version := 2)
  {
  }

  /** It changes nothing exactly when it was done before, or when no anchor can be
      computed: a rate of zero, or paid seconds beyond 128 bits. */
  lemma UpgradeRefusedIff(c: Chain, annual: nat, clock: nat)
    ensures Upgrade(c, annual, clock) == c <==>
              || c.version >= 2
              || (&& c.enabled && c.startAt.Some? && c.scheduledIssued > 0
                  && (annual == 0 || c.scheduledIssued * 31_536_000 / annual > U128_MAX))
  {
  }
}
