/** The emission curve and its division among subnet routes. */
module Schedule {
  import opened Common
  import opened Radix

  const YEAR_SECONDS: nat := 31_536_000
  const BILLION: nat := 1_000_000_000

  /** `entitlement`: whole years plus a fraction, every operation checked. */
  function Entitlement(annual: nat, elapsed: nat): Option<nat> {
    var years := annual * (elapsed / YEAR_SECONDS);
    var fraction := annual * (elapsed % YEAR_SECONDS);
    if years > U128_MAX || fraction > U128_MAX || years + fraction / YEAR_SECONDS > U128_MAX then None
    else Some(years + fraction / YEAR_SECONDS)
  }

  /** The curve without overflow: floor(annual * elapsed / year). */
  function Curve(annual: nat, elapsed: nat): nat {
    annual * elapsed / YEAR_SECONDS
  }

  lemma SplitCurve(annual: nat, elapsed: nat)
    ensures annual * (elapsed / YEAR_SECONDS) + annual * (elapsed % YEAR_SECONDS) / YEAR_SECONDS
            == Curve(annual, elapsed)
  {
    var q, r := elapsed / YEAR_SECONDS, elapsed % YEAR_SECONDS;
    var years, fraction := annual * q, annual * r;
    Distribute(q * YEAR_SECONDS, r, annual);
    Assoc(annual, q, YEAR_SECONDS);
    assert annual * elapsed == years * YEAR_SECONDS + fraction;
    DivMod(years + fraction / YEAR_SECONDS, fraction % YEAR_SECONDS, YEAR_SECONDS);
  }

  /** Splitting off whole years loses nothing, and when a year's worth fits the
      machine word an answer is missing only if the curve itself does not fit. */
  lemma EntitlementIsCurve(annual: nat, elapsed: nat)
    ensures Entitlement(annual, elapsed).Some? ==> Entitlement(annual, elapsed).value == Curve(annual, elapsed)
    ensures annual * YEAR_SECONDS <= U128_MAX ==>
              (Entitlement(annual, elapsed).Some? <==> Curve(annual, elapsed) <= U128_MAX)
  {
    SplitCurve(annual, elapsed);
    if annual * YEAR_SECONDS <= U128_MAX {
      FractionFits(annual, elapsed % YEAR_SECONDS);
    }
  }

  lemma FractionFits(annual: nat, seconds: nat)
    requires seconds < YEAR_SECONDS && annual * YEAR_SECONDS <= U128_MAX
    ensures annual * seconds <= U128_MAX
  {
    MulMono(seconds, YEAR_SECONDS, annual);
  }

  lemma DivMono(a: nat, b: nat, d: nat)
    requires a <= b && d > 0
    ensures a / d <= b / d
  {
    if a / d > b / d {
      MulMono(b / d + 1, a / d, d);
      Distribute(b / d, 1, d);
    }
  }

  lemma CurveMono(annual: nat, e: nat, e': nat)
    requires e <= e'
    ensures Curve(annual, e) <= Curve(annual, e')
  {
    MulMono(e, e', annual);
    DivMono(annual * e, annual * e', YEAR_SECONDS);
  }

  // ---------------------------------------------------------------- routes

  /** A subnet and its share in parts per billion. */
  datatype Route = Route(subnet: nat, share: nat)

  /** `Perbill::mul_floor`. */
  function MulFloor(share: nat, x: nat): nat {
    share * x / BILLION
  }

  lemma MulFloorMono(share: nat, x: nat, y: nat)
    requires x <= y
    ensures MulFloor(share, x) <= MulFloor(share, y)
  {
    MulMono(x, y, share);
    DivMono(share * x, share * y, BILLION);
  }

  predicate DistinctSubnets(routes: seq<Route>) {
    forall i, j :: 0 <= i < j < |routes| ==> routes[i].subnet != routes[j].subnet
  }

  function SumShares(routes: seq<Route>): nat {
    if routes == [] then 0 else SumShares(routes[..|routes| - 1]) + routes[|routes| - 1].share
  }

  /** Routes accepted at genesis. */
  predicate RoutesAccepted(routes: seq<Route>, enabled: bool, maxSubnets: nat) {
    && |routes| <= maxSubnets
    && if routes == [] then !enabled
       else (forall i :: 0 <= i < |routes| ==> routes[i].share != 0)
            && DistinctSubnets(routes) && SumShares(routes) == BILLION
  }

  /** `valid_routes`. */
  method ValidRoutes(routes: seq<Route>, enabled: bool, maxSubnets: nat) returns (ok: bool)
    ensures ok <==> RoutesAccepted(routes, enabled, maxSubnets)
    ensures ok <==> && |routes| <= maxSubnets && (routes == [] ==> !enabled)
                    && (routes != [] ==> SumShares(routes) == 1_000_000_000)
                    && (forall i :: 0 <= i < |routes| ==> routes[i].share > 0)
                    && (forall i, j :: 0 <= i < j < |routes| ==> routes[i].subnet != routes[j].subnet)
  {
    if |routes| > maxSubnets {
      return false;
    }
    if |routes| == 0 {
      return !enabled;
    }
    var sum: nat := 0;
    for i := 0 to |routes|
      invariant forall k :: 0 <= k < i ==> routes[k].share != 0
      invariant DistinctSubnets(routes[..i])
      invariant sum == SumShares(routes[..i])
    {
      assert routes[..i + 1][..i] == routes[..i];
      if routes[i].share == 0 {
        return false;
      }
      if k: nat :| k < i && routes[k].subnet == routes[i].subnet {
        return false;
      }
      sum := sum + routes[i].share;
    }
    assert routes[..|routes|] == routes;
    return sum == BILLION;
  }

  /** Sum of the floored shares of a total. */
  function SumTargets(routes: seq<Route>, total: nat): nat {
    if routes == [] then 0
    else SumTargets(routes[..|routes| - 1], total) + MulFloor(routes[|routes| - 1].share, total)
  }

  lemma {:induction false} SumTargetsBracket(routes: seq<Route>, total: nat)
    ensures BILLION * SumTargets(routes, total) <= SumShares(routes) * total
    ensures SumShares(routes) * total <= BILLION * SumTargets(routes, total) + |routes| * (BILLION - 1)
  {
    if routes != [] {
      var k := |routes| - 1;
      var share := routes[k].share;
      SumTargetsBracket(routes[..k], total);
      Distribute(SumShares(routes[..k]), share, total);
      assert share * total == BILLION * MulFloor(share, total) + share * total % BILLION;
    }
  }

  /** Accepted routes hand out the whole total except for rounding: never more,
      and short by less than one unit per route. */
  lemma SharesNeverExceed(routes: seq<Route>, total: nat)
    requires routes != [] && SumShares(routes) == BILLION
    ensures SumTargets(routes, total) <= total <= SumTargets(routes, total) + |routes| - 1
  {
    SumTargetsBracket(routes, total);
  }
}
