/** The emission pallet: storage fields updated call by call, each call proved
    to be the corresponding step. */
module EmissionPallet {
  import opened Common
  import opened Schedule
  import opened Emission
  import EmissionLedger

  /** The pallet's storage together with the balances it issues into. */
  class Controller {
    var enabled: bool
    var startAt: Option<nat>
    var routes: seq<Route>
    var subnetIssued: map<nat, nat>
    var scheduledIssued: nat
    var faucetBudget: nat
    var faucetIssued: nat
    var version: nat
    var balances: map<Account, nat>
    var issuance: nat
    var events: seq<Event>

    function View(): Chain
      reads this
    {
      Chain(enabled, startAt, routes, subnetIssued, scheduledIssued, faucetBudget, faucetIssued, version,
            balances, issuance, events)
    }

    /** Genesis build; the source asserts its inputs. */
    constructor (enabled: bool, startAt: Option<nat>, routes: seq<Route>, faucetBudget: nat, annual: nat,
                 maxSubnets: nat, balances: map<Account, nat>, issuance: nat)
      requires RoutesAccepted(routes, enabled, maxSubnets) && annual > 0 && startAt != Some(0)
      ensures View() == Chain(enabled, startAt, routes, map[], 0, faucetBudget, 0, 2, balances, issuance, [])
      ensures issuance == EmissionLedger.SumMap(balances) ==> EmissionLedger.IsGenesis(View())
    {
      this.enabled, this.startAt, this.routes := enabled, startAt, routes;
      subnetIssued, scheduledIssued, faucetIssued := map[], 0, 0;
      this.faucetBudget, version := faucetBudget, VERSION;
      this.balances, this.issuance, events := balances, issuance, [];
    }

    method DepositExact(who: Account, amount: nat, accepts: bool) returns (r: Result<(), DispatchError>)
      modifies `balances, `issuance
      ensures var next := Emission.DepositExact(old(View()), who, amount, accepts);
              if next.Ok? then r == Ok(()) && View() == next.value else r == Err(next.error) && View() == old(View())
    {
      if issuance + amount > U128_MAX {
        return Err(Overflow);
      }
      if !accepts {
        return Err(DepositFailed);
      }
      balances := balances[who := At(balances, who) + amount];
      issuance := issuance + amount;
      return Ok(());
    }

    method FundSubnet(subnet: nat, amount: nat, accepts: bool) returns (r: Result<(), DispatchError>)
      modifies this
      ensures var next := Emission.FundSubnet(old(View()), subnet, amount, accepts);
              if next.Ok? then r == Ok(()) && View() == next.value else r == Err(next.error) && View() == old(View())
    {
      var next := (if subnet in subnetIssued then subnetIssued[subnet] else 0) + amount;
      if next > U128_MAX {
        return Err(Overflow);
      }
      var total := scheduledIssued + amount;
      if total > U128_MAX {
        return Err(Overflow);
      }
      var paid := DepositExact(Pot(subnet), amount, accepts);
      if paid.Err? {
        return paid;
      }
      subnetIssued := subnetIssued[subnet := next];
      scheduledIssued := total;
      events := events + [SubnetFunded(subnet, amount)];
      return Ok(());
    }

    method Accrue(annual: nat, now: nat, accepts: seq<bool>)
      modifies this
      ensures View() == Emission.Accrue(old(View()), annual, now, accepts)
    {
      if !enabled || now == 0 {
        return;
      }
      if startAt.None? {
        startAt := Some(now);
        return;
      }
      var entitled := Entitlement(annual, Elapsed(now, startAt.value));
      if entitled.None? {
        return;
      }
      var total, schedule := entitled.value, routes;
      for k := 0 to |schedule|
        invariant View() == AccrueRoutes(old(View()), total, schedule, accepts, k)
      {
        var subnet := schedule[k].subnet;
        var target := MulFloor(schedule[k].share, total);
        var issued := if subnet in subnetIssued then subnetIssued[subnet] else 0;
        if target > issued {
          var funded := FundSubnet(subnet, target - issued, Takes(accepts, k));
          if funded.Err? {
            events := events + [FundingFailed(subnet, target - issued, funded.error)];
          }
        }
      }
    }

    method MintFaucet(who: Account, amount: nat, accepts: bool) returns (r: Result<(), DispatchError>)
      modifies this
      ensures var next := Emission.MintFaucet(old(View()), who, amount, accepts);
              if next.Ok? then r == Ok(()) && View() == next.value else r == Err(next.error) && View() == old(View())
    {
      if amount == 0 {
        return Err(ZeroAmount);
      }
      var next := faucetIssued + amount;
      if next > U128_MAX {
        return Err(Overflow);
      }
      if next > faucetBudget {
        return Err(BudgetExceeded);
      }
      var paid := DepositExact(who, amount, accepts);
      if paid.Err? {
        return paid;
      }
      faucetIssued := next;
      events := events + [FaucetMinted(who, amount)];
      return Ok(());
    }

    method Pay(minimum: nat, subnet: nat, who: Account, requested: nat, accepts: bool) returns (amount: nat)
      modifies `balances, `events
      ensures (View(), amount) == Emission.Pay(old(View()), minimum, subnet, who, requested, accepts)
    {
      var pot := Pot(subnet);
      var free := At(balances, pot);
      var available := if free <= minimum then 0 else free - minimum;
      amount := Min(requested, available);
      if amount == 0 || pot == who {
        events := events + [RewardUnavailable(subnet, who, requested, None)];
        return 0;
      }
      if !accepts {
        events := events + [RewardUnavailable(subnet, who, requested, Some(TransferFailed))];
        return 0;
      }
      balances := Move(balances, pot, who, amount);
      events := events + [RewardPaid(subnet, who, amount)];
    }

    method OnRuntimeUpgrade(annual: nat, clock: nat)
      modifies `startAt, `version
      ensures View() == Upgrade(old(View()), annual, clock)
    {
      if version >= VERSION {
        return;
      }
      var start := RebasedStart(View(), annual, clock);
      if start.None? {
        return;
      }
      startAt := start.value;
      version := VERSION;
    }
  }
}
