/** The emission controller: storage, the currency ledger under it, and every
    operation as a step from one chain state to the next. */
module Emission {
  import opened Common
  import opened Schedule

  const VERSION: nat := 2

  /** Pots are derived by hashing the subnet id, so distinct subnets have
      distinct pots and no other account is a pot. */
  datatype Account = Pot(subnet: nat) | Holder(id: nat)

  datatype DispatchError =
    | ZeroAmount | BudgetExceeded | Overflow | DepositFailed | TransferFailed | Disabled | BadOrigin

  datatype Event =
    | SubnetFunded(subnet: nat, amount: nat)
    | FundingFailed(subnet: nat, amount: nat, error: DispatchError)
    | RewardPaid(subnet: nat, who: Account, amount: nat)
    | RewardUnavailable(subnet: nat, who: Account, requested: nat, failure: Option<DispatchError>)
    | FaucetMinted(who: Account, amount: nat)
    | Transferred(source: Account, who: Account, amount: nat)

  datatype Chain = Chain(
    enabled: bool,
    startAt: Option<nat>,
    routes: seq<Route>,
    subnetIssued: map<nat, nat>,
    scheduledIssued: nat,
    faucetBudget: nat,
    faucetIssued: nat,
    version: nat,
    balances: map<Account, nat>,
    issuance: nat,
    events: seq<Event>)
  {
    function Issued(subnet: nat): nat {
      if subnet in subnetIssued then subnetIssued[subnet] else 0
    }

    function Free(who: Account): nat {
      At(balances, who)
    }
  }

  /** Missing entries read as zero. */
  function At(balances: map<Account, nat>, who: Account): nat {
    if who in balances then balances[who] else 0
  }

  /** `deposit_exact`: `accepts` says whether the currency takes the deposit in
      full. A refused deposit leaves nothing behind. */
  function DepositExact(c: Chain, who: Account, amount: nat, accepts: bool): Result<Chain, DispatchError> {
    if c.issuance + amount > U128_MAX then Err(Overflow)
    else if !accepts then Err(DepositFailed)
    else Ok(c.(balances := c.balances[who := c.Free(who) + amount], issuance := c.issuance + amount))
  }

  /** `fund_subnet`, a transaction: all of it or nothing. */
  function FundSubnet(c: Chain, subnet: nat, amount: nat, accepts: bool): Result<Chain, DispatchError> {
    var next := c.Issued(subnet) + amount;
    var total := c.scheduledIssued + amount;
    if next > U128_MAX || total > U128_MAX then Err(Overflow)
    else
      var paid := DepositExact(c, Pot(subnet), amount, accepts);
      if paid.Err? then paid
      else
        Ok(paid.value.(subnetIssued := c.subnetIssued[subnet := next], scheduledIssued := total,
                       events := c.events + [SubnetFunded(subnet, amount)]))
  }

  /** One iteration of the loop in `accrue`. */
  function AccrueRoute(c: Chain, total: nat, route: Route, accepts: bool): Chain {
    Settle(c, route.subnet, MulFloor(route.share, total), accepts)
  }

  /** Bring a counter up to its target, or record the failure to. */
  function Settle(c: Chain, subnet: nat, target: nat, accepts: bool): Chain {
    if target <= c.Issued(subnet) then c
    else
      var amount := target - c.Issued(subnet);
      var funded := FundSubnet(c, subnet, amount, accepts);
      if funded.Ok? then funded.value
      else c.(events := c.events + [FundingFailed(subnet, amount, funded.error)])
  }

  /** Whether the currency takes the k-th deposit of a call. */
  predicate Takes(accepts: seq<bool>, k: nat) {
    k < |accepts| ==> accepts[k]
  }

  /** The first k routes of one accrual. */
  function AccrueRoutes(c: Chain, total: nat, routes: seq<Route>, accepts: seq<bool>, k: nat): Chain
    requires k <= |routes|
  {
    if k == 0 then c
    else AccrueRoute(AccrueRoutes(c, total, routes, accepts, k - 1), total, routes[k - 1], Takes(accepts, k - 1))
  }

  function Elapsed(now: nat, start: nat): nat {
    if now <= start then 0 else now - start
  }

  /** `accrue`. */
  function Accrue(c: Chain, annual: nat, now: nat, accepts: seq<bool>): Chain {
    if !c.enabled || now == 0 then c
    else if c.startAt.None? then c.(startAt := Some(now))
    else
      match Entitlement(annual, Elapsed(now, c.startAt.value))
      case None => c
      case Some(total) => AccrueRoutes(c, total, c.routes, accepts, |c.routes|)
  }

  /** `mint_faucet`, a transaction. */
  function MintFaucet(c: Chain, who: Account, amount: nat, accepts: bool): Result<Chain, DispatchError> {
    var next := c.faucetIssued + amount;
    if amount == 0 then Err(ZeroAmount)
    else if next > U128_MAX then Err(Overflow)
    else if next > c.faucetBudget then Err(BudgetExceeded)
    else
      var paid := DepositExact(c, who, amount, accepts);
      if paid.Err? then paid
      else Ok(paid.value.(faucetIssued := next, events := c.events + [FaucetMinted(who, amount)]))
  }

  /** Moving funds between two accounts. */
  function Move(balances: map<Account, nat>, source: Account, who: Account, amount: nat): map<Account, nat>
    requires source in balances && balances[source] >= amount
  {
    var debited := balances[source := balances[source] - amount];
    debited[who := At(debited, who) + amount]
  }

  /** `SubnetRewards::pay`: the state after it and the amount paid. `accepts`
      says whether the keep-alive transfer goes through. */
  function Pay(c: Chain, minimum: nat, subnet: nat, who: Account, requested: nat, accepts: bool): (Chain, nat) {
    var pot := Pot(subnet);
    var available := if c.Free(pot) <= minimum then 0 else c.Free(pot) - minimum;
    var amount := Min(requested, available);
    if amount == 0 || pot == who then
      (c.(events := c.events + [RewardUnavailable(subnet, who, requested, None)]), 0)
    else if !accepts then
      (c.(events := c.events + [RewardUnavailable(subnet, who, requested, Some(TransferFailed))]), 0)
    else
      (c.(balances := Move(c.balances, pot, who, amount), events := c.events + [RewardPaid(subnet, who, amount)]),
       amount)
  }

  /** A transfer signed by an ordinary account; pots have no key. */
  function Transfer(c: Chain, id: nat, who: Account, amount: nat): Chain {
    if c.Free(Holder(id)) < amount || Holder(id) !in c.balances then c
    else c.(balances := Move(c.balances, Holder(id), who, amount),
            events := c.events + [Transferred(Holder(id), who, amount)])
  }

  /** `rebased_start`: the anchor at which the new curve meets what was paid. */
  function RebasedStart(c: Chain, annual: nat, clock: nat): Option<Option<nat>> {
    if !c.enabled || c.startAt.None? || c.scheduledIssued == 0 then Some(c.startAt)
    else if annual == 0 then None
    else
      var seconds := c.scheduledIssued * YEAR_SECONDS / annual;
      if seconds > U128_MAX then None
      else Some(Some(clock - Min(clock, Min(seconds, U64_MAX))))
  }

  /** `on_runtime_upgrade`. */
  function Upgrade(c: Chain, annual: nat, clock: nat): Chain {
    if c.version >= VERSION then c
    else
      match RebasedStart(c, annual, clock)
      case None => c
      case Some(start) => c.(startAt := start, version := VERSION)
  }
}
