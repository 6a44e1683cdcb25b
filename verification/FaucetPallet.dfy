/** The faucet pallet over the emission pallet. */
module FaucetPallet {
  import opened Common
  import opened Emission
  import opened EmissionPallet
  import opened Faucet

  class FaucetOps {
    var state: Option<Status>
    var authority: Option<Account>
    var version: nat
    const emissions: Controller

    function View(): World
      reads this, emissions
    {
      World(Fuse(state, authority, version), emissions.View())
    }

    /** Genesis build; an enabled faucet needs a key. */
    constructor (emissions: Controller, state: Status, authority: Option<Account>)
      requires state == Enabled ==> authority.Some?
      ensures this.emissions == emissions
      ensures View() == World(Fuse(Some(state), authority, 1), emissions.View())
    {
      this.emissions := emissions;
      this.state, this.authority, version := Some(state), authority, FAUCET_VERSION;
    }

    method Mint(origin: Origin, who: Account, amount: nat, accepts: bool) returns (r: Result<(), DispatchError>)
      modifies emissions
      ensures var next := Faucet.Mint(old(View()), origin, who, amount, accepts);
              if next.Ok? then r == Ok(()) && View() == next.value else r == Err(next.error) && View() == old(View())
    {
      if !(origin.Foundation? || authority == Some(origin.who)) {
        return Err(BadOrigin);
      }
      if (if state.Some? then state.value else PermanentlyDisabled) != Enabled {
        return Err(Disabled);
      }
      if amount == 0 {
        return Err(ZeroAmount);
      }
      r := emissions.MintFaucet(who, amount, accepts);
    }

    method SetAuthority(origin: Origin, authority: Option<Account>) returns (r: Result<(), DispatchError>)
      modifies `authority
      ensures var next := Faucet.SetAuthority(old(View()), origin, authority);
              if next.Ok? then r == Ok(()) && View() == next.value else r == Err(next.error) && View() == old(View())
    {
      if !origin.Foundation? {
        return Err(BadOrigin);
      }
      this.authority := authority;
      return Ok(());
    }

    method Disable(origin: Origin) returns (r: Result<(), DispatchError>)
      modifies `state
      ensures var next := Faucet.Disable(old(View()), origin);
              if next.Ok? then r == Ok(()) && View() == next.value else r == Err(next.error) && View() == old(View())
    {
      if !(origin.Foundation? || authority == Some(origin.who)) {
        return Err(BadOrigin);
      }
      if (if state.Some? then state.value else PermanentlyDisabled) != Enabled {
        return Err(Disabled);
      }
      state := Some(PermanentlyDisabled);
      return Ok(());
    }

    method OnRuntimeUpgrade()
      modifies this
      ensures View() == old(View()).(fuse := UpgradeFuse(old(View()).fuse))
    {
      if version < FAUCET_VERSION {
        if state != Some(PermanentlyDisabled) {
          state := Some(Paused);
        }
        authority := None;
        version := FAUCET_VERSION;
      }
    }
  }
}
