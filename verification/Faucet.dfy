/** The budgeted faucet in front of the emission controller and its one-way
    fuse. */
module Faucet {
  import opened Common
  import opened Emission
  import opened EmissionRuns

  datatype Status = Enabled | PermanentlyDisabled | Paused

  /** The two origins the runtime lets near the faucet. */
  datatype Origin = Signed(who: Account) | Foundation

  const FAUCET_VERSION: nat := 1

  /** Faucet storage; a missing state reads as permanently disabled. */
  datatype Fuse = Fuse(state: Option<Status>, authority: Option<Account>, version: nat) {
    function Current(): Status {
      if state.Some? then state.value else PermanentlyDisabled
    }

    /** The operational key, or the foundation directly. */
    predicate MayMint(origin: Origin) {
      origin.Foundation? || authority == Some(origin.who)
    }
  }

  /** Faucet and controller storage side by side. */
  datatype World = World(fuse: Fuse, chain: Chain)

  function Mint(w: World, origin: Origin, who: Account, amount: nat, accepts: bool): Result<World, DispatchError> {
    if !w.fuse.MayMint(origin) then Err(BadOrigin)
    else if w.fuse.Current() != Enabled then Err(Disabled)
    else
      var minted := MintFaucet(w.chain, who, amount, accepts);
      if minted.Err? then Err(minted.error) else Ok(w.(chain := minted.value))
  }

  function SetAuthority(w: World, origin: Origin, authority: Option<Account>): Result<World, DispatchError> {
    if !origin.Foundation? then Err(BadOrigin)
    else Ok(w.(fuse := w.fuse.(authority := authority)))
  }

  function Disable(w: World, origin: Origin): Result<World, DispatchError> {
    if !w.fuse.MayMint(origin) then Err(BadOrigin)
    else if w.fuse.Current() != Enabled then Err(Disabled)
    else Ok(w.(fuse := w.fuse.(state := Some(PermanentlyDisabled))))
  }

  /** `on_runtime_upgrade`: legacy storage is closed without a key; an explicit
      fuse is preserved. */
  function UpgradeFuse(fuse: Fuse): Fuse {
    if fuse.version >= FAUCET_VERSION then fuse
    else Fuse(if fuse.state == Some(PermanentlyDisabled) then fuse.state else Some(Paused), None, FAUCET_VERSION)
  }

  // ---------------------------------------------------------------- single calls

  /** A mint succeeds exactly for the foundation or the current key, on an enabled
      faucet, for an amount the controller mints. A stranger is told so first, then
      that the faucet is closed. */
  lemma MintIff(w: World, origin: Origin, who: Account, amount: nat, accepts: bool)
    ensures var r, c := Mint(w, origin, who, amount, accepts), w.chain;
            var authorised := origin.Foundation? || w.fuse.authority == Some(origin.who);
            && (r.Ok? <==> authorised && w.fuse.state == Some(Enabled) && accepts
                           && 0 < amount <= c.faucetBudget - c.faucetIssued
                           && c.faucetIssued + amount <= U128_MAX && c.issuance + amount <= U128_MAX)
            && (!authorised ==> r == Err(BadOrigin))
            && (authorised && w.fuse.state != Some(Enabled) ==> r == Err(Disabled))
            && (r.Ok? ==> r.value.fuse == w.fuse)
  {
  }

  /** Only the foundation changes the key; afterwards exactly the new key, if any,
      may mint besides the foundation, and nothing else has changed. */
  lemma SetAuthorityRotates(w: World, origin: Origin, authority: Option<Account>, who: Account)
    ensures var r := SetAuthority(w, origin, authority);
            && (r.Ok? <==> origin.Foundation?) && (r.Err? ==> r.error == BadOrigin)
            && (r.Ok? ==>
                  && (r.value.fuse.MayMint(Signed(who)) <==> authority == Some(who))
                  && r.value.fuse.MayMint(Foundation)
                  && r.value.fuse.state == w.fuse.state && r.value.chain == w.chain
                  && r.value.fuse.version == w.fuse.version)
  {
  }

  /** The key and the foundation can blow the fuse of an enabled faucet, once. */
  lemma DisableIff(w: World, origin: Origin)
    ensures var r := Disable(w, origin);
            var authorised := origin.Foundation? || w.fuse.authority == Some(origin.who);
            && (r.Ok? <==> authorised && w.fuse.state == Some(Enabled))
            && (r.Err? ==> r.error == if authorised then Disabled else BadOrigin)
            && (r.Ok? ==> r.value == w.(fuse := w.fuse.(state := Some(PermanentlyDisabled))))
            && (r.Ok? ==> Disable(r.value, origin) == Err(Disabled))
  {
  }

  /** Legacy storage comes out closed and without a key, an explicit fuse blown and
      anything else paused; storage already at version 1 is left alone. */
  lemma LegacyUpgradeCloses(fuse: Fuse, who: Account)
    ensures var f := UpgradeFuse(fuse);
            && (fuse.version >= 1 ==> f == fuse)
            && (fuse.version == 0 ==>
                  && f.version == 1 && !f.MayMint(Signed(who))
                  && f.state == Some(if fuse.state == Some(PermanentlyDisabled) then PermanentlyDisabled else Paused))
            && UpgradeFuse(f) == f
  {
  }

  // ---------------------------------------------------------------- runs

  datatype FaucetCall =
    | CallMint(origin: Origin, who: Account, amount: nat, accepts: bool)
    | CallSetAuthority(origin: Origin, authority: Option<Account>)
    | CallDisable(origin: Origin)
    | CallUpgrade
    | CallController(call: Call)

  function Settled(w: World, r: Result<World, DispatchError>): World {
    if r.Ok? then r.value else w
  }

  /** One step of the two pallets together. The controller's faucet entry has no
      caller but `Mint`. */
  function FaucetStep(w: World, call: FaucetCall): World {
    match call
    case CallMint(origin, who, amount, accepts) => Settled(w, Mint(w, origin, who, amount, accepts))
    case CallSetAuthority(origin, authority) => Settled(w, SetAuthority(w, origin, authority))
    case CallDisable(origin) => Settled(w, Disable(w, origin))
    case CallUpgrade => w.(fuse := UpgradeFuse(w.fuse))
    case CallController(inner) => if inner.OnFaucet? then w else w.(chain := Step(w.chain, inner))
  }

  function FaucetRun(w: World, calls: seq<FaucetCall>): World {
    if calls == [] then w
    else FaucetStep(FaucetRun(w, calls[..|calls| - 1]), calls[|calls| - 1])
  }

  lemma ControllerLeavesFaucet(c: Chain, call: Call)
    requires !call.OnFaucet?
    ensures Step(c, call).faucetIssued == c.faucetIssued && Step(c, call).faucetBudget == c.faucetBudget
  {
    if call.OnAccrue? && c.startAt.Some? {
      var entitled := Schedule.Entitlement(call.annual, Elapsed(call.now, c.startAt.value));
      if entitled.Some? {
        RoutesFrame(c, entitled.value, c.routes, call.deposits, |c.routes|);
      }
    }
  }

  /** What any one step does to the fuse and the faucet counter. */
  lemma FuseStep(w: World, call: FaucetCall)
    ensures var w' := FaucetStep(w, call);
            && (w'.fuse.Current() == Enabled ==> w.fuse.Current() == Enabled)
            && (w.fuse.state == Some(PermanentlyDisabled) ==> w'.fuse.state == Some(PermanentlyDisabled))
            && (w'.chain.faucetIssued != w.chain.faucetIssued ==>
                  w.fuse.Current() == Enabled && call.CallMint? && w.fuse.MayMint(call.origin)
                  && w'.chain.faucetIssued == w.chain.faucetIssued + call.amount <= w.chain.faucetBudget)
            && w'.chain.faucetBudget == w.chain.faucetBudget
  {
    if call.CallController? && !call.call.OnFaucet? {
      ControllerLeavesFaucet(w.chain, call.call);
    }
  }

  /** No run opens a closed faucet, un-blows an explicit fuse, or mints from a
      closed faucet. */
  lemma {:induction false} ClosedStaysClosed(w: World, calls: seq<FaucetCall>)
    requires w.fuse.Current() != Enabled
    ensures var w' := FaucetRun(w, calls);
            && w'.fuse.Current() != Enabled
            && (w.fuse.state == Some(PermanentlyDisabled) ==> w'.fuse.state == Some(PermanentlyDisabled))
            && w'.chain.faucetIssued == w.chain.faucetIssued
  {
    if calls != [] {
      ClosedStaysClosed(w, calls[..|calls| - 1]);
      FuseStep(FaucetRun(w, calls[..|calls| - 1]), calls[|calls| - 1]);
    }
  }

  /** Faucet issuance only grows and never passes the budget, in any run. */
  lemma {:induction false} FaucetWithinBudget(w: World, calls: seq<FaucetCall>)
    requires w.chain.faucetIssued <= w.chain.faucetBudget
    ensures var w' := FaucetRun(w, calls);
            w.chain.faucetIssued <= w'.chain.faucetIssued <= w'.chain.faucetBudget == w.chain.faucetBudget
  {
    if calls != [] {
      FaucetWithinBudget(w, calls[..|calls| - 1]);
      FuseStep(FaucetRun(w, calls[..|calls| - 1]), calls[|calls| - 1]);
    }
  }

  lemma {:induction false} RunConcat(w: World, first: seq<FaucetCall>, then_: seq<FaucetCall>)
    ensures FaucetRun(w, first + then_) == FaucetRun(FaucetRun(w, first), then_)
  {
    if then_ == [] {
      assert first + then_ == first;
    } else {
      var k := |then_| - 1;
      RunConcat(w, first, then_[..k]);
      assert (first + then_)[..|first| + k] == first + then_[..k];
    }
  }

  /** Once `disable` has succeeded, whatever follows, the total the faucet has
      issued is final. */
  lemma DisableIsFinal(w: World, before: seq<FaucetCall>, origin: Origin, after: seq<FaucetCall>)
    requires Disable(FaucetRun(w, before), origin).Ok?
    ensures var w' := FaucetRun(w, before + [CallDisable(origin)] + after);
            && w'.chain.faucetIssued == FaucetRun(w, before).chain.faucetIssued
            && w'.fuse.state == Some(PermanentlyDisabled)
  {
    var calls := before + [CallDisable(origin)];
    RunConcat(w, calls, after);
    assert calls[..|before|] == before;
    ClosedStaysClosed(FaucetRun(w, calls), after);
  }
}
