/** What holds over whole runs of the miner registry. */
module RegistryRuns {
  import opened Common
  import opened Descriptor
  import opened Registry

  /** Every call happens while some qblock is the candidate. */
  datatype Call =
    | OnSet(candidate: nat, who: Account, filing: Filing, allows: bool)
    | OnClear(candidate: nat, who: Account)
    | OnParticipate(candidate: nat, who: Account, record: Record)
    | OnMigrate(candidate: nat, order: seq<Account>, readable: set<Account>)

  function OrStay(s: State, r: Result<State, RegistryError>): State {
    if r.Ok? then r.value else s
  }

  /** A failed call leaves the state as it was. */
  function Step(s: State, fees: Fees, call: Call): State {
    match call
    case OnSet(_, who, filing, allows) => OrStay(s, SetDescriptor(s, fees, who, filing, allows))
    case OnClear(_, who) => OrStay(s, ClearDescriptor(s, who))
    case OnParticipate(candidate, who, record) => OrStay(s, Participate(s, who, record, candidate))
    case OnMigrate(_, order, readable) => Migrate(s, order, readable)
  }

  function Run(s: State, fees: Fees, calls: seq<Call>): State
    decreases |calls|
  {
    if calls == [] then s else Run(Step(s, fees, calls[0]), fees, calls[1..])
  }

  // ---------------------------------------------------------------- deposits

  /** Funds of an account, wherever they are. */
  function Funds(s: State, who: Account): nat {
    s.Free(who) + s.Reserved(who)
  }

  ghost predicate SameFunds(s: State, s': State) {
    forall who: Account :: Funds(s', who) == Funds(s, who)
  }

  /** What an account has reserved beyond the deposit on record. */
  function Excess(s: State, who: Account): int {
    s.Reserved(who) - s.Held(who)
  }

  /** The deposit a call drops without returning it: that of a row the migration
      cannot read. */
  function Lost(s: State, call: Call, who: Account): nat {
    if call.OnMigrate? && s.version == 1 && who in call.order && who !in call.readable then s.Held(who) else 0
  }

  function LostOver(s: State, fees: Fees, calls: seq<Call>, who: Account): nat
    decreases |calls|
  {
    if calls == [] then 0
    else Lost(s, calls[0], who) + LostOver(Step(s, fees, calls[0]), fees, calls[1..], who)
  }

  lemma ReserveAccount(s: State, who: Account, amount: nat, a: Account)
    requires s.Free(who) >= amount
    ensures var s' := Reserve(s, who, amount, true).value;
            Funds(s', a) == Funds(s, a) && s'.Reserved(a) == s.Reserved(a) + (if a == who then amount else 0)
  {
  }

  lemma UnreserveAccount(s: State, who: Account, amount: nat, a: Account)
    requires a == who ==> amount <= s.Reserved(who)
    ensures var s' := Unreserve(s, who, amount).0;
            Funds(s', a) == Funds(s, a) && s'.Reserved(a) == s.Reserved(a) - (if a == who then amount else 0)
  {
  }

  lemma ReplaceAccount(s: State, who: Account, d: Stored, digest: nat, allows: bool, a: Account)
    requires Excess(s, a) >= 0
    ensures var s' := OrStay(s, ReplaceDescriptor(s, who, d, digest, allows));
            Excess(s', a) == Excess(s, a) && Funds(s', a) == Funds(s, a)
  {
    var previous := s.Held(who);
    if d.deposit > previous && s.Free(who) >= d.deposit - previous && allows {
      ReserveAccount(s, who, d.deposit - previous, a);
    } else if previous > d.deposit {
      UnreserveAccount(s, who, previous - d.deposit, a);
    }
  }

  lemma ClearAccount(s: State, who: Account, a: Account)
    requires Excess(s, a) >= 0
    ensures var s' := OrStay(s, ClearDescriptor(s, who));
            Excess(s', a) == Excess(s, a) && Funds(s', a) == Funds(s, a)
  {
  }

  lemma DrainRowAccount(s: State, who: Account, readable: set<Account>, a: Account)
    requires Excess(s, a) >= 0
    ensures var s' := DrainRow(s, who, readable);
            && s'.descriptors == s.descriptors - {who} && Funds(s', a) == Funds(s, a)
            && Excess(s', a) == Excess(s, a) + (if a == who && who !in readable then s.Held(a) else 0)
  {
  }

  /** Draining rows in any order: one account's share of it. */
  lemma {:induction false} DrainAccount(s: State, order: seq<Account>, readable: set<Account>, a: Account)
    requires Excess(s, a) >= 0
    ensures var s' := Drain(s, order, readable);
            && (a in s'.descriptors <==> a in s.descriptors && a !in order)
            && (a in s'.descriptors ==> s'.descriptors[a] == s.descriptors[a])
            && Funds(s', a) == Funds(s, a)
            && Excess(s', a) == Excess(s, a) + (if a in order && a !in readable then s.Held(a) else 0)
  {
    if order != [] {
      var k := |order| - 1;
      DrainAccount(s, order[..k], readable, a);
      DrainRowAccount(Drain(s, order[..k], readable), order[k], readable, a);
      assert order == order[..k] + [order[k]];
    }
  }

  /** Every call keeps an account's funds, and changes what is reserved beyond its
      deposit only by what it loses. */
  lemma StepAccount(s: State, fees: Fees, call: Call, a: Account)
    requires Excess(s, a) >= 0
    ensures var s' := Step(s, fees, call);
            Excess(s', a) == Excess(s, a) + Lost(s, call, a) && Funds(s', a) == Funds(s, a)
  {
    match call
    case OnSet(_, who, filing, allows) => ReplaceAccount(s, who, ToStore(filing, fees), filing.digest, allows, a);
    case OnClear(_, who) => ClearAccount(s, who, a);
    case OnParticipate(_, who, record) =>
    case OnMigrate(_, order, readable) => DrainAccount(s, order, readable, a);
  }

  /** Over a whole run an account's funds never change, and what it has reserved
      beyond its deposit grows exactly by what migrations lost. */
  lemma {:induction false} RunAccount(s: State, fees: Fees, calls: seq<Call>, a: Account)
    requires Excess(s, a) >= 0
    ensures var s' := Run(s, fees, calls);
            Excess(s', a) == Excess(s, a) + LostOver(s, fees, calls, a) && Funds(s', a) == Funds(s, a)
    decreases |calls|
  {
    if calls != [] {
      StepAccount(s, fees, calls[0], a);
      RunAccount(Step(s, fees, calls[0]), fees, calls[1..], a);
    }
  }

  /** No run uncovers a deposit, so no `unreserve` of any run leaves a remainder. */
  lemma RunCovered(s: State, fees: Fees, calls: seq<Call>)
    requires Covered(s)
    ensures Covered(Run(s, fees, calls))
  {
    forall a: Account ensures Run(s, fees, calls).Held(a) <= Run(s, fees, calls).Reserved(a) {
      assert s.Held(a) <= s.Reserved(a);
      RunAccount(s, fees, calls, a);
    }
  }

  lemma ReplacePriced(s: State, fees: Fees, who: Account, d: Stored, digest: nat, allows: bool)
    requires Priced(s, fees) && d.deposit == DepositOf(fees, d)
    ensures Priced(OrStay(s, ReplaceDescriptor(s, who, d, digest, allows)), fees)
  {
  }

  lemma StoredDeposit(filing: Filing, fees: Fees)
    ensures ToStore(filing, fees).deposit == DepositOf(fees, ToStore(filing, fees))
  {
  }

  lemma {:induction false} DrainKeepsRows(s: State, order: seq<Account>, readable: set<Account>)
    ensures forall a :: a in Drain(s, order, readable).descriptors ==>
              a in s.descriptors && Drain(s, order, readable).descriptors[a] == s.descriptors[a]
  {
    if order != [] {
      DrainKeepsRows(s, order[..|order| - 1], readable);
    }
  }

  lemma StepPriced(s: State, fees: Fees, call: Call)
    requires Priced(s, fees)
    ensures Priced(Step(s, fees, call), fees)
  {
    match call
    case OnSet(_, who, filing, allows) =>
      StoredDeposit(filing, fees);
      ReplacePriced(s, fees, who, ToStore(filing, fees), filing.digest, allows);
    case OnClear(_, who) =>
    case OnParticipate(_, who, record) =>
    case OnMigrate(_, order, readable) => DrainKeepsRows(s, order, readable);
  }

  lemma {:induction false} RunPriced(s: State, fees: Fees, calls: seq<Call>)
    requires Priced(s, fees)
    ensures Priced(Run(s, fees, calls), fees)
    decreases |calls|
  {
    if calls != [] {
      StepPriced(s, fees, calls[0]);
      RunPriced(Step(s, fees, calls[0]), fees, calls[1..]);
    }
  }

  /** A migration that takes effect can read every row that carries a deposit. */
  ghost predicate ReadsDeposits(s: State, call: Call) {
    call.OnMigrate? && s.version == 1 ==>
      forall a :: a in call.order && a in s.descriptors && a !in call.readable ==> s.descriptors[a].deposit == 0
  }

  ghost predicate Recoverable(s: State, fees: Fees, calls: seq<Call>)
    decreases |calls|
  {
    calls == [] || (ReadsDeposits(s, calls[0]) && Recoverable(Step(s, fees, calls[0]), fees, calls[1..]))
  }

  lemma {:induction false} RecoverableLosesNothing(s: State, fees: Fees, calls: seq<Call>, a: Account)
    requires Recoverable(s, fees, calls)
    ensures LostOver(s, fees, calls, a) == 0
    decreases |calls|
  {
    if calls != [] {
      RecoverableLosesNothing(Step(s, fees, calls[0]), fees, calls[1..], a);
    }
  }

  lemma {:induction false} UnrecoverableLoses(s: State, fees: Fees, calls: seq<Call>) returns (a: Account)
    requires !Recoverable(s, fees, calls)
    ensures LostOver(s, fees, calls, a) > 0
    decreases |calls|
  {
    if ReadsDeposits(s, calls[0]) {
      a := UnrecoverableLoses(Step(s, fees, calls[0]), fees, calls[1..]);
    } else {
      a :| a in calls[0].order && a in s.descriptors && a !in calls[0].readable && s.descriptors[a].deposit != 0;
      assert Lost(s, calls[0], a) > 0;
    }
  }

  /** In every run an account's total funds never change and every stored deposit
      is the one the descriptor's bytes call for. Reserves stay equal to the
      stored deposits exactly if no migration meets a row with a deposit that it
      cannot read. */
  lemma RunSound(s: State, fees: Fees, calls: seq<Call>)
    requires Balanced(s) && Priced(s, fees)
    ensures var s' := Run(s, fees, calls);
            && SameFunds(s, s') && Priced(s', fees)
            && (Balanced(s') <==> Recoverable(s, fees, calls))
  {
    var s' := Run(s, fees, calls);
    RunPriced(s, fees, calls);
    forall a: Account ensures Funds(s', a) == Funds(s, a) && Excess(s', a) == LostOver(s, fees, calls, a) {
      assert s.Reserved(a) == s.Held(a);
      RunAccount(s, fees, calls, a);
    }
    if Recoverable(s, fees, calls) {
      forall a: Account ensures s'.Reserved(a) == s'.Held(a) {
        RecoverableLosesNothing(s, fees, calls, a);
        assert Excess(s', a) == 0;
      }
    } else {
      var a := UnrecoverableLoses(s, fees, calls);
      assert Excess(s', a) > 0;
    }
  }

  // ---------------------------------------------------------------- the migration

  /** The migration leaves no descriptor; an account gets its deposit back exactly
      if its row can be read, and keeps it reserved otherwise. */
  lemma MigrationPerAccount(s: State, order: seq<Account>, readable: set<Account>, who: Account)
    requires Balanced(s) && s.version == 1 && Lists(order, s.descriptors.Keys)
    ensures var s' := Migrate(s, order, readable);
            && who !in s'.descriptors
            && s'.Reserved(who) == (if who in readable then 0 else s.Held(who))
            && s'.Free(who) == s.Free(who) + (if who in readable then s.Held(who) else 0)
  {
    assert s.Reserved(who) == s.Held(who);
    DrainAccount(s, order, readable, who);
    assert who in s.descriptors <==> who in s.descriptors.Keys;
  }

  /** All reserves are released exactly when every row with a deposit could be
      read. */
  lemma MigrationReleasesAllIff(s: State, order: seq<Account>, readable: set<Account>)
    requires Balanced(s) && s.version == 1 && Lists(order, s.descriptors.Keys)
    ensures var s' := Migrate(s, order, readable);
            && s'.descriptors == map[] && s'.version == 2 && SameParticipation(s, s')
            && ((forall who: Account :: s'.Reserved(who) == 0) <==>
                forall who :: who in s.descriptors && s.descriptors[who].deposit > 0 ==> who in readable)
  {
    var s' := Migrate(s, order, readable);
    DrainKeepsParticipation(s, order, readable);
    forall who: Account
      ensures who !in s'.descriptors && s'.Reserved(who) == (if who in readable then 0 else s.Held(who))
    {
      MigrationPerAccount(s, order, readable, who);
    }
    if forall who: Account :: s'.Reserved(who) == 0 {
      forall who | who in s.descriptors && s.descriptors[who].deposit > 0 ensures who in readable {
        assert s'.Reserved(who) == 0;
      }
    }
  }

  /** At any other version the migration does nothing. */
  lemma MigrationIsGated(s: State, order: seq<Account>, readable: set<Account>)
    requires s.version != 1
    ensures Migrate(s, order, readable) == s
  {
  }

  /** After the migration what is stranded stays stranded, whatever is called. */
  lemma {:induction false} StrandedForever(s: State, fees: Fees, calls: seq<Call>, a: Account)
    requires s.version != 1 && Excess(s, a) >= 0
    ensures Excess(Run(s, fees, calls), a) == Excess(s, a) && Run(s, fees, calls).Reserved(a) >= Excess(s, a)
    decreases |calls|
  {
    if calls != [] {
      StepAccount(s, fees, calls[0], a);
      VersionStays(s, fees, calls[0]);
      StrandedForever(Step(s, fees, calls[0]), fees, calls[1..], a);
    }
  }

  lemma VersionStays(s: State, fees: Fees, call: Call)
    requires s.version != 1
    ensures Step(s, fees, call).version == s.version
  {
  }

  /** A history that strands a deposit: a miner files before the upgrade, its row
      does not decode in the new layout, and filing again reserves a second
      deposit for one descriptor. */
  lemma UnreadableRowLocksTwice(filing: Filing, fees: Fees, who: Account, funds: nat, q: nat)
    requires InputErrors(filing.input).None? && ToStore(filing, fees).deposit > 0
    requires funds >= 2 * ToStore(filing, fees).deposit
    ensures var s := State(map[], map[], map[], map[], map[who := funds], map[], 1);
            var file, migrate := OnSet(q, who, filing, true), OnMigrate(q, [who], {});
            var s1, s2, s3 := Run(s, fees, [file]), Run(s, fees, [file, migrate]), Run(s, fees, [file, migrate, file]);
            var deposit := ToStore(filing, fees).deposit;
            && Balanced(s) && Balanced(s1) && Lists([who], s1.descriptors.Keys)
            && s2.descriptors == map[] && s2.Reserved(who) == deposit && !Balanced(s2)
            && s3.Held(who) == deposit && s3.Reserved(who) == 2 * deposit && s3.Free(who) == funds - 2 * deposit
  {
    var s := State(map[], map[], map[], map[], map[who := funds], map[], 1);
    var file, migrate := OnSet(q, who, filing, true), OnMigrate(q, [who], {});
    var s1 := Step(s, fees, file);
    var s2 := Step(s1, fees, migrate);
    FilingSucceeds(s, fees, who, filing, q);
    ThreeCalls(s, fees, file, migrate, file);
    assert [who][..0] == [];
    assert Drain(s1, [who], {}) == DrainRow(s1, who, {});
    FilingSucceeds(s2, fees, who, filing, q);
    assert s2.Reserved(who) != s2.Held(who);
  }

  lemma ThreeCalls(s: State, fees: Fees, a: Call, b: Call, c: Call)
    ensures Run(s, fees, [a]) == Step(s, fees, a)
    ensures Run(s, fees, [a, b]) == Step(Step(s, fees, a), fees, b)
    ensures Run(s, fees, [a, b, c]) == Step(Step(Step(s, fees, a), fees, b), fees, c)
  {
    var s1 := Step(s, fees, a);
    var s2 := Step(s1, fees, b);
    assert [a][1..] == [] && [a, b][1..] == [b] && [a, b, c][1..] == [b, c] && [b, c][1..] == [c];
    assert Run(s2, fees, [c]) == Step(s2, fees, c);
    assert Run(s1, fees, [b]) == s2;
    assert Run(s1, fees, [b, c]) == Run(s2, fees, [c]);
  }

  // ---------------------------------------------------------------- participation counts

  predicate Accepts(s: State, call: Call, q: nat) {
    call.OnParticipate? && call.record.qblock == q && Participate(s, call.who, call.record, call.candidate).Ok?
  }

  /** Accepted participations in q over a run. */
  function AcceptedCount(s: State, fees: Fees, calls: seq<Call>, q: nat): nat
    decreases |calls|
  {
    if calls == [] then 0
    else (if Accepts(s, calls[0], q) then 1 else 0) + AcceptedCount(Step(s, fees, calls[0]), fees, calls[1..], q)
  }

  /** Those accepted from an account that was already indexed for q. */
  function Reentries(s: State, fees: Fees, calls: seq<Call>, q: nat): nat
    decreases |calls|
  {
    if calls == [] then 0
    else
      (if Accepts(s, calls[0], q) && calls[0].who in s.Indexed(q) then 1 else 0)
      + Reentries(Step(s, fees, calls[0]), fees, calls[1..], q)
  }

  lemma {:induction false} DrainKeepsParticipation(s: State, order: seq<Account>, readable: set<Account>)
    ensures var s' := Drain(s, order, readable);
            s'.latest == s.latest && s'.participants == s.participants && s'.counts == s.counts
  {
    if order != [] {
      DrainKeepsParticipation(s, order[..|order| - 1], readable);
    }
  }

  /** Nothing about participation changes. */
  ghost predicate SameParticipation(s: State, s': State) {
    s'.latest == s.latest && s'.participants == s.participants && s'.counts == s.counts
  }

  lemma ReplaceFrame(s: State, who: Account, d: Stored, digest: nat, allows: bool)
    ensures SameParticipation(s, OrStay(s, ReplaceDescriptor(s, who, d, digest, allows)))
  {
  }

  lemma SetFrame(s: State, fees: Fees, who: Account, filing: Filing, allows: bool)
    ensures SameParticipation(s, OrStay(s, SetDescriptor(s, fees, who, filing, allows)))
  {
    ReplaceFrame(s, who, ToStore(filing, fees), filing.digest, allows);
  }

  lemma ClearFrame(s: State, who: Account)
    ensures var s' := OrStay(s, ClearDescriptor(s, who));
            s'.participants == s.participants && s'.counts == s.counts
            && s'.latest == if who in s.descriptors then s.latest - {who} else s.latest
  {
  }

  lemma ParticipateEffect(s: State, who: Account, record: Record, candidate: nat)
    requires Participate(s, who, record, candidate).Ok?
    ensures var s', q := Participate(s, who, record, candidate).value, record.qblock;
            && q == candidate && s'.latest == s.latest[who := record]
            && s'.Count(q) == SatAdd(s.Count(q), 1, U32_MAX) && s'.Indexed(q) == s.Indexed(q)[who := record]
            && (forall p :: p != q ==> s'.Count(p) == s.Count(p) && s'.Indexed(p) == s.Indexed(p))
  {
  }

  /** What one step does to the counter and the index of q. */
  lemma CountStep(s: State, fees: Fees, call: Call, q: nat)
    ensures var s' := Step(s, fees, call);
            && (!Accepts(s, call, q) ==> s'.Count(q) == s.Count(q) && s'.Indexed(q) == s.Indexed(q))
            && (Accepts(s, call, q) ==> s'.Count(q) == SatAdd(s.Count(q), 1, U32_MAX)
                                        && s'.Indexed(q) == s.Indexed(q)[call.who := call.record])
  {
    match call
    case OnSet(_, who, filing, allows) => SetFrame(s, fees, who, filing, allows);
    case OnClear(_, who) => ClearFrame(s, who);
    case OnParticipate(candidate, who, record) =>
      if Participate(s, who, record, candidate).Ok? {
        ParticipateEffect(s, who, record, candidate);
      }
    case OnMigrate(_, order, readable) => DrainKeepsParticipation(s, order, readable);
  }

  lemma MapGrowth(m: map<Account, Record>, who: Account, record: Record)
    ensures |m[who := record]| == |m| + (if who in m then 0 else 1)
  {
    var n := m[who := record];
    if who in m {
      assert n.Keys == m.Keys;
    } else {
      assert n.Keys == m.Keys + {who};
    }
  }

  /** The stored counter is the number of accepted calls, up to its own limit. */
  lemma {:induction false} CounterOverRun(s: State, fees: Fees, calls: seq<Call>, q: nat)
    requires s.Count(q) <= U32_MAX
    ensures Run(s, fees, calls).Count(q) == Min(s.Count(q) + AcceptedCount(s, fees, calls, q), U32_MAX)
    decreases |calls|
  {
    if calls != [] {
      CountStep(s, fees, calls[0], q);
      CounterOverRun(Step(s, fees, calls[0]), fees, calls[1..], q);
    }
  }

  /** The number of accepted calls is the growth of the index plus the
      re-entries. */
  lemma {:induction false} IndexOverRun(s: State, fees: Fees, calls: seq<Call>, q: nat)
    ensures AcceptedCount(s, fees, calls, q)
            == |Run(s, fees, calls).Indexed(q)| - |s.Indexed(q)| + Reentries(s, fees, calls, q)
    decreases |calls|
  {
    if calls != [] {
      IndexStep(s, fees, calls[0], q);
      IndexOverRun(Step(s, fees, calls[0]), fees, calls[1..], q);
    }
  }

  lemma IndexStep(s: State, fees: Fees, call: Call, q: nat)
    ensures |Step(s, fees, call).Indexed(q)|
            == |s.Indexed(q)| + (if Accepts(s, call, q) && call.who !in s.Indexed(q) then 1 else 0)
  {
    CountStep(s, fees, call, q);
    if Accepts(s, call, q) {
      MapGrowth(s.Indexed(q), call.who, call.record);
    }
  }

  /** From an empty index and below saturation: the counter never falls short of
      the number of indexed accounts, and equals it exactly in runs where no
      account already indexed for q is accepted for q again. */
  lemma CountEqualsIndexIff(s: State, fees: Fees, calls: seq<Call>, q: nat)
    requires s.Count(q) == 0 && s.Indexed(q) == map[] && AcceptedCount(s, fees, calls, q) <= U32_MAX
    ensures var s' := Run(s, fees, calls);
            && s'.Count(q) == AcceptedCount(s, fees, calls, q) >= |s'.Indexed(q)|
            && (s'.Count(q) == |s'.Indexed(q)| <==> Reentries(s, fees, calls, q) == 0)
  {
    CounterOverRun(s, fees, calls, q);
    IndexOverRun(s, fees, calls, q);
  }

  // ---------------------------------------------------------------- when someone re-enters

  /** Candidate ids never go back. */
  ghost predicate Forward(calls: seq<Call>) {
    forall i, j :: 0 <= i < j < |calls| ==> calls[i].candidate <= calls[j].candidate
  }

  /** `who` is accepted for q at some point of the run. */
  ghost predicate Returns(s: State, fees: Fees, calls: seq<Call>, who: Account, q: nat)
    decreases |calls|
  {
    calls != [] &&
    ((Accepts(s, calls[0], q) && calls[0].who == who) || Returns(Step(s, fees, calls[0]), fees, calls[1..], who, q))
  }

  /** The call clears the descriptor of an account whose latest participation is
      in q. */
  predicate ClearsParticipant(s: State, call: Call, q: nat) {
    call.OnClear? && call.who in s.descriptors && call.who in s.latest && s.latest[call.who].qblock == q
  }

  /** Somebody clears right after participating in q and is accepted for q again
      later on. */
  ghost predicate Refiles(s: State, fees: Fees, calls: seq<Call>, q: nat)
    decreases |calls|
  {
    calls != [] &&
    ((ClearsParticipant(s, calls[0], q) && Returns(Step(s, fees, calls[0]), fees, calls[1..], calls[0].who, q))
     || Refiles(Step(s, fees, calls[0]), fees, calls[1..], q))
  }

  /** Every latest participation is in the index. */
  ghost predicate LatestIndexed(s: State) {
    forall who :: who in s.latest ==> who in s.Indexed(s.latest[who].qblock)
  }

  /** Whoever is indexed for q and comes back still shows q or something later,
      and candidates are past what anybody shows. */
  ghost predicate Remembered(s: State, fees: Fees, calls: seq<Call>, q: nat) {
    && (forall who :: who in s.Indexed(q) && Returns(s, fees, calls, who, q) ==>
          who in s.latest && s.latest[who].qblock >= q)
    && (s.Indexed(q) != map[] ==> forall i :: 0 <= i < |calls| ==> calls[i].candidate >= q)
    && (forall who, i :: who in s.latest && 0 <= i < |calls| ==> s.latest[who].qblock <= calls[i].candidate)
  }

  lemma RememberedRefuses(s: State, fees: Fees, calls: seq<Call>, q: nat)
    requires calls != [] && Remembered(s, fees, calls, q) && Accepts(s, calls[0], q)
    ensures calls[0].who !in s.Indexed(q)
  {
    assert Returns(s, fees, calls, calls[0].who, q);
  }

  lemma TailCalls(calls: seq<Call>)
    requires calls != [] && Forward(calls)
    ensures Forward(calls[1..])
    ensures forall i :: 0 <= i < |calls[1..]| ==> calls[0].candidate <= calls[1..][i].candidate
  {
  }

  /** Once the candidate is past q nobody is accepted for it. */
  lemma {:induction false} TooLate(s: State, fees: Fees, calls: seq<Call>, who: Account, q: nat)
    requires forall i :: 0 <= i < |calls| ==> calls[i].candidate > q
    ensures !Returns(s, fees, calls, who, q)
    decreases |calls|
  {
    if calls != [] {
      TooLate(Step(s, fees, calls[0]), fees, calls[1..], who, q);
    }
  }

  lemma LatestStep(s: State, fees: Fees, call: Call)
    ensures var s' := Step(s, fees, call);
            match call
            case OnParticipate(candidate, who, record) =>
              if Participate(s, who, record, candidate).Ok?
              then s'.latest == s.latest[who := record] && record.qblock == candidate
              else s'.latest == s.latest
            case OnClear(_, who) => s'.latest == if who in s.descriptors then s.latest - {who} else s.latest
            case _ => s'.latest == s.latest
  {
    match call
    case OnSet(_, who, filing, allows) => SetFrame(s, fees, who, filing, allows);
    case OnClear(_, who) => ClearFrame(s, who);
    case OnParticipate(candidate, who, record) =>
    case OnMigrate(_, order, readable) => DrainKeepsParticipation(s, order, readable);
  }

  lemma RememberedStep(s: State, fees: Fees, calls: seq<Call>, q: nat)
    requires calls != [] && Forward(calls) && !Refiles(s, fees, calls, q) && Remembered(s, fees, calls, q)
    ensures Remembered(Step(s, fees, calls[0]), fees, calls[1..], q)
  {
    var call, rest, s' := calls[0], calls[1..], Step(s, fees, calls[0]);
    TailCalls(calls);
    LatestStep(s, fees, call);
    CountStep(s, fees, call, q);
    forall who | who in s'.Indexed(q) && Returns(s', fees, rest, who, q)
      ensures who in s'.latest && s'.latest[who].qblock >= q
    {
      if who in s.Indexed(q) {
        assert Returns(s, fees, calls, who, q);
        if call.OnClear? && call.who == who && who in s.descriptors {
          assert !ClearsParticipant(s, call, q);
          TooLate(s', fees, rest, who, q);
        }
      }
    }
  }

  lemma {:induction false} NoReentry(s: State, fees: Fees, calls: seq<Call>, q: nat)
    requires Forward(calls) && !Refiles(s, fees, calls, q) && Remembered(s, fees, calls, q)
    ensures Reentries(s, fees, calls, q) == 0
    decreases |calls|
  {
    if calls != [] {
      TailCalls(calls);
      RememberedStep(s, fees, calls, q);
      if Accepts(s, calls[0], q) {
        RememberedRefuses(s, fees, calls, q);
      }
      NoReentry(Step(s, fees, calls[0]), fees, calls[1..], q);
    }
  }

  lemma LatestIndexedStep(s: State, fees: Fees, call: Call)
    requires LatestIndexed(s)
    ensures LatestIndexed(Step(s, fees, call))
  {
    var s' := Step(s, fees, call);
    LatestStep(s, fees, call);
    forall who | who in s'.latest ensures who in s'.Indexed(s'.latest[who].qblock) {
      CountStep(s, fees, call, s'.latest[who].qblock);
    }
  }

  /** An account in the index of q that is accepted for q once more is a
      re-entry. */
  lemma {:induction false} ReturnIsReentry(s: State, fees: Fees, calls: seq<Call>, who: Account, q: nat)
    requires who in s.Indexed(q) && Returns(s, fees, calls, who, q)
    ensures Reentries(s, fees, calls, q) > 0
    decreases |calls|
  {
    if !(Accepts(s, calls[0], q) && calls[0].who == who) {
      CountStep(s, fees, calls[0], q);
      ReturnIsReentry(Step(s, fees, calls[0]), fees, calls[1..], who, q);
    }
  }

  lemma {:induction false} RefilingReenters(s: State, fees: Fees, calls: seq<Call>, q: nat)
    requires LatestIndexed(s) && Refiles(s, fees, calls, q)
    ensures Reentries(s, fees, calls, q) > 0
    decreases |calls|
  {
    var s', rest := Step(s, fees, calls[0]), calls[1..];
    CountStep(s, fees, calls[0], q);
    if ClearsParticipant(s, calls[0], q) && Returns(s', fees, rest, calls[0].who, q) {
      ReturnIsReentry(s', fees, rest, calls[0].who, q);
    } else {
      LatestIndexedStep(s, fees, calls[0]);
      RefilingReenters(s', fees, rest, q);
    }
  }

  /** The exact condition for the counter to be the number of indexed accounts,
      as the pallet intends: nobody clears after participating in q and files and
      participates in q again. Candidates never go back and the counter does not
      saturate. */
  lemma CountIsIndexSizeIff(s: State, fees: Fees, calls: seq<Call>, q: nat)
    requires s.latest == map[] && s.participants == map[] && s.Count(q) == 0
    requires Forward(calls) && AcceptedCount(s, fees, calls, q) <= U32_MAX
    ensures Run(s, fees, calls).Count(q) == |Run(s, fees, calls).Indexed(q)| <==> !Refiles(s, fees, calls, q)
  {
    CountEqualsIndexIff(s, fees, calls, q);
    if Refiles(s, fees, calls, q) {
      RefilingReenters(s, fees, calls, q);
    } else {
      NoReentry(s, fees, calls, q);
    }
  }

  /** The comment that the counter never counts an account twice does not hold
      for an account that clears and files again: clearing forgets the latest
      participation but not the index. */
  lemma RefilingCountsTwice(filing: Filing, fees: Fees, who: Account, record: Record, funds: nat)
    requires InputErrors(filing.input).None? && funds >= ToStore(filing, fees).deposit
    ensures var s := State(map[], map[], map[], map[], map[who := funds], map[], 2);
            var q := record.qblock;
            var calls := [OnSet(q, who, filing, true), OnParticipate(q, who, record), OnClear(q, who),
                          OnSet(q, who, filing, true), OnParticipate(q, who, record)];
            var s' := Run(s, fees, calls);
            s'.Count(q) == 2 && |s'.Indexed(q)| == 1
  {
    var s := State(map[], map[], map[], map[], map[who := funds], map[], 2);
    var q := record.qblock;
    var file, part, clear := OnSet(q, who, filing, true), OnParticipate(q, who, record), OnClear(q, who);
    var s1 := Step(s, fees, file);
    var s2 := Step(s1, fees, part);
    var s3 := Step(s2, fees, clear);
    var s4 := Step(s3, fees, file);
    var s5 := Step(s4, fees, part);
    FilingSucceeds(s, fees, who, filing, q);
    ParticipateEffect(s1, who, record, q);
    ClearSucceeds(s2, fees, who, q);
    FilingSucceeds(s3, fees, who, filing, q);
    ParticipateEffect(s4, who, record, q);
    assert s5.Indexed(q) == map[who := record];
    FiveCalls(s, fees, file, part, clear);
  }

  lemma FiveCalls(s: State, fees: Fees, a: Call, b: Call, c: Call)
    ensures Run(s, fees, [a, b, c, a, b])
            == Step(Step(Step(Step(Step(s, fees, a), fees, b), fees, c), fees, a), fees, b)
  {
    var s1 := Step(s, fees, a);
    var s2 := Step(s1, fees, b);
    var s3 := Step(s2, fees, c);
    var s4 := Step(s3, fees, a);
    assert [a, b, c, a, b][1..] == [b, c, a, b] && [b, c, a, b][1..] == [c, a, b];
    assert [c, a, b][1..] == [a, b] && [a, b][1..] == [b] && [b][1..] == [];
    assert Run(s4, fees, [b]) == Step(s4, fees, b);
    assert Run(s2, fees, [c, a, b]) == Run(s3, fees, [a, b]) == Run(s4, fees, [b]);
    assert Run(s, fees, [a, b, c, a, b]) == Run(s1, fees, [b, c, a, b]) == Run(s2, fees, [c, a, b]);
  }

  /** The parts of the state a filing account can see. */
  lemma FilingSucceeds(s: State, fees: Fees, who: Account, filing: Filing, candidate: nat)
    requires InputErrors(filing.input).None? && who !in s.descriptors && s.Free(who) >= ToStore(filing, fees).deposit
    ensures var s' := Step(s, fees, OnSet(candidate, who, filing, true));
            && who in s'.descriptors && s'.descriptors[who].deposit == ToStore(filing, fees).deposit
            && SameParticipation(s, s')
            && s'.Free(who) == s.Free(who) - ToStore(filing, fees).deposit
            && s'.Reserved(who) == s.Reserved(who) + ToStore(filing, fees).deposit
  {
    ReservingSucceeds(s, who, ToStore(filing, fees), filing.digest);
    SetFrame(s, fees, who, filing, true);
  }

  lemma ReservingSucceeds(s: State, who: Account, d: Stored, digest: nat)
    requires who !in s.descriptors && s.Free(who) >= d.deposit
    ensures var r := ReplaceDescriptor(s, who, d, digest, true);
            r.Ok? && r.value.descriptors == s.descriptors[who := d.(payloadHash := digest)]
            && r.value.Free(who) == s.Free(who) - d.deposit && r.value.Reserved(who) == s.Reserved(who) + d.deposit
  {
  }

  lemma ClearSucceeds(s: State, fees: Fees, who: Account, candidate: nat)
    requires who in s.descriptors && s.Reserved(who) >= s.descriptors[who].deposit
    ensures var s' := Step(s, fees, OnClear(candidate, who));
            && s'.descriptors == s.descriptors - {who} && s'.latest == s.latest - {who}
            && s'.participants == s.participants && s'.counts == s.counts
            && s'.Free(who) == s.Free(who) + s.descriptors[who].deposit
  {
  }
}
