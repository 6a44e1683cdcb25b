/** The miner registry: descriptors with reserved deposits, and participation
    with its reverse index. */
module Registry {
  import opened Common
  import opened Descriptor

  type Account = nat

  datatype Record = Record(qblock: nat, kind: nat, budget: Option<nat>, block: nat)

  /** A submitted descriptor with the hash of its encoding and the block it is
      filed in. */
  datatype Filing = Filing(input: Input, digest: nat, now: nat)

  datatype State = State(
    descriptors: map<Account, Stored>,
    latest: map<Account, Record>,
    participants: map<nat, map<Account, Record>>,
    counts: map<nat, nat>,
    free: map<Account, nat>,
    reserved: map<Account, nat>,
    version: nat)
  {
    function Free(who: Account): nat {
      if who in free then free[who] else 0
    }

    function Reserved(who: Account): nat {
      if who in reserved then reserved[who] else 0
    }

    /** Deposit on record, zero without a descriptor. */
    function Held(who: Account): nat {
      if who in descriptors then descriptors[who].deposit else 0
    }

    function Count(qblock: nat): nat {
      if qblock in counts then counts[qblock] else 0
    }

    function Indexed(qblock: nat): map<Account, Record> {
      if qblock in participants then participants[qblock] else map[]
    }
  }

  /** `reserve`: fails for lack of funds, or for a reason of the currency's own. */
  function Reserve(s: State, who: Account, amount: nat, allows: bool): Option<State> {
    if s.Free(who) < amount || !allows then None
    else Some(s.(free := s.free[who := s.Free(who) - amount], reserved := s.reserved[who := s.Reserved(who) + amount]))
  }

  /** `unreserve`: moves what it can; the remainder is what it could not. */
  function Unreserve(s: State, who: Account, amount: nat): (State, nat) {
    var moved := Min(amount, s.Reserved(who));
    (s.(free := s.free[who := s.Free(who) + moved], reserved := s.reserved[who := s.Reserved(who) - moved]),
     amount - moved)
  }

  /** `replace_descriptor`: reserve or return the difference, then store. */
  function ReplaceDescriptor(s: State, who: Account, d: Stored, digest: nat, allows: bool)
    : Result<State, RegistryError>
  {
    var previous := s.Held(who);
    var descriptors := s.descriptors[who := d.(payloadHash := digest)];
    if d.deposit > previous then
      var reserved := Reserve(s, who, d.deposit - previous, allows);
      if reserved.None? then Err(InsufficientBalance) else Ok(reserved.value.(descriptors := descriptors))
    else if previous > d.deposit then
      Ok(Unreserve(s, who, previous - d.deposit).0.(descriptors := descriptors))
    else Ok(s.(descriptors := descriptors))
  }

  /** What a filing is stored as, before the hash goes in. */
  function ToStore(filing: Filing, fees: Fees): Stored {
    StoredForm(filing.input, filing.now, fees)
  }

  function SetDescriptor(s: State, fees: Fees, who: Account, filing: Filing, allows: bool)
    : Result<State, RegistryError>
  {
    if InputErrors(filing.input).Some? then Err(InputErrors(filing.input).value)
    else ReplaceDescriptor(s, who, ToStore(filing, fees), filing.digest, allows)
  }

  function ClearDescriptor(s: State, who: Account): Result<State, RegistryError> {
    if who !in s.descriptors then Err(DescriptorNotFound)
    else
      var refunded := Unreserve(s, who, s.descriptors[who].deposit).0;
      Ok(refunded.(descriptors := s.descriptors - {who}, latest := s.latest - {who}))
  }

  /** `participate`; `candidate` is the qblock being worked on. */
  function Participate(s: State, who: Account, record: Record, candidate: nat): Result<State, RegistryError> {
    var q := record.qblock;
    if who !in s.descriptors then Err(DescriptorRequired)
    else if q != candidate then Err(InvalidQBlockId)
    else if who in s.latest && s.latest[who].qblock == q then Err(DuplicateParticipation)
    else
      Ok(s.(latest := s.latest[who := record],
            participants := s.participants[q := s.Indexed(q)[who := record]],
            counts := s.counts[q := SatAdd(s.Count(q), 1, U32_MAX)]))
  }

  /** An account's reserve is the deposit of its descriptor. */
  ghost predicate Balanced(s: State) {
    forall who: Account :: s.Reserved(who) == s.Held(who)
  }

  /** Every stored deposit is the one the stored bytes call for. */
  ghost predicate Priced(s: State, fees: Fees) {
    forall who :: who in s.descriptors ==> s.descriptors[who].deposit == DepositOf(fees, s.descriptors[who])
  }

  /** Every reserve covers the deposit on record. */
  ghost predicate Covered(s: State) {
    forall who: Account :: s.Held(who) <= s.Reserved(who)
  }

  /** One row of the v1-to-v2 migration. Every row is dropped; only from one that
      decodes in the new layout can the deposit be read and returned. */
  function DrainRow(s: State, who: Account, readable: set<Account>): State {
    var dropped := s.(descriptors := s.descriptors - {who});
    if who in readable then Unreserve(dropped, who, s.Held(who)).0 else dropped
  }

  lemma DrainRowCovered(s: State, who: Account, readable: set<Account>)
    ensures Covered(s) ==> Covered(DrainRow(s, who, readable))
  {
    var s' := DrainRow(s, who, readable);
    if Covered(s) {
      forall a: Account ensures s'.Held(a) <= s'.Reserved(a) {
        assert s.Held(a) <= s.Reserved(a);
      }
    }
  }

  /** Rows drained in a given order. */
  function Drain(s: State, order: seq<Account>, readable: set<Account>): State {
    if order == [] then s else DrainRow(Drain(s, order[..|order| - 1], readable), order[|order| - 1], readable)
  }

  /** Each key once, in some order. */
  ghost predicate Lists(order: seq<Account>, keys: set<Account>) {
    && Distinct(order)
    && (forall a :: a in order <==> a in keys)
  }

  /** The versioned migration: drains everything, once, in storage order. */
  function Migrate(s: State, order: seq<Account>, readable: set<Account>): State {
    if s.version != 1 then s else Drain(s, order, readable).(version := 2)
  }
}
