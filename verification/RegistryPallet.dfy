/** The registry pallet: storage and balances updated call by call. */
module RegistryPallet {
  import opened Common
  import opened Descriptor
  import opened Registry

  class MinerRegistry {
    var descriptors: map<Account, Stored>
    var latest: map<Account, Record>
    var participants: map<nat, map<Account, Record>>
    var counts: map<nat, nat>
    var free: map<Account, nat>
    var reserved: map<Account, nat>
    var version: nat
    const fees: Fees

    function View(): State
      reads this
    {
      State(descriptors, latest, participants, counts, free, reserved, version)
    }

    constructor (fees: Fees, free: map<Account, nat>)
      ensures this.fees == fees
      ensures View() == State(map[], map[], map[], map[], free, map[], 2)
      ensures Balanced(View()) && Priced(View(), fees)
    {
      this.fees, this.free := fees, free;
      descriptors, latest, participants, counts, reserved, version := map[], map[], map[], map[], map[], 2;
    }

    method Reserve(who: Account, amount: nat, allows: bool) returns (ok: bool)
      modifies `free, `reserved
      ensures var next := Registry.Reserve(old(View()), who, amount, allows);
              if next.Some? then ok && View() == next.value else !ok && View() == old(View())
    {
      var balance := if who in free then free[who] else 0;
      if balance < amount || !allows {
        return false;
      }
      free := free[who := balance - amount];
      reserved := reserved[who := (if who in reserved then reserved[who] else 0) + amount];
      return true;
    }

    method Unreserve(who: Account, amount: nat) returns (remaining: nat)
      modifies `free, `reserved
      ensures (View(), remaining) == Registry.Unreserve(old(View()), who, amount)
    {
      var held := if who in reserved then reserved[who] else 0;
      var moved := Min(amount, held);
      free := free[who := (if who in free then free[who] else 0) + moved];
      reserved := reserved[who := held - moved];
      return amount - moved;
    }

    /** `remaining` is what `unreserve` could not return; the source asserts that
        it is zero. */
    method ReplaceDescriptor(who: Account, d: Stored, digest: nat, allows: bool)
      returns (r: Result<(), RegistryError>, ghost remaining: nat)
      modifies this
      ensures var next := Registry.ReplaceDescriptor(old(View()), who, d, digest, allows);
              if next.Ok? then r == Ok(()) && View() == next.value else r == Err(next.error) && View() == old(View())
      ensures Covered(old(View())) ==> remaining == 0
    {
      remaining := 0;
      assert Covered(View()) ==> View().Held(who) <= View().Reserved(who);
      var previous := if who in descriptors then descriptors[who].deposit else 0;
      if d.deposit > previous {
        var ok := Reserve(who, d.deposit - previous, allows);
        if !ok {
          return Err(InsufficientBalance), 0;
        }
      } else if previous > d.deposit {
        remaining := Unreserve(who, previous - d.deposit);
      }
      descriptors := descriptors[who := d.(payloadHash := digest)];
      return Ok(()), remaining;
    }

    method SetDescriptor(who: Account, filing: Filing, allows: bool)
      returns (r: Result<(), RegistryError>, ghost remaining: nat)
      modifies this
      ensures var next := Registry.SetDescriptor(old(View()), fees, who, filing, allows);
              if next.Ok? then r == Ok(()) && View() == next.value else r == Err(next.error) && View() == old(View())
      ensures Covered(old(View())) ==> remaining == 0
    {
      var stored := ValidateAndStore(filing.input, filing.now, fees);
      if stored.Err? {
        return Err(stored.error), 0;
      }
      r, remaining := ReplaceDescriptor(who, stored.value, filing.digest, allows);
    }

    method ClearDescriptor(who: Account) returns (r: Result<(), RegistryError>, ghost remaining: nat)
      modifies this
      ensures var next := Registry.ClearDescriptor(old(View()), who);
              if next.Ok? then r == Ok(()) && View() == next.value else r == Err(next.error) && View() == old(View())
      ensures Covered(old(View())) ==> remaining == 0
    {
      if who !in descriptors {
        return Err(DescriptorNotFound), 0;
      }
      assert Covered(View()) ==> View().Held(who) <= View().Reserved(who);
      var deposit := descriptors[who].deposit;
      descriptors := descriptors - {who};
      remaining := Unreserve(who, deposit);
      latest := latest - {who};
      return Ok(()), remaining;
    }

    method Participate(who: Account, record: Record, candidate: nat) returns (r: Result<(), RegistryError>)
      modifies this
      ensures var next := Registry.Participate(old(View()), who, record, candidate);
              if next.Ok? then r == Ok(()) && View() == next.value else r == Err(next.error) && View() == old(View())
    {
      var q := record.qblock;
      if who !in descriptors {
        return Err(DescriptorRequired);
      }
      if q != candidate {
        return Err(InvalidQBlockId);
      }
      if who in latest && latest[who].qblock == q {
        return Err(DuplicateParticipation);
      }
      latest := latest[who := record];
      participants := participants[q := (if q in participants then participants[q] else map[])[who := record]];
      counts := counts[q := SatAdd(if q in counts then counts[q] else 0, 1, U32_MAX)];
      return Ok(());
    }

    /** Take one row out of the map, whichever comes. The iterator hands over
        only rows that decode; the others it drops on the way. */
    method DrainNext(readable: set<Account>) returns (who: Account, ghost remaining: nat)
      requires descriptors != map[]
      modifies this
      ensures who in old(descriptors) && View() == DrainRow(old(View()), who, readable)
      ensures descriptors == old(descriptors) - {who} && |descriptors| < |old(descriptors)|
      ensures Covered(old(View())) ==> remaining == 0
    {
      who :| who in descriptors;
      assert Covered(View()) ==> View().Held(who) <= View().Reserved(who);
      remaining := 0;
      var deposit := descriptors[who].deposit;
      ghost var rows := descriptors;
      descriptors := descriptors - {who};
      assert rows.Keys == descriptors.Keys + {who};
      if who in readable {
        remaining := Unreserve(who, deposit);
      }
    }

    /** The migration's drain loop, in whatever order the rows come; `readable`
        holds the accounts whose row decodes in the new layout. */
    method MigrateToV2(readable: set<Account>) returns (ghost order: seq<Account>, ghost remainders: nat)
      modifies this
      ensures View() == Migrate(old(View()), order, readable)
      ensures old(version) == 1 ==> Lists(order, old(descriptors.Keys)) && descriptors == map[]
      ensures Covered(old(View())) ==> remainders == 0
    {
      order, remainders := [], 0;
      if version != 1 {
        return;
      }
      while descriptors != map[]
        invariant View() == Drain(old(View()), order, readable) && version == 1
        invariant Distinct(order)
        invariant forall a :: a in old(descriptors) <==> a in order || a in descriptors
        invariant forall a :: a in order ==> a !in descriptors
        invariant Covered(old(View())) ==> Covered(View()) && remainders == 0
        decreases |descriptors|
      {
        ghost var before := View();
        ghost var remaining;
        var who;
        who, remaining := DrainNext(readable);
        DrainRowCovered(before, who, readable);
        assert (order + [who])[..|order|] == order;
        order, remainders := order + [who], remainders + remaining;
      }
      version := 2;
    }
  }
}
