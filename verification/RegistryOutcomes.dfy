/** When each call to the registry succeeds and exactly what it does. */
module RegistryOutcomes {
  import opened Common
  import opened Descriptor
  import opened DescriptorLaws
  import opened Registry
  import opened RegistryRuns

  /** The price of a filing: base fee and fee per byte for all its texts. */
  function Price(input: Input, fees: Fees): nat {
    var systemInfo := if input.V2? then input.systemInfo else None;
    var runtime := if input.V2? then input.runtime else None;
    Min(fees.base + Min(|Concat(AllTexts(input.body, systemInfo, runtime))|, U32_MAX) * fees.perByte, U128_MAX)
  }

  /** A filing succeeds exactly when it is well formed and what its price adds to
      the deposit on record, if anything, can be reserved. */
  lemma SetDescriptorIff(s: State, fees: Fees, who: Account, filing: Filing, allows: bool)
    ensures var r, added := SetDescriptor(s, fees, who, filing, allows), Price(filing.input, fees) - s.Held(who);
            && (r.Ok? <==> WellFormed(filing.input) && (added <= 0 || (allows && added <= s.Free(who))))
            && (r.Err? && WellFormed(filing.input) ==> r.error == InsufficientBalance)
            && (r.Err? && !WellFormed(filing.input) ==> Violates(filing.input, r.error))
  {
    InputAcceptedIff(filing.input);
    StoredDepositIs(filing.input, filing.now, fees);
    if InputErrors(filing.input).Some? {
      FirstComplaint(filing.input, InputErrors(filing.input).value);
    }
  }

  /** It stores the input with its hash, block and price, and moves exactly the
      difference in price between the free and the reserved balance of the filer. */
  lemma SetDescriptorEffect(s: State, fees: Fees, who: Account, filing: Filing, allows: bool)
    requires SetDescriptor(s, fees, who, filing, allows).Ok? && s.Held(who) <= s.Reserved(who)
    ensures var s' := SetDescriptor(s, fees, who, filing, allows).value;
            && who in s'.descriptors && s'.descriptors[who].body == filing.input.body
            && s'.descriptors[who].payloadHash == filing.digest && s'.descriptors[who].updatedAt == filing.now
            && s'.Held(who) == Price(filing.input, fees)
            && s'.Reserved(who) == s.Reserved(who) - s.Held(who) + Price(filing.input, fees)
            && s'.Free(who) == s.Free(who) + s.Held(who) - Price(filing.input, fees)
  {
    StoredDepositIs(filing.input, filing.now, fees);
    ReplaceAccount(s, who, ToStore(filing, fees), filing.digest, allows, who);
  }

  /** Nobody else is touched, nor anything about participation. */
  lemma SetDescriptorElsewhere(s: State, fees: Fees, who: Account, filing: Filing, allows: bool, a: Account)
    requires SetDescriptor(s, fees, who, filing, allows).Ok? && a != who
    ensures var s' := SetDescriptor(s, fees, who, filing, allows).value;
            && s'.Free(a) == s.Free(a) && s'.Reserved(a) == s.Reserved(a)
            && (a in s'.descriptors <==> a in s.descriptors)
            && (a in s.descriptors ==> s'.descriptors[a] == s.descriptors[a])
            && s'.version == s.version && SameParticipation(s, s')
  {
    ReplaceElsewhere(s, who, ToStore(filing, fees), filing.digest, allows, a);
  }

  lemma ReplaceElsewhere(s: State, who: Account, d: Stored, digest: nat, allows: bool, a: Account)
    requires ReplaceDescriptor(s, who, d, digest, allows).Ok? && a != who
    ensures var s' := ReplaceDescriptor(s, who, d, digest, allows).value;
            && s'.Free(a) == s.Free(a) && s'.Reserved(a) == s.Reserved(a)
            && s'.descriptors == s.descriptors[who := d.(payloadHash := digest)]
            && s'.version == s.version && SameParticipation(s, s')
  {
    ReplaceFrame(s, who, d, digest, allows);
  }

  /** Clearing needs a descriptor; it goes, with the latest participation and the
      reserve behind it. */
  lemma ClearDescriptorEffect(s: State, who: Account, a: Account)
    requires s.Held(who) <= s.Reserved(who)
    ensures var r := ClearDescriptor(s, who);
            && (r.Ok? <==> who in s.descriptors) && (r.Err? ==> r.error == DescriptorNotFound)
            && (r.Ok? ==>
                  && r.value.descriptors == s.descriptors - {who} && r.value.latest == s.latest - {who}
                  && r.value.participants == s.participants && r.value.counts == s.counts
                  && r.value.Reserved(a) == s.Reserved(a) - (if a == who then s.Held(who) else 0)
                  && r.value.Free(a) == s.Free(a) + (if a == who then s.Held(who) else 0))
  {
  }

  /** Participation is accepted exactly from an account with a descriptor, for the
      candidate, and not twice in a row; the error is the first that fails. */
  lemma ParticipateIff(s: State, who: Account, record: Record, candidate: nat)
    ensures var r := Participate(s, who, record, candidate);
            var repeated := who in s.latest && s.latest[who].qblock == record.qblock;
            && (r.Ok? <==> who in s.descriptors && record.qblock == candidate && !repeated)
            && (r.Err? ==> r.error == if who !in s.descriptors then DescriptorRequired
                                      else if record.qblock != candidate then InvalidQBlockId
                                      else DuplicateParticipation)
            && (r.Ok? ==> && r.value.descriptors == s.descriptors && r.value.version == s.version
                          && r.value.free == s.free && r.value.reserved == s.reserved)
  {
  }
}
