/** What a descriptor costs and what is wrong with a refused one, stated without the
    counting and checking that find it out. */
module DescriptorLaws {
  import opened Common
  import opened Radix
  import opened Descriptor

  // ---------------------------------------------------------------- size

  function Concat(texts: seq<Text>): Text {
    if texts == [] then [] else Concat(texts[..|texts| - 1]) + texts[|texts| - 1]
  }

  function Present(text: Option<Text>): Text {
    if text.Some? then text.value else []
  }

  function MinerTexts(miners: seq<MinerSpec>): seq<Text> {
    if miners == [] then []
    else
      var m := miners[|miners| - 1];
      MinerTexts(miners[..|miners| - 1]) + [Present(m.tag), Present(m.backend), Present(m.deviceId)]
  }

  function GpuTexts(gpus: seq<Gpu>): seq<Text> {
    if gpus == [] then []
    else GpuTexts(gpus[..|gpus| - 1]) + [gpus[|gpus| - 1].vendor, gpus[|gpus| - 1].name]
  }

  /** Every text a descriptor holds. */
  function AllTexts(body: Body, systemInfo: Option<SystemInfo>, runtime: Option<RuntimeInfo>): seq<Text> {
    [body.nodeId, body.nodeName, Present(body.publicHost)] + body.rpcEndpoints + MinerTexts(body.miners)
    + (match systemInfo
       case None => []
       case Some(s) => [s.os, s.release, s.machine, s.cpuBrand, s.cpuArch] + GpuTexts(s.gpus))
    + (match runtime
       case None => []
       case Some(r) => [r.python, r.quipVersion, Present(r.dockerImage)])
  }

  lemma {:induction false} ConcatAppend(s: seq<Text>, t: seq<Text>)
    ensures |Concat(s + t)| == |Concat(s)| + |Concat(t)|
  {
    if t == [] {
      assert s + t == s;
    } else {
      var k := |t| - 1;
      assert (s + t)[..|s| + k] == s + t[..k];
      ConcatAppend(s, t[..k]);
    }
  }

  lemma ConcatThree(a: Text, b: Text, c: Text)
    ensures |Concat([a, b, c])| == |a| + |b| + |c| && |Concat([a, b])| == |a| + |b|
  {
    assert [a, b, c][..2] == [a, b] && [a, b][..1] == [a] && [a][..0] == [];
    assert Concat([a]) == Concat([]) + a;
    assert Concat([a, b]) == Concat([a]) + b;
    assert Concat([a, b, c]) == Concat([a, b]) + c;
  }

  lemma {:induction false} EndpointLength(endpoints: seq<Text>)
    ensures |Concat(endpoints)| == EndpointBytes(endpoints)
  {
    if endpoints != [] {
      EndpointLength(endpoints[..|endpoints| - 1]);
    }
  }

  lemma {:induction false} MinerLength(miners: seq<MinerSpec>)
    ensures |Concat(MinerTexts(miners))| == MinerBytes(miners)
  {
    if miners != [] {
      var k := |miners| - 1;
      var m := miners[k];
      MinerLength(miners[..k]);
      ConcatAppend(MinerTexts(miners[..k]), [Present(m.tag), Present(m.backend), Present(m.deviceId)]);
      ConcatThree(Present(m.tag), Present(m.backend), Present(m.deviceId));
    }
  }

  lemma {:induction false} GpuLength(gpus: seq<Gpu>)
    ensures |Concat(GpuTexts(gpus))| == GpuBytes(gpus)
  {
    if gpus != [] {
      var k := |gpus| - 1;
      GpuLength(gpus[..k]);
      ConcatAppend(GpuTexts(gpus[..k]), [gpus[k].vendor, gpus[k].name]);
      ConcatThree(gpus[k].vendor, gpus[k].name, []);
    }
  }

  lemma BodyLength(body: Body)
    ensures var head := [body.nodeId, body.nodeName, Present(body.publicHost)];
            |Concat(head + body.rpcEndpoints + MinerTexts(body.miners))| == BodyBytes(body)
  {
    var head := [body.nodeId, body.nodeName, Present(body.publicHost)];
    ConcatThree(body.nodeId, body.nodeName, Present(body.publicHost));
    ConcatAppend(head, body.rpcEndpoints);
    ConcatAppend(head + body.rpcEndpoints, MinerTexts(body.miners));
    EndpointLength(body.rpcEndpoints);
    MinerLength(body.miners);
  }

  lemma SystemLength(s: SystemInfo)
    ensures |Concat([s.os, s.release, s.machine, s.cpuBrand, s.cpuArch] + GpuTexts(s.gpus))| == SystemBytes(s)
  {
    var three, two := [s.os, s.release, s.machine], [s.cpuBrand, s.cpuArch];
    assert [s.os, s.release, s.machine, s.cpuBrand, s.cpuArch] == three + two;
    ConcatThree(s.os, s.release, s.machine);
    ConcatThree(s.cpuBrand, s.cpuArch, []);
    ConcatAppend(three, two);
    ConcatAppend(three + two, GpuTexts(s.gpus));
    GpuLength(s.gpus);
  }

  /** The counted bytes are the length of all texts put together. */
  lemma BytesAreAllTexts(body: Body, systemInfo: Option<SystemInfo>, runtime: Option<RuntimeInfo>)
    ensures TotalBytes(body, systemInfo, runtime) == |Concat(AllTexts(body, systemInfo, runtime))|
  {
    var front := [body.nodeId, body.nodeName, Present(body.publicHost)] + body.rpcEndpoints + MinerTexts(body.miners);
    var middle := match systemInfo
                  case None => []
                  case Some(s) => [s.os, s.release, s.machine, s.cpuBrand, s.cpuArch] + GpuTexts(s.gpus);
    var back := match runtime
                case None => []
                case Some(r) => [r.python, r.quipVersion, Present(r.dockerImage)];
    BodyLength(body);
    if systemInfo.Some? {
      SystemLength(systemInfo.value);
    }
    if runtime.Some? {
      ConcatThree(runtime.value.python, runtime.value.quipVersion, Present(runtime.value.dockerImage));
    }
    ConcatAppend(front, middle);
    ConcatAppend(front + middle, back);
  }

  // ---------------------------------------------------------------- price

  /** An empty payload costs the base fee, each further byte the fee per byte, up
      to the largest balance. */
  lemma DepositLaws(fees: Fees, n: nat)
    ensures Deposit(fees, 0) == Min(fees.base, U128_MAX)
    ensures Deposit(fees, n + 1) == Min(Deposit(fees, n) + fees.perByte, U128_MAX)
  {
    Distribute(n, 1, fees.perByte);
  }

  /** So a descriptor costs the base fee and the fee per byte for all its texts,
      counted up to 32 bits and capped at 128. */
  lemma StoredDepositIs(input: Input, now: nat, fees: Fees)
    ensures var systemInfo := if input.V2? then input.systemInfo else None;
            var runtime := if input.V2? then input.runtime else None;
            var bytes := Min(|Concat(AllTexts(input.body, systemInfo, runtime))|, U32_MAX);
            StoredForm(input, now, fees).deposit == Min(fees.base + bytes * fees.perByte, U128_MAX)
  {
    var systemInfo := if input.V2? then input.systemInfo else None;
    var runtime := if input.V2? then input.runtime else None;
    BytesAreAllTexts(input.body, systemInfo, runtime);
    LinearDeposit(fees, Min(TotalBytes(input.body, systemInfo, runtime), U32_MAX));
  }

  lemma {:induction false} LinearDeposit(fees: Fees, n: nat)
    ensures Deposit(fees, n) == Min(fees.base + n * fees.perByte, U128_MAX)
  {
    if n > 0 {
      LinearDeposit(fees, n - 1);
      DepositLaws(fees, n - 1);
      Distribute(n - 1, 1, fees.perByte);
    } else {
      DepositLaws(fees, 0);
    }
  }

  // ---------------------------------------------------------------- complaints

  /** What each complaint is about. */
  ghost predicate BodyViolates(body: Body, e: RegistryError) {
    match e
    case EmptyNodeId => body.nodeId == []
    case EmptyNodeName => body.nodeName == []
    case EmptyPublicHost => body.publicHost == Some([])
    case InvalidPort => body.publicPort == Some(0)
    case EmptyRpcEndpoint => [] in body.rpcEndpoints
    case NoMiners => body.miners == []
    case EmptyMinerLabel => exists m :: m in body.miners && m.tag == Some([])
    case EmptyMinerBackend => exists m :: m in body.miners && m.backend == Some([])
    case EmptyMinerDeviceId => exists m :: m in body.miners && m.deviceId == Some([])
    case _ => false
  }

  ghost predicate SystemViolates(info: SystemInfo, e: RegistryError) {
    match e
    case EmptyOsSystem => info.os == []
    case EmptyCpuBrand => info.cpuBrand == []
    case EmptyCpuArch => info.cpuArch == []
    case EmptyGpuVendor => exists g :: g in info.gpus && g.vendor == []
    case EmptyGpuName => exists g :: g in info.gpus && g.name == []
    case InvalidGpuUtilization => exists g :: g in info.gpus && Overstated(g)
    case _ => false
  }

  ghost predicate RuntimeViolates(runtime: RuntimeInfo, e: RegistryError) {
    match e
    case EmptyPythonVersion => runtime.python == []
    case EmptyQuipVersion => runtime.quipVersion == []
    case EmptyDockerImage => runtime.dockerImage == Some([])
    case _ => false
  }

  ghost predicate Violates(input: Input, e: RegistryError) {
    || BodyViolates(input.body, e)
    || (input.V2? && input.systemInfo.Some? && SystemViolates(input.systemInfo.value, e))
    || (input.V2? && input.runtime.Some? && RuntimeViolates(input.runtime.value, e))
  }

  /** The order of the checks; those on one miner or one GPU go together. */
  function Rank(e: RegistryError): nat {
    match e
    case EmptyNodeId => 0
    case EmptyNodeName => 1
    case EmptyPublicHost => 2
    case InvalidPort => 3
    case EmptyRpcEndpoint => 4
    case NoMiners => 5
    case EmptyMinerLabel => 6
    case EmptyMinerBackend => 6
    case EmptyMinerDeviceId => 6
    case EmptyOsSystem => 7
    case EmptyCpuBrand => 8
    case EmptyCpuArch => 9
    case EmptyGpuVendor => 10
    case EmptyGpuName => 10
    case InvalidGpuUtilization => 10
    case EmptyPythonVersion => 11
    case EmptyQuipVersion => 12
    case EmptyDockerImage => 13
    case _ => 14
  }

  /** The first miner with something blank, and the first blank on it. */
  ghost predicate MinerComplaint(miners: seq<MinerSpec>, e: RegistryError, k: nat)
    requires k < |miners|
  {
    && (forall i :: 0 <= i < k ==>
          !Blank(miners[i].tag) && !Blank(miners[i].backend) && !Blank(miners[i].deviceId))
    && match e
       case EmptyMinerLabel => Blank(miners[k].tag)
       case EmptyMinerBackend => !Blank(miners[k].tag) && Blank(miners[k].backend)
       case EmptyMinerDeviceId => !Blank(miners[k].tag) && !Blank(miners[k].backend) && Blank(miners[k].deviceId)
       case _ => false
  }

  lemma {:induction false} FirstMinerComplaint(miners: seq<MinerSpec>) returns (k: nat)
    requires MinerErrors(miners).Some?
    ensures k < |miners| && MinerComplaint(miners, MinerErrors(miners).value, k)
  {
    if Blank(miners[0].tag) || Blank(miners[0].backend) || Blank(miners[0].deviceId) {
      k := 0;
    } else {
      var before := FirstMinerComplaint(miners[1..]);
      k := before + 1;
      assert forall i :: 0 < i < |miners| ==> miners[i] == miners[1..][i - 1];
    }
  }

  /** The first GPU with a bad entry, and the first bad entry on it. */
  ghost predicate GpuComplaint(gpus: seq<Gpu>, e: RegistryError, k: nat)
    requires k < |gpus|
  {
    && (forall i :: 0 <= i < k ==> gpus[i].vendor != [] && gpus[i].name != [] && !Overstated(gpus[i]))
    && match e
       case EmptyGpuVendor => gpus[k].vendor == []
       case EmptyGpuName => gpus[k].vendor != [] && gpus[k].name == []
       case InvalidGpuUtilization => gpus[k].vendor != [] && gpus[k].name != [] && Overstated(gpus[k])
       case _ => false
  }

  predicate Overstated(gpu: Gpu) {
    gpu.utilization.Some? && gpu.utilization.value > 100
  }

  lemma {:induction false} FirstGpuComplaint(gpus: seq<Gpu>) returns (k: nat)
    requires GpuErrors(gpus).Some?
    ensures k < |gpus| && GpuComplaint(gpus, GpuErrors(gpus).value, k)
  {
    if gpus[0].vendor == [] || gpus[0].name == [] || Overstated(gpus[0]) {
      k := 0;
    } else {
      var before := FirstGpuComplaint(gpus[1..]);
      k := before + 1;
      assert forall i :: 0 < i < |gpus| ==> gpus[i] == gpus[1..][i - 1];
    }
  }

  /** A complaint about the miners is justified; without one there is nothing to
      complain about. */
  lemma MinersJustified(body: Body)
    ensures match MinerErrors(body.miners)
            case None => !BodyViolates(body, EmptyMinerLabel) && !BodyViolates(body, EmptyMinerBackend)
                         && !BodyViolates(body, EmptyMinerDeviceId)
            case Some(e) => Rank(e) == 6 && BodyViolates(body, e)
  {
    MinersAcceptedIff(body.miners);
    if MinerErrors(body.miners).Some? {
      var k := FirstMinerComplaint(body.miners);
      assert body.miners[k] in body.miners;
    }
  }

  lemma GpusJustified(info: SystemInfo)
    ensures match GpuErrors(info.gpus)
            case None => !SystemViolates(info, EmptyGpuVendor) && !SystemViolates(info, EmptyGpuName)
                         && !SystemViolates(info, InvalidGpuUtilization)
            case Some(e) => Rank(e) == 10 && SystemViolates(info, e)
  {
    GpusAcceptedIff(info.gpus);
    if GpuErrors(info.gpus).Some? {
      var k := FirstGpuComplaint(info.gpus);
      assert info.gpus[k] in info.gpus;
    }
  }

  /** A complaint of one group of checks is justified and the first of its group;
      without one the group finds nothing wrong. */
  lemma BodyJustified(body: Body, other: RegistryError)
    ensures match BodyErrors(body)
            case None => !BodyViolates(body, other)
            case Some(e) => Rank(e) <= 6 && BodyViolates(body, e)
                            && (Rank(other) < Rank(e) ==> !BodyViolates(body, other))
  {
    MinersJustified(body);
  }

  lemma SystemJustified(info: SystemInfo, other: RegistryError)
    ensures match SystemErrors(Some(info))
            case None => !SystemViolates(info, other)
            case Some(e) => 7 <= Rank(e) <= 10 && SystemViolates(info, e)
                            && (Rank(other) < Rank(e) ==> !SystemViolates(info, other))
  {
    GpusJustified(info);
  }

  lemma RuntimeJustified(runtime: RuntimeInfo, other: RegistryError)
    ensures match RuntimeErrors(Some(runtime))
            case None => !RuntimeViolates(runtime, other)
            case Some(e) => 11 <= Rank(e) <= 13 && RuntimeViolates(runtime, e)
                            && (Rank(other) < Rank(e) ==> !RuntimeViolates(runtime, other))
  {
  }

  /** The complaint about a refused input names something that is wrong with it, and
      nothing checked earlier is wrong. */
  lemma FirstComplaint(input: Input, other: RegistryError)
    requires InputErrors(input).Some?
    ensures var e := InputErrors(input).value;
            Violates(input, e) && (Rank(other) < Rank(e) ==> !Violates(input, other))
  {
    BodyJustified(input.body, other);
    if input.V2? && input.systemInfo.Some? {
      SystemJustified(input.systemInfo.value, other);
      assert SystemViolates(input.systemInfo.value, other) ==> 7 <= Rank(other);
    }
    if input.V2? && input.runtime.Some? {
      RuntimeJustified(input.runtime.value, other);
      assert RuntimeViolates(input.runtime.value, other) ==> 11 <= Rank(other);
    }
  }
}
