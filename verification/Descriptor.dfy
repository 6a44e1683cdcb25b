/** Node descriptors: what they hold, when they are refused and what deposit
    their size calls for. */
module Descriptor {
  import opened Common

  type Text = seq<Byte>

  datatype MinerSpec = MinerSpec(kind: nat, tag: Option<Text>, backend: Option<Text>, deviceId: Option<Text>)

  datatype Gpu = Gpu(index: nat, vendor: Text, name: Text, memoryMb: Option<nat>, utilization: Option<nat>)

  datatype SystemInfo = SystemInfo(os: Text, release: Text, machine: Text,
                                   logicalCores: Option<nat>, physicalCores: Option<nat>, cpuBrand: Text, cpuArch: Text,
                                   memoryMb: Option<nat>, gpus: seq<Gpu>)

  datatype RuntimeInfo = RuntimeInfo(python: Text, quipVersion: Text, protocolVersion: nat, inDocker: bool,
                                     dockerImage: Option<Text>)

  /** The part common to both input versions. */
  datatype Body = Body(nodeId: Text, nodeName: Text, publicHost: Option<Text>, publicPort: Option<nat>,
                       rpcEndpoints: seq<Text>, autoMine: bool, logLevel: nat, miners: seq<MinerSpec>)

  datatype Input = V1(body: Body) | V2(body: Body, systemInfo: Option<SystemInfo>, runtime: Option<RuntimeInfo>)

  datatype Stored = Stored(version: nat, body: Body, systemInfo: Option<SystemInfo>, runtime: Option<RuntimeInfo>,
                           payloadHash: nat, updatedAt: nat, deposit: nat)

  datatype Fees = Fees(base: nat, perByte: nat)

  datatype RegistryError =
    | EmptyNodeId | EmptyNodeName | EmptyPublicHost | InvalidPort | EmptyRpcEndpoint
    | NoMiners | EmptyMinerLabel | EmptyMinerBackend | EmptyMinerDeviceId
    | EmptyOsSystem | EmptyCpuBrand | EmptyCpuArch | EmptyGpuVendor | EmptyGpuName | InvalidGpuUtilization
    | EmptyPythonVersion | EmptyQuipVersion | EmptyDockerImage
    | DescriptorNotFound | DescriptorRequired | InvalidQBlockId | DuplicateParticipation | InsufficientBalance

  // ---------------------------------------------------------------- validation

  function Blank(text: Option<Text>): bool {
    text.Some? && text.value == []
  }

  /** The first complaint about a list of miners, miner by miner. */
  function MinerErrors(miners: seq<MinerSpec>): Option<RegistryError> {
    if miners == [] then None
    else if Blank(miners[0].tag) then Some(EmptyMinerLabel)
    else if Blank(miners[0].backend) then Some(EmptyMinerBackend)
    else if Blank(miners[0].deviceId) then Some(EmptyMinerDeviceId)
    else MinerErrors(miners[1..])
  }

  function GpuErrors(gpus: seq<Gpu>): Option<RegistryError> {
    if gpus == [] then None
    else if gpus[0].vendor == [] then Some(EmptyGpuVendor)
    else if gpus[0].name == [] then Some(EmptyGpuName)
    else if gpus[0].utilization.Some? && gpus[0].utilization.value > 100 then Some(InvalidGpuUtilization)
    else GpuErrors(gpus[1..])
  }

  function BodyErrors(body: Body): Option<RegistryError> {
    if body.nodeId == [] then Some(EmptyNodeId)
    else if body.nodeName == [] then Some(EmptyNodeName)
    else if Blank(body.publicHost) then Some(EmptyPublicHost)
    else if body.publicPort == Some(0) then Some(InvalidPort)
    else if [] in body.rpcEndpoints then Some(EmptyRpcEndpoint)
    else if body.miners == [] then Some(NoMiners)
    else MinerErrors(body.miners)
  }

  function SystemErrors(info: Option<SystemInfo>): Option<RegistryError> {
    if info.None? then None
    else if info.value.os == [] then Some(EmptyOsSystem)
    else if info.value.cpuBrand == [] then Some(EmptyCpuBrand)
    else if info.value.cpuArch == [] then Some(EmptyCpuArch)
    else GpuErrors(info.value.gpus)
  }

  function RuntimeErrors(runtime: Option<RuntimeInfo>): Option<RegistryError> {
    if runtime.None? then None
    else if runtime.value.python == [] then Some(EmptyPythonVersion)
    else if runtime.value.quipVersion == [] then Some(EmptyQuipVersion)
    else if Blank(runtime.value.dockerImage) then Some(EmptyDockerImage)
    else None
  }

  /** The first complaint, in the order the checks are made. */
  function InputErrors(input: Input): Option<RegistryError> {
    match input
    case V1(body) => BodyErrors(body)
    case V2(body, systemInfo, runtime) =>
      if BodyErrors(body).Some? then BodyErrors(body)
      else if SystemErrors(systemInfo).Some? then SystemErrors(systemInfo)
      else RuntimeErrors(runtime)
  }

  ghost predicate WellFormedBody(body: Body) {
    && body.nodeId != [] && body.nodeName != [] && !Blank(body.publicHost) && body.publicPort != Some(0)
    && (forall i :: 0 <= i < |body.rpcEndpoints| ==> body.rpcEndpoints[i] != [])
    && body.miners != []
    && (forall i :: 0 <= i < |body.miners| ==>
          !Blank(body.miners[i].tag) && !Blank(body.miners[i].backend) && !Blank(body.miners[i].deviceId))
  }

  ghost predicate WellFormedSystem(info: SystemInfo) {
    && info.os != [] && info.cpuBrand != [] && info.cpuArch != []
    && (forall i :: 0 <= i < |info.gpus| ==>
          && info.gpus[i].vendor != [] && info.gpus[i].name != []
          && (info.gpus[i].utilization.Some? ==> info.gpus[i].utilization.value <= 100))
  }

  ghost predicate WellFormedRuntime(runtime: RuntimeInfo) {
    runtime.python != [] && runtime.quipVersion != [] && !Blank(runtime.dockerImage)
  }

  /** What an accepted input looks like, whatever order the checks come in. */
  ghost predicate WellFormed(input: Input) {
    && WellFormedBody(input.body)
    && (input.V2? && input.systemInfo.Some? ==> WellFormedSystem(input.systemInfo.value))
    && (input.V2? && input.runtime.Some? ==> WellFormedRuntime(input.runtime.value))
  }

  lemma {:induction false} MinersAcceptedIff(miners: seq<MinerSpec>)
    ensures MinerErrors(miners).None? <==>
            forall i :: 0 <= i < |miners| ==>
              !Blank(miners[i].tag) && !Blank(miners[i].backend) && !Blank(miners[i].deviceId)
  {
    if miners != [] {
      MinersAcceptedIff(miners[1..]);
      assert miners == [miners[0]] + miners[1..];
    }
  }

  lemma {:induction false} GpusAcceptedIff(gpus: seq<Gpu>)
    ensures GpuErrors(gpus).None? <==>
            forall i :: 0 <= i < |gpus| ==>
              && gpus[i].vendor != [] && gpus[i].name != []
              && (gpus[i].utilization.Some? ==> gpus[i].utilization.value <= 100)
  {
    if gpus != [] {
      GpusAcceptedIff(gpus[1..]);
      assert gpus == [gpus[0]] + gpus[1..];
    }
  }

  /** The chain of checks refuses an input exactly when it is not well formed. */
  lemma InputAcceptedIff(input: Input)
    ensures InputErrors(input).None? <==> WellFormed(input)
  {
    MinersAcceptedIff(input.body.miners);
    if input.V2? && input.systemInfo.Some? {
      GpusAcceptedIff(input.systemInfo.value.gpus);
    }
  }

  // ---------------------------------------------------------------- byte counts

  function Size(text: Option<Text>): nat {
    if text.Some? then |text.value| else 0
  }

  function EndpointBytes(endpoints: seq<Text>): nat {
    if endpoints == [] then 0 else EndpointBytes(endpoints[..|endpoints| - 1]) + |endpoints[|endpoints| - 1]|
  }

  function MinerBytes(miners: seq<MinerSpec>): nat {
    if miners == [] then 0
    else
      var m := miners[|miners| - 1];
      MinerBytes(miners[..|miners| - 1]) + Size(m.tag) + Size(m.backend) + Size(m.deviceId)
  }

  function GpuBytes(gpus: seq<Gpu>): nat {
    if gpus == [] then 0
    else GpuBytes(gpus[..|gpus| - 1]) + |gpus[|gpus| - 1].vendor| + |gpus[|gpus| - 1].name|
  }

  function BodyBytes(body: Body): nat {
    |body.nodeId| + |body.nodeName| + Size(body.publicHost) + EndpointBytes(body.rpcEndpoints) + MinerBytes(body.miners)
  }

  function SystemBytes(info: SystemInfo): nat {
    |info.os| + |info.release| + |info.machine| + |info.cpuBrand| + |info.cpuArch| + GpuBytes(info.gpus)
  }

  function RuntimeBytes(runtime: RuntimeInfo): nat {
    |runtime.python| + |runtime.quipVersion| + Size(runtime.dockerImage)
  }

  /** Variable-length bytes of a whole descriptor, without any saturation. */
  function TotalBytes(body: Body, systemInfo: Option<SystemInfo>, runtime: Option<RuntimeInfo>): nat {
    BodyBytes(body)
    + (if systemInfo.Some? then SystemBytes(systemInfo.value) else 0)
    + (if runtime.Some? then RuntimeBytes(runtime.value) else 0)
  }

  /** Saturating addition. */
  function SatAdd(a: nat, b: nat, limit: nat): nat {
    Min(a + b, limit)
  }

  function Deposit(fees: Fees, payload: nat): nat {
    SatAdd(fees.base, Min(fees.perByte * payload, U128_MAX), U128_MAX)
  }

  /** The deposit a stored descriptor calls for, from its own bytes. */
  function DepositOf(fees: Fees, d: Stored): nat {
    Deposit(fees, Min(TotalBytes(d.body, d.systemInfo, d.runtime), U32_MAX))
  }

  // ---------------------------------------------------------------- the counting loops

  method DescriptorPayloadLen(body: Body) returns (len: nat)
    ensures len == Min(BodyBytes(body), U32_MAX)
  {
    var bytes := SatAdd(|body.nodeId|, |body.nodeName|, USIZE_MAX);
    if body.publicHost.Some? {
      bytes := SatAdd(bytes, |body.publicHost.value|, USIZE_MAX);
    }
    ghost var head := |body.nodeId| + |body.nodeName| + Size(body.publicHost);
    bytes := AddEndpoints(bytes, body.rpcEndpoints, head);
    bytes := AddMiners(bytes, body.miners, head + EndpointBytes(body.rpcEndpoints));
    len := Min(bytes, U32_MAX);
  }

  /** The endpoint loop, continuing a saturated count. */
  method AddEndpoints(start: nat, endpoints: seq<Text>, ghost counted: nat) returns (bytes: nat)
    requires start == Min(counted, USIZE_MAX)
    ensures bytes == Min(counted + EndpointBytes(endpoints), USIZE_MAX)
  {
    bytes := start;
    for i := 0 to |endpoints|
      invariant bytes == Min(counted + EndpointBytes(endpoints[..i]), USIZE_MAX)
    {
      assert endpoints[..i + 1][..i] == endpoints[..i];
      bytes := SatAdd(bytes, |endpoints[i]|, USIZE_MAX);
    }
    assert endpoints[..|endpoints|] == endpoints;
  }

  /** The miner loop, continuing a saturated count. */
  method AddMiners(start: nat, miners: seq<MinerSpec>, ghost counted: nat) returns (bytes: nat)
    requires start == Min(counted, USIZE_MAX)
    ensures bytes == Min(counted + MinerBytes(miners), USIZE_MAX)
  {
    bytes := start;
    for i := 0 to |miners|
      invariant bytes == Min(counted + MinerBytes(miners[..i]), USIZE_MAX)
    {
      assert miners[..i + 1][..i] == miners[..i];
      var m := miners[i];
      if m.tag.Some? {
        bytes := SatAdd(bytes, |m.tag.value|, USIZE_MAX);
      }
      if m.backend.Some? {
        bytes := SatAdd(bytes, |m.backend.value|, USIZE_MAX);
      }
      if m.deviceId.Some? {
        bytes := SatAdd(bytes, |m.deviceId.value|, USIZE_MAX);
      }
    }
    assert miners[..|miners|] == miners;
  }

  method SystemInfoPayloadLen(info: SystemInfo) returns (len: nat)
    ensures len == Min(SystemBytes(info), U32_MAX)
  {
    var bytes := Min(|info.os| + |info.release| + |info.machine| + |info.cpuBrand| + |info.cpuArch|, USIZE_MAX);
    ghost var head := |info.os| + |info.release| + |info.machine| + |info.cpuBrand| + |info.cpuArch|;
    for i := 0 to |info.gpus|
      invariant bytes == Min(head + GpuBytes(info.gpus[..i]), USIZE_MAX)
    {
      assert info.gpus[..i + 1][..i] == info.gpus[..i];
      bytes := SatAdd(SatAdd(bytes, |info.gpus[i].vendor|, USIZE_MAX), |info.gpus[i].name|, USIZE_MAX);
    }
    assert info.gpus[..|info.gpus|] == info.gpus;
    len := Min(bytes, U32_MAX);
  }

  method RuntimePayloadLen(runtime: RuntimeInfo) returns (len: nat)
    ensures len == Min(RuntimeBytes(runtime), U32_MAX)
  {
    var bytes := SatAdd(|runtime.python|, |runtime.quipVersion|, USIZE_MAX);
    if runtime.dockerImage.Some? {
      bytes := SatAdd(bytes, |runtime.dockerImage.value|, USIZE_MAX);
    }
    len := Min(bytes, U32_MAX);
  }

  /** The running count of the two store paths: the body first, then whatever
      optional parts the input has. The piecewise saturating count loses nothing
      against one saturation of the total. */
  method PayloadLen(body: Body, systemInfo: Option<SystemInfo>, runtime: Option<RuntimeInfo>) returns (payload: nat)
    ensures payload == Min(TotalBytes(body, systemInfo, runtime), U32_MAX)
  {
    payload := DescriptorPayloadLen(body);
    payload := AddSystem(payload, BodyBytes(body), systemInfo);
    payload := AddRuntime(payload, BodyBytes(body) + PartBytes(systemInfo, None), runtime);
    PartsAddUp(body, systemInfo, runtime);
  }

  /** Bytes of the optional parts. */
  ghost function PartBytes(systemInfo: Option<SystemInfo>, runtime: Option<RuntimeInfo>): nat {
    (if systemInfo.Some? then SystemBytes(systemInfo.value) else 0)
    + (if runtime.Some? then RuntimeBytes(runtime.value) else 0)
  }

  lemma PartsAddUp(body: Body, systemInfo: Option<SystemInfo>, runtime: Option<RuntimeInfo>)
    ensures TotalBytes(body, systemInfo, runtime)
            == BodyBytes(body) + PartBytes(systemInfo, None) + PartBytes(None, runtime)
  {
  }

  method AddSystem(start: nat, ghost counted: nat, systemInfo: Option<SystemInfo>) returns (payload: nat)
    requires start == Min(counted, U32_MAX)
    ensures payload == Min(counted + PartBytes(systemInfo, None), U32_MAX)
  {
    payload := start;
    if systemInfo.Some? {
      var extra := SystemInfoPayloadLen(systemInfo.value);
      SaturateOnce(counted, SystemBytes(systemInfo.value), U32_MAX);
      payload := SatAdd(payload, extra, U32_MAX);
    }
  }

  method AddRuntime(start: nat, ghost counted: nat, runtime: Option<RuntimeInfo>) returns (payload: nat)
    requires start == Min(counted, U32_MAX)
    ensures payload == Min(counted + PartBytes(None, runtime), U32_MAX)
  {
    payload := start;
    if runtime.Some? {
      var extra := RuntimePayloadLen(runtime.value);
      SaturateOnce(counted, RuntimeBytes(runtime.value), U32_MAX);
      payload := SatAdd(payload, extra, U32_MAX);
    }
  }

  lemma SaturateOnce(a: nat, b: nat, limit: nat)
    ensures SatAdd(Min(a, limit), Min(b, limit), limit) == Min(a + b, limit)
  {
  }

  /** `validate_and_store_descriptor`: the first complaint, or the record to
      store with its deposit; the payload hash is filled in later. */
  method ValidateAndStore(input: Input, now: nat, fees: Fees) returns (r: Result<Stored, RegistryError>)
    ensures r == if InputErrors(input).Some? then Err(InputErrors(input).value) else Ok(StoredForm(input, now, fees))
    ensures r.Ok? <==> WellFormed(input)
    ensures r.Ok? ==> r.value.deposit == DepositOf(fees, r.value)
    ensures r.Ok? ==>
              && r.value.version == (if input.V1? then 1 else 2) && r.value.body == input.body
              && r.value.systemInfo == (if input.V2? then input.systemInfo else None)
              && r.value.runtime == (if input.V2? then input.runtime else None)
              && r.value.updatedAt == now && r.value.payloadHash == 0
  {
    InputAcceptedIff(input);
    var bad := InputErrors(input);
    if bad.Some? {
      return Err(bad.value);
    }
    match input {
      case V1(body) =>
        var payload := PayloadLen(body, None, None);
        return Ok(Stored(1, body, None, None, 0, now, Deposit(fees, payload)));
      case V2(body, systemInfo, runtime) =>
        var payload := PayloadLen(body, systemInfo, runtime);
        return Ok(Stored(2, body, systemInfo, runtime, 0, now, Deposit(fees, payload)));
    }
  }

  /** The stored form of an accepted input. */
  function StoredForm(input: Input, now: nat, fees: Fees): Stored {
    match input
    case V1(body) =>
      Stored(1, body, None, None, 0, now, Deposit(fees, Min(TotalBytes(body, None, None), U32_MAX)))
    case V2(body, systemInfo, runtime) =>
      Stored(2, body, systemInfo, runtime, 0, now, Deposit(fees, Min(TotalBytes(body, systemInfo, runtime), U32_MAX)))
  }
}
