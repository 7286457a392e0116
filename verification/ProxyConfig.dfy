/**
 * The device proxy configuration: `reconDevProxyConfig` of the account controller writes it, and
 * `updateServices` and `checkPortsDiffer` of the device controller read it.
 */
module ProxyConfig {
  import opened Options
  import opened Text
  import opened Addressing

  /** Service ports are never negative; 0 stands for an unset target port. */
  datatype Port = Port(port: nat, targetPort: nat)
  datatype Device = Device(name: string, offset: Offset, ports: seq<Port>)

  /** One entry of `config.json`; `name` is the device's address. */
  datatype ConfigService = ConfigService(id: string, name: string, servicePort: nat, proxyPort: int)

  const MIN_PORT := 3000
  const MAX_PORT := 6000

  function PortId(device: string, port: nat): string {
    device + "-" + Digits(port)
  }

  /** An entry without its proxy port: what the devices alone determine. */
  function Declaration(d: Device, p: Port): ConfigService {
    ConfigService(PortId(d.name, p.port), DeviceIp(d.offset),
                  if p.targetPort != 0 then p.targetPort else p.port, 0)
  }

  function DeclaredBy(d: Device, ports: seq<Port>): seq<ConfigService> {
    if ports == [] then [] else DeclaredBy(d, ports[..|ports| - 1]) + [Declaration(d, ports[|ports| - 1])]
  }

  function Declared(devices: seq<Device>): seq<ConfigService> {
    if devices == [] then []
    else
      var d := devices[|devices| - 1];
      Declared(devices[..|devices| - 1]) + DeclaredBy(d, d.ports)
  }

  const DEVICE_KEY: Device -> string := (d: Device) => d.name
  const SERVICE_KEY: ConfigService -> string := (c: ConfigService) => c.name

  function ByName(devices: seq<Device>): seq<Device> {
    SortBy(devices, DEVICE_KEY)
  }

  function ByAddress(configs: seq<ConfigService>): seq<ConfigService> {
    SortBy(configs, SERVICE_KEY)
  }

  /** The old configuration as a map from id: a later entry overwrites an earlier one. */
  function OldPorts(previous: seq<ConfigService>): map<string, ConfigService> {
    if previous == [] then map[]
    else
      var last := previous[|previous| - 1];
      OldPorts(previous[..|previous| - 1])[last.id := last]
  }

  /** One entry per declaration, in order: a known id keeps its port, a new one draws from the range. */
  ghost predicate Built(decls: seq<ConfigService>, previous: seq<ConfigService>, configs: seq<ConfigService>) {
    && |configs| == |decls|
    && forall i :: 0 <= i < |decls| ==>
      && configs[i] == decls[i].(proxyPort := configs[i].proxyPort)
      && if decls[i].id in OldPorts(previous) then configs[i].proxyPort == OldPorts(previous)[decls[i].id].proxyPort
         else MIN_PORT <= configs[i].proxyPort < MAX_PORT
  }

  // ----- The account controller

  predicate IsContained(services: map<string, ConfigService>, port: int) {
    exists id :: id in services && services[id].servicePort == port
  }

  /** `rand.Intn` is any number below its argument; the retry loop gives up after its bound. */
  method TempPort(services: map<string, ConfigService>, id: string) returns (port: int)
    ensures if id in services then port == services[id].proxyPort else MIN_PORT <= port < MAX_PORT
  {
    if id in services {
      return services[id].proxyPort;
    }
    var count := 0;
    port := MIN_PORT;
    while true
      invariant 0 <= count <= MAX_PORT - MIN_PORT + 1
      invariant MIN_PORT <= port < MAX_PORT
      decreases MAX_PORT - MIN_PORT + 1 - count
    {
      var r :| 0 <= r < MAX_PORT - MIN_PORT;
      port := r + MIN_PORT;
      if !IsContained(services, port) || count > MAX_PORT - MIN_PORT {
        break;
      }
      count := count + 1;
    }
  }

  method DeviceConfigs(d: Device, services: map<string, ConfigService>, ghost previous: seq<ConfigService>)
      returns (configs: seq<ConfigService>)
    requires services == OldPorts(previous)
    ensures Built(DeclaredBy(d, d.ports), previous, configs)
  {
    configs := [];
    for j := 0 to |d.ports|
      invariant Built(DeclaredBy(d, d.ports[..j]), previous, configs)
    {
      assert d.ports[..j + 1][..j] == d.ports[..j];
      var port := TempPort(services, PortId(d.name, d.ports[j].port));
      configs := configs + [Declaration(d, d.ports[j]).(proxyPort := port)];
    }
    assert d.ports[..|d.ports|] == d.ports;
  }

  method ById(previous: seq<ConfigService>) returns (configData: map<string, ConfigService>)
    ensures configData == OldPorts(previous)
  {
    configData := map[];
    for i := 0 to |previous|
      invariant configData == OldPorts(previous[..i])
    {
      assert previous[..i + 1][..i] == previous[..i];
      configData := configData[previous[i].id := previous[i]];
    }
    assert previous[..|previous|] == previous;
  }

  method AllConfigs(devices: seq<Device>, services: map<string, ConfigService>, ghost previous: seq<ConfigService>)
      returns (configs: seq<ConfigService>)
    requires services == OldPorts(previous)
    ensures Built(Declared(devices), previous, configs)
  {
    configs := [];
    for i := 0 to |devices|
      invariant Built(Declared(devices[..i]), previous, configs)
    {
      assert devices[..i + 1][..i] == devices[..i];
      var more := DeviceConfigs(devices[i], services, previous);
      BuiltConcat(Declared(devices[..i]), DeclaredBy(devices[i], devices[i].ports), previous, configs, more);
      configs := configs + more;
    }
    assert devices[..|devices|] == devices;
  }

  lemma {:induction false} BuiltConcat(
      d1: seq<ConfigService>, d2: seq<ConfigService>, previous: seq<ConfigService>,
      c1: seq<ConfigService>, c2: seq<ConfigService>)
    requires Built(d1, previous, c1) && Built(d2, previous, c2)
    ensures Built(d1 + d2, previous, c1 + c2)
  {
  }

  /**
   * One reconcile: the stored services afterwards, whether they were written, and whether a failure
   * is reported. The devices are missing if they could not be fetched; `regions` says whether the
   * regions were, which is asked for only after a write.
   */
  method ReconDevProxyConfig(fetched: Option<seq<Device>>, regions: bool, previous: seq<ConfigService>)
      returns (stored: seq<ConfigService>, wrote: bool, failed: bool)
    ensures fetched.Some? ==> Steps(fetched.value, previous, stored, wrote)
    ensures fetched.None? ==> stored == previous && !wrote
    ensures failed <==> fetched.None? || (wrote && !regions)
  {
    if fetched.None? {
      return previous, false, true;
    }
    var configData := ById(previous);
    var configs := AllConfigs(ByName(fetched.value), configData, previous);
    ghost var built := configs;

    configs := ByAddress(configs);
    var equal := previous == configs;
    if |configs| == 0 {
      equal := true;
    }
    stored, wrote, failed := previous, false, false;
    if !equal {
      configs := ByAddress(configs);
      stored, wrote, failed := configs, true, !regions;
    }
  }

  ghost predicate Reconciled(
      built: seq<ConfigService>, previous: seq<ConfigService>, stored: seq<ConfigService>, wrote: bool)
  {
    && (wrote <==> built != [] && previous != ByAddress(built))
    && stored == if wrote then ByAddress(ByAddress(built)) else previous
  }

  /** A reconcile of `devices` may turn the stored list `previous` into `stored`. */
  ghost predicate Steps(devices: seq<Device>, previous: seq<ConfigService>, stored: seq<ConfigService>, wrote: bool) {
    exists built :: Built(Declared(ByName(devices)), previous, built) && Reconciled(built, previous, stored, wrote)
  }

  // ----- The device controller

  datatype ServicePort = ServicePort(name: string, port: nat, targetPort: int)

  function GetPort(services: seq<ConfigService>, id: string): Option<int> {
    if services == [] then None
    else if services[0].id == id then Some(services[0].proxyPort)
    else GetPort(services[1..], id)
  }

  function ServicePorts(services: seq<ConfigService>, device: string, ports: seq<Port>)
      : Option<seq<ServicePort>>
  {
    if ports == [] then Some([])
    else
      var p := ports[|ports| - 1];
      var found := GetPort(services, PortId(device, p.port));
      var rest := ServicePorts(services, device, ports[..|ports| - 1]);
      if rest.None? || found.None? then None
      else Some(rest.value + [ServicePort(PortId(device, p.port), p.port, found.value)])
  }

  const PLACEHOLDER: ServicePort := ServicePort("temp", 80, 0)

  /** The ports of the service `updateServices` applies, or None when it reports an error. */
  method UpdateServices(services: seq<ConfigService>, d: Device) returns (r: Option<seq<ServicePort>>)
    ensures var found := ServicePorts(services, d.name, d.ports);
      r == if found.None? then None else Some(if found.value == [] then [PLACEHOLDER] else found.value)
    ensures d.ports == [] ==> r == Some([ServicePort("temp", 80, 0)])
  {
    var sPorts: seq<ServicePort> := [];
    for i := 0 to |d.ports|
      invariant ServicePorts(services, d.name, d.ports[..i]) == Some(sPorts)
    {
      assert d.ports[..i + 1][..i] == d.ports[..i];
      var proxyPort := GetPort(services, PortId(d.name, d.ports[i].port));
      if proxyPort.None? {
        MissingPortFails(services, d.name, d.ports, i);
        return None;
      }
      sPorts := sPorts + [ServicePort(PortId(d.name, d.ports[i].port), d.ports[i].port, proxyPort.value)];
    }
    assert d.ports[..|d.ports|] == d.ports;
    if |sPorts| == 0 {
      sPorts := sPorts + [PLACEHOLDER];
      assert sPorts == [PLACEHOLDER];
    }
    return Some(sPorts);
  }

  lemma {:induction false} MissingPortFails(
      services: seq<ConfigService>, device: string, ports: seq<Port>, i: nat)
    requires i < |ports| && GetPort(services, PortId(device, ports[i].port)).None?
    ensures ServicePorts(services, device, ports).None?
  {
    if i < |ports| - 1 {
      MissingPortFails(services, device, ports[..|ports| - 1], i);
    }
  }

  predicate PortsDiffer(target: seq<ServicePort>, source: seq<Port>) {
    |target| != |source| || exists i :: 0 <= i < |target| && target[i].port != source[i].port
  }

  method CheckPortsDiffer(target: seq<ServicePort>, source: seq<Port>) returns (differ: bool)
    ensures differ == PortsDiffer(target, source)
    ensures !differ <==> |target| == |source| && forall i :: 0 <= i < |target| ==> target[i].port == source[i].port
  {
    if |target| != |source| {
      return true;
    }
    for i := 0 to |target|
      invariant forall h :: 0 <= h < i ==> target[h].port == source[h].port
    {
      if target[i].port != source[i].port {
        return true;
      }
    }
    return false;
  }
}
