/** What the entries of a written configuration and the ports of a service say, field by field. */
module ProxyEntries {
  import opened Options
  import opened Text
  import opened Addressing
  import opened ProxyConfig
  import opened ProxyStability

  // ----- Entries by position

  /** The first, and the last, entry of this id. */
  ghost predicate FirstEntry(cs: seq<ConfigService>, id: string, k: int) {
    0 <= k < |cs| && cs[k].id == id && forall i :: 0 <= i < k ==> cs[i].id != id
  }

  ghost predicate LastEntry(cs: seq<ConfigService>, id: string, k: int) {
    0 <= k < |cs| && cs[k].id == id && forall i :: k < i < |cs| ==> cs[i].id != id
  }

  /** getPort answers with the first entry's proxy port. */
  lemma {:induction false} GetPortExactly(cs: seq<ConfigService>, id: string)
    ensures forall k :: FirstEntry(cs, id, k) ==> GetPort(cs, id) == Some(cs[k].proxyPort)
    ensures GetPort(cs, id).None? <==> forall i :: 0 <= i < |cs| ==> cs[i].id != id
  {
    if cs != [] {
      GetPortExactly(cs[1..], id);
      forall k | FirstEntry(cs, id, k) && k > 0 ensures FirstEntry(cs[1..], id, k - 1) {
        assert forall i :: 0 <= i < k - 1 ==> cs[1..][i] == cs[i + 1];
      }
      assert forall i :: 0 <= i < |cs| - 1 ==> cs[1..][i] == cs[i + 1];
      if GetPort(cs, id).None? {
        forall i | 0 <= i < |cs| ensures cs[i].id != id {
          assert i > 0 ==> cs[1..][i - 1] == cs[i];
        }
      }
    }
  }

  /** A reconcile goes by the last entry's. */
  lemma {:induction false} OldPortsExactly(cs: seq<ConfigService>, id: string)
    ensures forall k :: LastEntry(cs, id, k) ==> id in OldPorts(cs) && OldPorts(cs)[id] == cs[k]
    ensures id !in OldPorts(cs) <==> forall i :: 0 <= i < |cs| ==> cs[i].id != id
  {
    if cs != [] {
      var init, last := cs[..|cs| - 1], cs[|cs| - 1];
      OldPortsExactly(init, id);
      assert forall i :: 0 <= i < |init| ==> init[i] == cs[i];
      forall k | LastEntry(cs, id, k) && k < |init| ensures LastEntry(init, id, k) {
      }
      if id !in OldPorts(cs) {
        forall i | 0 <= i < |cs| ensures cs[i].id != id {
          assert i < |init| ==> init[i] == cs[i];
        }
      }
    }
  }

  // ----- What is written

  /** The entry carries the port's id and the device's address, and forwards to the target port if one is set. */
  predicate EntryFor(c: ConfigService, d: Device, p: Port) {
    && c.id == d.name + "-" + Digits(p.port)
    && c.name == DeviceIp(d.offset)
    && c.servicePort == if p.targetPort != 0 then p.targetPort else p.port
  }

  /** A known id has the port of its last stored entry, a new one a port from 3000 up to 5999. */
  ghost predicate PortFrom(c: ConfigService, previous: seq<ConfigService>) {
    && (forall k :: LastEntry(previous, c.id, k) ==> c.proxyPort == previous[k].proxyPort)
    && ((forall i :: 0 <= i < |previous| ==> previous[i].id != c.id) ==> 3000 <= c.proxyPort < 6000)
  }

  lemma {:induction false} BuiltEntry(
      devices: seq<Device>, previous: seq<ConfigService>, built: seq<ConfigService>, i: nat)
      returns (d: Device, p: Port)
    requires Built(Declarations(devices), previous, built) && i < |built|
    ensures Declares(devices, d, p) && EntryFor(built[i], d, p) && PortFrom(built[i], previous)
  {
    d, p := DeclaredSource(ByName(devices), i);
    ByNameMembers(devices);
    OldPortsExactly(previous, built[i].id);
    assert built[i].id == Declarations(devices)[i].id;
    if k :| 0 <= k < |previous| && previous[k].id == built[i].id {
      assert built[i].id in OldPorts(previous);
    }
  }

  /** The entry is that of some declared port, and some entry is this port's. */
  ghost predicate IsDue(devices: seq<Device>, c: ConfigService) {
    exists d, p :: Declares(devices, d, p) && EntryFor(c, d, p)
  }

  ghost predicate HasEntry(stored: seq<ConfigService>, d: Device, p: Port) {
    exists c :: c in stored && EntryFor(c, d, p)
  }

  ghost predicate SomePort(devices: seq<Device>) {
    exists d, p :: Declares(devices, d, p)
  }

  lemma {:induction false} SomethingBuilt(
      devices: seq<Device>, previous: seq<ConfigService>, stored: seq<ConfigService>, wrote: bool)
      returns (built: seq<ConfigService>)
    requires Steps(devices, previous, stored, wrote) && SomePort(devices)
    ensures Built(Declarations(devices), previous, built) && stored == ByAddress(built)
    ensures forall c :: c in stored <==> c in built
  {
    built := StoredIsBuilt(devices, previous, stored, wrote);
    var d, p :| Declares(devices, d, p);
    var k := BuiltTarget(devices, previous, built, d, p);
  }

  lemma {:induction false} EntryIsDue(
      devices: seq<Device>, previous: seq<ConfigService>, stored: seq<ConfigService>, wrote: bool, c: ConfigService)
    requires Steps(devices, previous, stored, wrote) && SomePort(devices) && c in stored
    ensures PortFrom(c, previous) && IsDue(devices, c)
  {
    var built := SomethingBuilt(devices, previous, stored, wrote);
    assert c in built;
    var i :| 0 <= i < |built| && built[i] == c;
    var d, p := BuiltEntry(devices, previous, built, i);
  }

  lemma {:induction false} PortHasEntry(
      devices: seq<Device>, previous: seq<ConfigService>, stored: seq<ConfigService>, wrote: bool, d: Device, p: Port)
    requires Steps(devices, previous, stored, wrote) && Declares(devices, d, p)
    ensures HasEntry(stored, d, p)
  {
    var built := SomethingBuilt(devices, previous, stored, wrote);
    var i := BuiltTarget(devices, previous, built, d, p);
    assert built[i] in built;
    assert built[i] in stored && EntryFor(built[i], d, p);
  }

  lemma {:induction false} EntriesSorted(
      devices: seq<Device>, previous: seq<ConfigService>, stored: seq<ConfigService>, wrote: bool, i: nat, j: nat)
    requires Steps(devices, previous, stored, wrote) && SomePort(devices) && i < j < |stored|
    ensures LessEq(stored[i].name, stored[j].name)
  {
    var built := SomethingBuilt(devices, previous, stored, wrote);
    SortSorts(built, SERVICE_KEY);
    assert LessEq(SERVICE_KEY(stored[i]), SERVICE_KEY(stored[j]));
  }

  /**
   * With any port declared, the list stored after a reconcile, written or found to be right: every
   * entry is that of a declared port, every declared port has its entry, and they are in the order of
   * their addresses.
   */
  lemma {:induction false} StoredEntries(
      devices: seq<Device>, previous: seq<ConfigService>, stored: seq<ConfigService>, wrote: bool)
    requires Steps(devices, previous, stored, wrote) && SomePort(devices)
    ensures forall c :: c in stored ==> PortFrom(c, previous) && IsDue(devices, c)
    ensures forall d, p :: Declares(devices, d, p) ==> HasEntry(stored, d, p)
    ensures forall i, j :: 0 <= i < j < |stored| ==> LessEq(stored[i].name, stored[j].name)
  {
    forall c | c in stored ensures PortFrom(c, previous) && IsDue(devices, c) {
      EntryIsDue(devices, previous, stored, wrote, c);
    }
    forall d, p | Declares(devices, d, p) ensures HasEntry(stored, d, p) {
      PortHasEntry(devices, previous, stored, wrote, d, p);
    }
    forall i, j | 0 <= i < j < |stored| ensures LessEq(stored[i].name, stored[j].name) {
      EntriesSorted(devices, previous, stored, wrote, i, j);
    }
  }

  /** What is written replaces another list; what is not leaves the list as it was; and no ports write nothing. */
  lemma {:induction false} WrittenOrNot(
      devices: seq<Device>, previous: seq<ConfigService>, stored: seq<ConfigService>, wrote: bool)
    requires Steps(devices, previous, stored, wrote)
    ensures wrote <==> stored != previous
    ensures (forall d :: d in devices ==> d.ports == []) ==> !wrote
  {
    var built := StoredIsBuilt(devices, previous, stored, wrote);
    if wrote && built != [] {
      var d, p := BuiltEntry(devices, previous, built, 0);
    }
  }

  // ----- The device's service

  /** The service port of a declared one: its own name and port, and the proxy port stored first for it. */
  ghost predicate ServiceFor(sp: ServicePort, services: seq<ConfigService>, device: string, p: Port) {
    && sp.name == device + "-" + Digits(p.port) && sp.port == p.port
    && forall k :: FirstEntry(services, device + "-" + Digits(p.port), k) ==> sp.targetPort == services[k].proxyPort
  }

  /**
   * There is a service exactly when every port is found in the configuration, and then with one
   * service port for each, in order.
   */
  lemma {:induction false} ServiceExactly(services: seq<ConfigService>, device: string, ports: seq<Port>)
    ensures ServicePorts(services, device, ports).Some? <==> forall i :: 0 <= i < |ports| ==>
      exists k :: 0 <= k < |services| && services[k].id == PortId(device, ports[i].port)
    ensures ServicePorts(services, device, ports).Some? ==>
      var sps := ServicePorts(services, device, ports).value;
      |sps| == |ports| && forall i :: 0 <= i < |ports| ==> ServiceFor(sps[i], services, device, ports[i])
  {
    if forall i :: 0 <= i < |ports| ==> GetPort(services, PortId(device, ports[i].port)).Some? {
      ServicePortsFound(services, device, ports);
    } else {
      var i :| 0 <= i < |ports| && GetPort(services, PortId(device, ports[i].port)).None?;
      MissingPortFails(services, device, ports, i);
    }
    forall i | 0 <= i < |ports| {
      GetPortExactly(services, PortId(device, ports[i].port));
    }
  }
}
