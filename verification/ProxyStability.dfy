/** What the proxy configuration keeps over runs, and that its two readers and writer agree. */
module ProxyStability {
  import opened Options
  import opened Text
  import opened Addressing
  import opened ProxyConfig

  ghost predicate DistinctIds(cs: seq<ConfigService>) {
    forall i, j :: 0 <= i < j < |cs| ==> cs[i].id != cs[j].id
  }

  /** Names are keys of the API server. */
  ghost predicate DistinctNames(devices: seq<Device>) {
    forall i, j :: 0 <= i < j < |devices| ==> devices[i].name != devices[j].name
  }

  /** No device lists a port twice. */
  ghost predicate PortsOnce(devices: seq<Device>) {
    forall i :: 0 <= i < |devices| ==> EachOnce(devices[i].ports)
  }

  ghost predicate EachOnce(ports: seq<Port>) {
    forall j, h :: 0 <= j < h < |ports| ==> ports[j].port != ports[h].port
  }

  /** What a reconcile declares, in the order in which it does. */
  function Declarations(devices: seq<Device>): seq<ConfigService> {
    Declared(ByName(devices))
  }

  ghost predicate Declares(devices: seq<Device>, d: Device, p: Port) {
    d in devices && p in d.ports
  }

  // ----- Ids tell declared ports apart

  /** "name-port" determines both parts, even though names may contain dashes. */
  lemma {:induction false} PortIdInjective(n1: string, p1: nat, n2: string, p2: nat)
    ensures PortId(n1, p1) == PortId(n2, p2) <==> n1 == n2 && p1 == p2
  {
    if PortId(n1, p1) == PortId(n2, p2) {
      SplitLast(n1, n2, Digits(p1), Digits(p2), '-');
      DigitsInjective(p1, p2);
    }
  }

  lemma {:induction false} DeclaredByAt(d: Device, ports: seq<Port>, i: nat)
    requires i < |DeclaredBy(d, ports)|
    ensures |DeclaredBy(d, ports)| == |ports| && DeclaredBy(d, ports)[i] == Declaration(d, ports[i])
  {
    DeclaredByLength(d, ports);
    if i < |ports| - 1 {
      DeclaredByLength(d, ports[..|ports| - 1]);
      DeclaredByAt(d, ports[..|ports| - 1], i);
    } else {
      DeclaredByLength(d, ports[..|ports| - 1]);
    }
  }

  lemma {:induction false} DeclaredByLength(d: Device, ports: seq<Port>)
    ensures |DeclaredBy(d, ports)| == |ports|
  {
    if ports != [] {
      DeclaredByLength(d, ports[..|ports| - 1]);
    }
  }

  /** Every declaration comes from a port of a listed device ... */
  lemma {:induction false} DeclaredSource(devices: seq<Device>, i: nat) returns (d: Device, p: Port)
    requires i < |Declared(devices)|
    ensures Declares(devices, d, p) && Declared(devices)[i] == Declaration(d, p)
  {
    var init, last := devices[..|devices| - 1], devices[|devices| - 1];
    if i < |Declared(init)| {
      d, p := DeclaredSource(init, i);
      assert d in devices;
    } else {
      var j := i - |Declared(init)|;
      DeclaredByAt(last, last.ports, j);
      d, p := last, last.ports[j];
    }
  }

  /** ... and every port of a listed device is declared. */
  lemma {:induction false} DeclaredTarget(devices: seq<Device>, d: Device, p: Port) returns (i: nat)
    requires Declares(devices, d, p)
    ensures i < |Declared(devices)| && Declared(devices)[i] == Declaration(d, p)
  {
    var init, last := devices[..|devices| - 1], devices[|devices| - 1];
    if d in init {
      i := DeclaredTarget(init, d, p);
    } else {
      var j :| 0 <= j < |d.ports| && d.ports[j] == p;
      DeclaredByLength(d, d.ports);
      DeclaredByAt(d, d.ports, j);
      i := |Declared(init)| + j;
    }
  }

  lemma {:induction false} OwnIds(d: Device)
    requires EachOnce(d.ports)
    ensures DistinctIds(DeclaredBy(d, d.ports))
  {
    DeclaredByLength(d, d.ports);
    var own := DeclaredBy(d, d.ports);
    forall i, j | 0 <= i < j < |own| ensures own[i].id != own[j].id {
      DeclaredByAt(d, d.ports, i);
      DeclaredByAt(d, d.ports, j);
      PortIdInjective(d.name, d.ports[i].port, d.name, d.ports[j].port);
    }
  }

  /** Devices of other names declare other ids. */
  lemma {:induction false} OtherIds(devices: seq<Device>, last: Device, i: nat, j: nat)
    requires i < |Declared(devices)| && j < |DeclaredBy(last, last.ports)|
    requires forall d :: d in devices ==> d.name != last.name
    ensures Declared(devices)[i].id != DeclaredBy(last, last.ports)[j].id
  {
    DeclaredByLength(last, last.ports);
    DeclaredByAt(last, last.ports, j);
    var d, p := DeclaredSource(devices, i);
    PortIdInjective(d.name, p.port, last.name, last.ports[j].port);
  }

  lemma {:induction false} OnceIsDistinct(devices: seq<Device>)
    requires DistinctNames(devices) && PortsOnce(devices)
    ensures DistinctIds(Declared(devices))
  {
    if devices != [] {
      var init, last := devices[..|devices| - 1], devices[|devices| - 1];
      OnceIsDistinct(init);
      OwnIds(last);
      var a: seq<ConfigService> := Declared(init);
      var b: seq<ConfigService> := DeclaredBy(last, last.ports);
      forall i, j | 0 <= i < |a| && 0 <= j < |b| ensures a[i].id != b[j].id {
        OtherIds(init, last, i, j);
      }
      DistinctConcat(a, b);
    }
  }

  lemma {:induction false} DistinctConcat(a: seq<ConfigService>, b: seq<ConfigService>)
    requires DistinctIds(a) && DistinctIds(b)
    requires forall i, j :: 0 <= i < |a| && 0 <= j < |b| ==> a[i].id != b[j].id
    ensures DistinctIds(a + b)
  {
  }

  /** A port listed twice is declared twice. */
  lemma {:induction false} TwiceDeclared(devices: seq<Device>, i: nat, j: nat, h: nat)
    requires i < |devices| && j < h < |devices[i].ports|
    requires devices[i].ports[j].port == devices[i].ports[h].port
    ensures !DistinctIds(Declared(devices))
  {
    var init, last := devices[..|devices| - 1], devices[|devices| - 1];
    var a, b := Declared(init), DeclaredBy(last, last.ports);
    assert Declared(devices) == a + b;
    if i < |init| {
      TwiceDeclared(init, i, j, h);
      var k, l :| 0 <= k < l < |a| && a[k].id == a[l].id;
      assert (a + b)[k].id == (a + b)[l].id;
    } else {
      DeclaredByLength(last, last.ports);
      DeclaredByAt(last, last.ports, j);
      DeclaredByAt(last, last.ports, h);
      assert (a + b)[|a| + j].id == (a + b)[|a| + h].id;
    }
  }

  // ----- Sorting devices

  lemma {:induction false} ByNameMembers(devices: seq<Device>)
    ensures forall d :: d in ByName(devices) <==> d in devices
  {
    SortElements(devices, DEVICE_KEY);
    assert forall d :: d in ByName(devices) <==> d in multiset(ByName(devices));
  }

  lemma {:induction false} ByNameDistinct(devices: seq<Device>)
    requires DistinctNames(devices)
    ensures DistinctNames(ByName(devices)) && DistinctKeys(devices, DEVICE_KEY)
  {
    var sorted := ByName(devices);
    assert DistinctKeys(devices, DEVICE_KEY);
    DistinctBySort(devices, DEVICE_KEY);
    forall i, j | 0 <= i < j < |sorted| ensures sorted[i].name != sorted[j].name {
      assert DEVICE_KEY(sorted[i]) != DEVICE_KEY(sorted[j]);
    }
  }

  /** Declared ids are distinct exactly when no device lists a port twice. */
  lemma {:induction false} DeclaredOnceExactly(devices: seq<Device>)
    requires DistinctNames(devices)
    ensures DistinctIds(Declarations(devices)) <==> PortsOnce(devices)
  {
    var sorted := ByName(devices);
    ByNameMembers(devices);
    ByNameDistinct(devices);
    if PortsOnce(devices) {
      forall i | 0 <= i < |sorted| ensures EachOnce(sorted[i].ports) {
        assert sorted[i] in devices;
      }
      OnceIsDistinct(sorted);
    } else {
      var i, j, h :| 0 <= i < |devices| && 0 <= j < h < |devices[i].ports|
        && devices[i].ports[j].port == devices[i].ports[h].port;
      assert devices[i] in sorted;
      var k :| 0 <= k < |sorted| && sorted[k] == devices[i];
      TwiceDeclared(sorted, k, j, h);
    }
  }

  /** The order in which the API lists the devices does not matter. */
  lemma {:induction false} ListOrderIrrelevant(a: seq<Device>, b: seq<Device>)
    requires DistinctNames(a) && multiset(a) == multiset(b)
    ensures ByName(a) == ByName(b)
  {
    SortElements(a, DEVICE_KEY);
    SortElements(b, DEVICE_KEY);
    SortSorts(a, DEVICE_KEY);
    SortSorts(b, DEVICE_KEY);
    ByNameDistinct(a);
    DistinctBySort(a, DEVICE_KEY);
    SortedOrderUnique(ByName(a), ByName(b), DEVICE_KEY);
  }

  // ----- Sorting entries

  lemma {:induction false} ByAddressMembers(cs: seq<ConfigService>)
    ensures |ByAddress(cs)| == |cs| && multiset(ByAddress(cs)) == multiset(cs)
    ensures forall c :: c in ByAddress(cs) <==> c in cs
    ensures ByAddress(ByAddress(cs)) == ByAddress(cs)
  {
    SortElements(cs, SERVICE_KEY);
    SortSorts(cs, SERVICE_KEY);
    SortOfSorted(ByAddress(cs), SERVICE_KEY);
    assert forall c :: c in ByAddress(cs) <==> c in multiset(ByAddress(cs));
  }

  // ----- Looking ids up: GetPort finds the first entry of an id, OldPorts the last

  lemma {:induction false} OldPortsLookup(cs: seq<ConfigService>, id: string)
    ensures id in OldPorts(cs) <==> exists c :: c in cs && c.id == id
    ensures id in OldPorts(cs) ==> OldPorts(cs)[id] in cs && OldPorts(cs)[id].id == id
  {
    if cs != [] {
      var init, last := cs[..|cs| - 1], cs[|cs| - 1];
      OldPortsLookup(init, id);
      assert cs == init + [last];
    }
  }

  lemma {:induction false} GetPortLookup(cs: seq<ConfigService>, id: string)
    ensures GetPort(cs, id).Some? <==> exists c :: c in cs && c.id == id
    ensures GetPort(cs, id).Some? ==> exists c :: c in cs && c.id == id && c.proxyPort == GetPort(cs, id).value
  {
    if cs != [] {
      GetPortLookup(cs[1..], id);
      assert cs == [cs[0]] + cs[1..];
    }
  }

  /** All entries of this id have this proxy port, and there is one. */
  ghost predicate AllAt(cs: seq<ConfigService>, id: string, port: int) {
    (exists c :: c in cs && c.id == id) && forall c :: c in cs && c.id == id ==> c.proxyPort == port
  }

  lemma {:induction false} AllAtFound(cs: seq<ConfigService>, id: string, port: int)
    requires AllAt(cs, id, port)
    ensures GetPort(cs, id) == Some(port) && id in OldPorts(cs) && OldPorts(cs)[id].proxyPort == port
  {
    GetPortLookup(cs, id);
    OldPortsLookup(cs, id);
  }

  lemma {:induction false} DistinctAllAt(cs: seq<ConfigService>, i: nat)
    requires DistinctIds(cs) && i < |cs|
    ensures AllAt(cs, cs[i].id, cs[i].proxyPort)
  {
    assert cs[i] in cs;
  }

  lemma {:induction false} BuiltIds(decls: seq<ConfigService>, previous: seq<ConfigService>, built: seq<ConfigService>)
    requires Built(decls, previous, built)
    ensures DistinctIds(built) <==> DistinctIds(decls)
  {
    forall i | 0 <= i < |built| ensures built[i].id == decls[i].id {
    }
  }

  lemma {:induction false} PermutationIds(a: seq<ConfigService>, b: seq<ConfigService>)
    requires multiset(a) == multiset(b) && DistinctIds(a)
    ensures DistinctIds(b)
  {
    forall i, j | 0 <= i < j < |b| ensures b[i].id != b[j].id {
      assert b[i] in multiset(b) && b[j] in multiset(b);
      if b[i] == b[j] {
        assert b == b[..j] + [b[j]] + b[j + 1..];
        assert b[..j][i] == b[i] && b[i] in multiset(b[..j]);
        IdOnce(a, b[i]);
      }
    }
  }

  lemma {:induction false} IdOnce(a: seq<ConfigService>, c: ConfigService)
    requires DistinctIds(a)
    ensures multiset(a)[c] <= 1
  {
    if a != [] {
      IdOnce(a[1..], c);
      assert a == [a[0]] + a[1..];
      if a[0] == c {
        assert c !in a[1..];
      }
    }
  }

  // ----- One reconcile

  /** With anything declared, the stored list is the sorted built one, written or not. */
  lemma {:induction false} StoredIsBuilt(
      devices: seq<Device>, previous: seq<ConfigService>, stored: seq<ConfigService>, wrote: bool)
      returns (built: seq<ConfigService>)
    requires Steps(devices, previous, stored, wrote)
    ensures Built(Declarations(devices), previous, built)
    ensures built == [] ==> stored == previous && !wrote
    ensures built != [] ==>
      && stored == ByAddress(built) && (wrote <==> previous != stored)
      && forall c :: c in stored <==> c in built
  {
    built :| Built(Declarations(devices), previous, built) && Reconciled(built, previous, stored, wrote);
    ByAddressMembers(built);
  }

  lemma {:induction false} StoredIds(
      devices: seq<Device>, previous: seq<ConfigService>, stored: seq<ConfigService>, wrote: bool)
    requires Steps(devices, previous, stored, wrote) && Declarations(devices) != []
    ensures DistinctIds(stored) <==> DistinctIds(Declarations(devices))
  {
    var built := StoredIsBuilt(devices, previous, stored, wrote);
    BuiltIds(Declarations(devices), previous, built);
    ByAddressMembers(built);
    if DistinctIds(built) {
      PermutationIds(built, stored);
    }
    if DistinctIds(stored) {
      PermutationIds(stored, built);
    }
  }

  lemma {:induction false} BuiltTarget(
      devices: seq<Device>, previous: seq<ConfigService>, built: seq<ConfigService>, d: Device, p: Port)
      returns (i: nat)
    requires Built(Declarations(devices), previous, built) && Declares(devices, d, p)
    ensures i < |built| && built[i] == Declaration(d, p).(proxyPort := built[i].proxyPort)
    ensures Declarations(devices)[i] == Declaration(d, p)
  {
    ByNameMembers(devices);
    i := DeclaredTarget(ByName(devices), d, p);
  }

  /** The entries of a written list are exactly the declared ports, each once if each is listed once. */
  lemma {:induction false} WrittenIsDeclared(
      devices: seq<Device>, previous: seq<ConfigService>, stored: seq<ConfigService>, id: string)
    requires Steps(devices, previous, stored, true)
    ensures DistinctIds(stored) <==> DistinctIds(Declarations(devices))
    ensures (exists c :: c in stored && c.id == id) <==>
            (exists d, p :: Declares(devices, d, p) && PortId(d.name, p.port) == id)
  {
    var built := StoredIsBuilt(devices, previous, stored, true);
    StoredIds(devices, previous, stored, true);
    if c :| c in stored && c.id == id {
      assert c in built;
      var i :| 0 <= i < |built| && built[i] == c;
      var d, p := DeclaredSource(ByName(devices), i);
      ByNameMembers(devices);
      assert Declares(devices, d, p);
    }
    if d, p :| Declares(devices, d, p) && PortId(d.name, p.port) == id {
      var i := BuiltTarget(devices, previous, built, d, p);
      assert built[i] in stored;
    }
  }

  /** Every entry of a known id that is still declared gets the proxy port of the id's last old entry. */
  lemma {:induction false} PortKept(
      devices: seq<Device>, previous: seq<ConfigService>, stored: seq<ConfigService>, wrote: bool,
      d: Device, p: Port)
    requires Steps(devices, previous, stored, wrote) && Declares(devices, d, p)
    requires PortId(d.name, p.port) in OldPorts(previous)
    ensures var id := PortId(d.name, p.port); AllAt(stored, id, OldPorts(previous)[id].proxyPort)
  {
    var id := PortId(d.name, p.port);
    var built := StoredIsBuilt(devices, previous, stored, wrote);
    var i := BuiltTarget(devices, previous, built, d, p);
    assert built[i] in built;
    forall c | c in stored && c.id == id ensures c.proxyPort == OldPorts(previous)[id].proxyPort {
      assert c in built;
      var k :| 0 <= k < |built| && built[k] == c;
      assert Declarations(devices)[k].id == id;
    }
  }

  // ----- Runs

  ghost predicate Run(lists: seq<seq<Device>>, configs: seq<seq<ConfigService>>) {
    && |configs| == |lists| + 1
    && forall i {:trigger lists[i]} :: 0 <= i < |lists| ==>
      StepsTo(lists[i], configs[i], configs[i + 1])
  }

  ghost predicate StepsTo(devices: seq<Device>, previous: seq<ConfigService>, stored: seq<ConfigService>) {
    exists wrote :: Steps(devices, previous, stored, wrote)
  }

  ghost predicate DeclaresPort(devices: seq<Device>, device: string, port: nat) {
    exists d, p :: Declares(devices, d, p) && d.name == device && p.port == port
  }

  lemma {:induction false} PortKeptOnce(
      devices: seq<Device>, previous: seq<ConfigService>, stored: seq<ConfigService>,
      device: string, port: nat, at: int)
    requires StepsTo(devices, previous, stored) && DeclaresPort(devices, device, port)
    requires PortId(device, port) in OldPorts(previous) && OldPorts(previous)[PortId(device, port)].proxyPort == at
    ensures AllAt(stored, PortId(device, port), at)
  {
    var wrote :| Steps(devices, previous, stored, wrote);
    var d, p :| Declares(devices, d, p) && d.name == device && p.port == port;
    PortKept(devices, previous, stored, wrote, d, p);
  }

  /**
   * Over any run of any device lists: a port that is known and declared from the i-th reconcile on
   * has, ever after that reconcile, the proxy port of its last entry before it.
   */
  lemma {:induction false} PortSettles(
      lists: seq<seq<Device>>, configs: seq<seq<ConfigService>>, i: nat, j: nat, device: string, port: nat)
    requires Run(lists, configs) && i < j < |configs| && PortId(device, port) in OldPorts(configs[i])
    requires forall h :: i <= h < j ==> DeclaresPort(lists[h], device, port)
    ensures var id := PortId(device, port); AllAt(configs[j], id, OldPorts(configs[i])[id].proxyPort)
    decreases j
  {
    var id := PortId(device, port);
    var at := OldPorts(configs[i])[id].proxyPort;
    if i < j - 1 {
      PortSettles(lists, configs, i, j - 1, device, port);
      AllAtFound(configs[j - 1], id, at);
    }
    assert StepsTo(lists[j - 1], configs[j - 1], configs[j - 1 + 1]) && DeclaresPort(lists[j - 1], device, port);
    PortKeptOnce(lists[j - 1], configs[j - 1], configs[j], device, port, at);
  }

  /**
   * So it keeps its proxy port, ever after, if and only if its first and its last entry agree on it.
   */
  lemma {:induction false} PortStable(
      lists: seq<seq<Device>>, configs: seq<seq<ConfigService>>, i: nat, j: nat, device: string, port: nat)
    requires Run(lists, configs) && i < j < |configs| && PortId(device, port) in OldPorts(configs[i])
    requires forall h :: i <= h < j ==> DeclaresPort(lists[h], device, port)
    ensures var id := PortId(device, port);
      GetPort(configs[j], id) == GetPort(configs[i], id) <==>
      GetPort(configs[i], id) == Some(OldPorts(configs[i])[id].proxyPort)
  {
    var id := PortId(device, port);
    PortSettles(lists, configs, i, j, device, port);
    AllAtFound(configs[j], id, OldPorts(configs[i])[id].proxyPort);
  }

  /** They always agree while no device lists a port twice. */
  lemma {:induction false} AgreeWhileListedOnce(
      lists: seq<seq<Device>>, configs: seq<seq<ConfigService>>, i: nat, id: string)
    requires Run(lists, configs) && DistinctIds(configs[0]) && i < |configs| && id in OldPorts(configs[i])
    requires forall h :: 0 <= h < i ==> DistinctNames(lists[h]) && PortsOnce(lists[h])
    ensures GetPort(configs[i], id) == Some(OldPorts(configs[i])[id].proxyPort)
  {
    RunDistinct(lists, configs, i);
    OldPortsLookup(configs[i], id);
    var k :| 0 <= k < |configs[i]| && configs[i][k] == OldPorts(configs[i])[id];
    DistinctAllAt(configs[i], k);
    AllAtFound(configs[i], id, configs[i][k].proxyPort);
  }

  lemma {:induction false} RunDistinct(lists: seq<seq<Device>>, configs: seq<seq<ConfigService>>, i: nat)
    requires Run(lists, configs) && DistinctIds(configs[0]) && i < |configs|
    requires forall h :: 0 <= h < i ==> DistinctNames(lists[h]) && PortsOnce(lists[h])
    ensures DistinctIds(configs[i])
  {
    if i > 0 {
      RunDistinct(lists, configs, i - 1);
      assert StepsTo(lists[i - 1], configs[i - 1], configs[i - 1 + 1]);
      var wrote :| Steps(lists[i - 1], configs[i - 1], configs[i], wrote);
      var built := StoredIsBuilt(lists[i - 1], configs[i - 1], configs[i], wrote);
      if built != [] {
        DeclaredOnceExactly(lists[i - 1]);
        StoredIds(lists[i - 1], configs[i - 1], configs[i], wrote);
      }
    }
  }

  // ----- Fixpoint

  /** Whatever was stored and whatever the random draws, reconciling again changes and writes nothing. */
  ghost predicate Settles(devices: seq<Device>) {
    forall previous, stored, wrote, next, rewrote ::
      Steps(devices, previous, stored, wrote) && Steps(devices, stored, next, rewrote) ==>
        next == stored && !rewrote
  }

  /** Entries of one id are at one port. */
  ghost predicate Agreed(cs: seq<ConfigService>) {
    forall a, b :: a in cs && b in cs && a.id == b.id ==> a.proxyPort == b.proxyPort
  }

  lemma {:induction false} AgreedSettles(
      devices: seq<Device>, previous: seq<ConfigService>,
      stored: seq<ConfigService>, wrote: bool, next: seq<ConfigService>, rewrote: bool)
    requires Steps(devices, previous, stored, wrote) && Steps(devices, stored, next, rewrote)
    requires Agreed(stored)
    ensures next == stored && !rewrote
  {
    var built := StoredIsBuilt(devices, previous, stored, wrote);
    var rebuilt := StoredIsBuilt(devices, stored, next, rewrote);
    if built != [] {
      forall i | 0 <= i < |built| ensures rebuilt[i] == built[i] {
        assert built[i] in stored;
        OldPortsLookup(stored, built[i].id);
      }
      assert rebuilt == built;
    }
  }

  lemma {:induction false} DistinctSettles(
      devices: seq<Device>, previous: seq<ConfigService>,
      stored: seq<ConfigService>, wrote: bool, next: seq<ConfigService>, rewrote: bool)
    requires DistinctIds(Declarations(devices))
    requires Steps(devices, previous, stored, wrote) && Steps(devices, stored, next, rewrote)
    ensures next == stored && !rewrote
  {
    var built := StoredIsBuilt(devices, previous, stored, wrote);
    if built == [] {
      var rebuilt := StoredIsBuilt(devices, stored, next, rewrote);
    } else {
      StoredIds(devices, previous, stored, wrote);
      AgreedSettles(devices, previous, stored, wrote, next, rewrote);
    }
  }

  /** Once every declared id is known, all its entries are at one port. */
  lemma {:induction false} SecondAgrees(
      devices: seq<Device>, previous: seq<ConfigService>,
      stored: seq<ConfigService>, wrote: bool, next: seq<ConfigService>, rewrote: bool)
    requires Steps(devices, previous, stored, wrote) && Steps(devices, stored, next, rewrote)
    requires Declarations(devices) != []
    ensures Agreed(next)
  {
    var built := StoredIsBuilt(devices, previous, stored, wrote);
    var rebuilt := StoredIsBuilt(devices, stored, next, rewrote);
    forall c | c in next ensures c.id in OldPorts(stored) && c.proxyPort == OldPorts(stored)[c.id].proxyPort {
      assert c in rebuilt;
      var i :| 0 <= i < |rebuilt| && rebuilt[i] == c;
      assert Declarations(devices)[i].id == built[i].id && built[i] in built;
      OldPortsLookup(stored, c.id);
    }
  }

  /** Any device list whatever has settled after its second reconcile: a third changes nothing. */
  lemma {:induction false} SettledAfterTwo(
      devices: seq<Device>, previous: seq<ConfigService>, first: seq<ConfigService>, wrote: bool,
      second: seq<ConfigService>, rewrote: bool, third: seq<ConfigService>, again: bool)
    requires Steps(devices, previous, first, wrote) && Steps(devices, first, second, rewrote)
    requires Steps(devices, second, third, again)
    ensures third == second && !again
  {
    if Declarations(devices) == [] {
      var built := StoredIsBuilt(devices, second, third, again);
    } else {
      SecondAgrees(devices, previous, first, wrote, second, rewrote);
      AgreedSettles(devices, first, second, rewrote, third, again);
    }
  }

  /** The list a first reconcile may build: this one declaration draws 3001, all others 3000. */
  function Drawn(decls: seq<ConfigService>, odd: nat): (built: seq<ConfigService>)
    ensures |built| == |decls|
    ensures forall i :: 0 <= i < |decls| ==>
      built[i] == decls[i].(proxyPort := if i == odd then MIN_PORT + 1 else MIN_PORT)
  {
    seq(|decls|, i requires 0 <= i < |decls| =>
      decls[i].(proxyPort := if i == odd then MIN_PORT + 1 else MIN_PORT))
  }

  /** Two entries of one id at different ports are never built again. */
  lemma {:induction false} UnsettledRewrites(
      devices: seq<Device>, stored: seq<ConfigService>, next: seq<ConfigService>, rewrote: bool,
      a: ConfigService, b: ConfigService)
    requires Steps(devices, stored, next, rewrote) && Declarations(devices) != []
    requires a in stored && b in stored && a.id == b.id && a.proxyPort != b.proxyPort
    ensures rewrote
  {
    var rebuilt := StoredIsBuilt(devices, stored, next, rewrote);
    OldPortsLookup(stored, a.id);
    forall c | c in rebuilt && c.id == a.id ensures c.proxyPort == OldPorts(stored)[a.id].proxyPort {
      var i :| 0 <= i < |rebuilt| && rebuilt[i] == c;
      assert Declarations(devices)[i].id == a.id;
    }
  }

  lemma {:induction false} StepExists(devices: seq<Device>, previous: seq<ConfigService>, built: seq<ConfigService>)
      returns (stored: seq<ConfigService>, wrote: bool)
    requires Built(Declarations(devices), previous, built)
    ensures Steps(devices, previous, stored, wrote)
    ensures built != [] ==> stored == ByAddress(built)
  {
    wrote := built != [] && previous != ByAddress(built);
    stored := if wrote then ByAddress(ByAddress(built)) else previous;
    assert Reconciled(built, previous, stored, wrote);
    ByAddressMembers(built);
  }

  /** Some list that the declarations can be built into. */
  function Rebuilt(decls: seq<ConfigService>, previous: seq<ConfigService>): (built: seq<ConfigService>)
    ensures Built(decls, previous, built)
  {
    seq(|decls|, i requires 0 <= i < |decls| => decls[i].(proxyPort :=
      if decls[i].id in OldPorts(previous) then OldPorts(previous)[decls[i].id].proxyPort else MIN_PORT))
  }

  /**
   * The reconciles of a device list settle at once, for all draws, if and only if its declared ids
   * are distinct.
   */
  lemma {:induction false} SettlesExactly(devices: seq<Device>)
    ensures Settles(devices) <==> DistinctIds(Declarations(devices))
  {
    var decls := Declarations(devices);
    if DistinctIds(decls) {
      forall previous, stored, wrote, next, rewrote
        | Steps(devices, previous, stored, wrote) && Steps(devices, stored, next, rewrote)
        ensures next == stored && !rewrote
      {
        DistinctSettles(devices, previous, stored, wrote, next, rewrote);
      }
    } else {
      var i, j :| 0 <= i < j < |decls| && decls[i].id == decls[j].id;
      var built := Drawn(decls, j);
      var stored, wrote := StepExists(devices, [], built);
      var next, rewrote := StepExists(devices, stored, Rebuilt(decls, stored));
      ByAddressMembers(built);
      assert built[i] in built && built[j] in built;
      UnsettledRewrites(devices, stored, next, rewrote, built[i], built[j]);
    }
  }

  /** The same when the devices are listed in another order the second time. */
  lemma {:induction false} ReconcileAgainWritesNothing(
      devices: seq<Device>, again: seq<Device>, previous: seq<ConfigService>,
      stored: seq<ConfigService>, wrote: bool, next: seq<ConfigService>, rewrote: bool)
    requires DistinctNames(devices) && PortsOnce(devices) && multiset(again) == multiset(devices)
    requires Steps(devices, previous, stored, wrote) && Steps(again, stored, next, rewrote)
    ensures next == stored && !rewrote
  {
    DeclaredOnceExactly(devices);
    ListOrderIrrelevant(devices, again);
    assert Steps(devices, stored, next, rewrote);
    DistinctSettles(devices, previous, stored, wrote, next, rewrote);
  }

  // ----- The two controllers agree

  lemma {:induction false} ServicePortsFound(
      services: seq<ConfigService>, device: string, ports: seq<Port>)
    requires forall i :: 0 <= i < |ports| ==> GetPort(services, PortId(device, ports[i].port)).Some?
    ensures var r := ServicePorts(services, device, ports);
      && r.Some? && |r.value| == |ports|
      && forall i :: 0 <= i < |ports| ==> r.value[i] == ServicePort(
        PortId(device, ports[i].port), ports[i].port, GetPort(services, PortId(device, ports[i].port)).value)
  {
    if ports != [] {
      ServicePortsFound(services, device, ports[..|ports| - 1]);
    }
  }

  /**
   * After a reconcile every declared port of every listed device is found; and the service then
   * built makes checkPortsDiffer true exactly for a device without ports, whose placeholder never
   * matches.
   */
  lemma {:induction false} ControllersAgree(
      devices: seq<Device>, previous: seq<ConfigService>, stored: seq<ConfigService>, wrote: bool, d: Device)
    requires Steps(devices, previous, stored, wrote) && d in devices
    ensures var found := ServicePorts(stored, d.name, d.ports);
      && found.Some? && |found.value| == |d.ports|
      && (PortsDiffer(if found.value == [] then [PLACEHOLDER] else found.value, d.ports) <==> d.ports == [])
  {
    var built := StoredIsBuilt(devices, previous, stored, wrote);
    forall i | 0 <= i < |d.ports| ensures GetPort(stored, PortId(d.name, d.ports[i].port)).Some? {
      var k := BuiltTarget(devices, previous, built, d, d.ports[i]);
      assert built[k] in stored;
      GetPortLookup(stored, built[k].id);
    }
    ServicePortsFound(stored, d.name, d.ports);
  }

  /** The list has this port's own entry at the proxy port that looking its id up finds. */
  ghost predicate FoundAsDeclared(services: seq<ConfigService>, d: Device, p: Port) {
    exists c :: c in services && c == Declaration(d, p).(proxyPort := c.proxyPort)
      && GetPort(services, PortId(d.name, p.port)) == Some(c.proxyPort)
  }

  /** Whatever was stored and drawn, each declared port is found at its own entry. */
  ghost predicate AlwaysFoundAsDeclared(devices: seq<Device>) {
    forall previous, stored, wrote, d, p ::
      Steps(devices, previous, stored, wrote) && Declares(devices, d, p) ==> FoundAsDeclared(stored, d, p)
  }

  /** An id stands for one declaration, even if that is made twice. */
  ghost predicate OneDeclaration(decls: seq<ConfigService>) {
    forall i, j :: 0 <= i < |decls| && 0 <= j < |decls| && decls[i].id == decls[j].id ==> decls[i] == decls[j]
  }

  lemma {:induction false} OneFound(
      devices: seq<Device>, previous: seq<ConfigService>, stored: seq<ConfigService>, wrote: bool, d: Device, p: Port)
    requires Steps(devices, previous, stored, wrote) && Declares(devices, d, p)
    requires OneDeclaration(Declarations(devices))
    ensures FoundAsDeclared(stored, d, p)
  {
    var built := StoredIsBuilt(devices, previous, stored, wrote);
    var m := BuiltTarget(devices, previous, built, d, p);
    assert built[m] in stored;
    GetPortLookup(stored, built[m].id);
    var c :| c in stored && c.id == built[m].id && c.proxyPort == GetPort(stored, built[m].id).value;
    assert c in built;
    var k :| 0 <= k < |built| && built[k] == c;
    assert Declarations(devices)[k] == Declarations(devices)[m];
  }

  /** The list a first reconcile may build: this declaration draws 3000, the others 3001. */
  function DrawnBy(decls: seq<ConfigService>, first: ConfigService): (built: seq<ConfigService>)
    ensures |built| == |decls|
    ensures forall i :: 0 <= i < |decls| ==>
      built[i] == decls[i].(proxyPort := if decls[i] == first then MIN_PORT else MIN_PORT + 1)
  {
    seq(|decls|, i requires 0 <= i < |decls| =>
      decls[i].(proxyPort := if decls[i] == first then MIN_PORT else MIN_PORT + 1))
  }

  /** Of two declarations of one id the one whose port is not found is missed. */
  lemma {:induction false} OneIsMissed(
      stored: seq<ConfigService>, built: seq<ConfigService>, decls: seq<ConfigService>, first: ConfigService,
      d: Device, p: Port)
    requires built == DrawnBy(decls, first) && forall c :: c in stored <==> c in built
    requires forall c :: c in decls ==> c.proxyPort == 0
    requires FoundAsDeclared(stored, d, p)
    ensures GetPort(stored, PortId(d.name, p.port)) ==
      Some(if Declaration(d, p) == first then MIN_PORT else MIN_PORT + 1)
  {
    var c :| c in stored && c == Declaration(d, p).(proxyPort := c.proxyPort)
      && GetPort(stored, PortId(d.name, p.port)) == Some(c.proxyPort);
    assert c in built;
    var k :| 0 <= k < |built| && built[k] == c;
    assert decls[k] in decls;
    assert decls[k] == Declaration(d, p);
  }

  lemma {:induction false} TwoDeclarationsMiss(devices: seq<Device>, i: nat, j: nat)
    requires i < |Declarations(devices)| && j < |Declarations(devices)|
    requires Declarations(devices)[i].id == Declarations(devices)[j].id
    requires Declarations(devices)[i] != Declarations(devices)[j]
    ensures !AlwaysFoundAsDeclared(devices)
  {
    var decls := Declarations(devices);
    var built := DrawnBy(decls, decls[i]);
    var stored, wrote := StepExists(devices, [], built);
    ByAddressMembers(built);
    ByNameMembers(devices);
    var d, p := DeclaredSource(ByName(devices), i);
    var e, q := DeclaredSource(ByName(devices), j);
    assert Declares(devices, d, p) && Declares(devices, e, q);
    forall c | c in decls ensures c.proxyPort == 0 {
      var k :| 0 <= k < |decls| && decls[k] == c;
      var f, o := DeclaredSource(ByName(devices), k);
    }
    if FoundAsDeclared(stored, d, p) && FoundAsDeclared(stored, e, q) {
      OneIsMissed(stored, built, decls, decls[i], d, p);
      OneIsMissed(stored, built, decls, decls[i], e, q);
      assert false;
    }
  }

  /**
   * Every declared port is found at its own entry, for all draws, if and only if no id is declared
   * in two different ways: as when a device lists a port twice with different targets.
   */
  lemma {:induction false} FoundAsDeclaredExactly(devices: seq<Device>)
    ensures AlwaysFoundAsDeclared(devices) <==> OneDeclaration(Declarations(devices))
  {
    if OneDeclaration(Declarations(devices)) {
      forall previous, stored, wrote, d, p | Steps(devices, previous, stored, wrote) && Declares(devices, d, p)
        ensures FoundAsDeclared(stored, d, p)
      {
        OneFound(devices, previous, stored, wrote, d, p);
      }
    } else {
      var decls := Declarations(devices);
      var i, j :| 0 <= i < |decls| && 0 <= j < |decls| && decls[i].id == decls[j].id && decls[i] != decls[j];
      TwoDeclarationsMiss(devices, i, j);
    }
  }
}
