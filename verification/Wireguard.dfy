/** `reconWGServerConfig` of the account controller: the peers of the wireguard server. */
module Wireguard {
  import opened Options
  import opened Text
  import opened Addressing

  /** A device's key secret; a field the device controller has not filled yet is missing. */
  datatype DeviceSecret = DeviceSecret(name: string, ip: Option<string>, publicKey: Option<string>)

  datatype Peer = Peer(publicKey: string, allowedIps: string)

  /** What the configuration template is filled with. */
  datatype Config = Config(address: string, privateKey: string, peers: seq<Peer>)

  const SERVER_IP := "10.13.13.1"

  const SECRET_KEY: DeviceSecret -> string := (s: DeviceSecret) => s.name

  predicate Complete(s: DeviceSecret) {
    s.ip.Some? && s.publicKey.Some?
  }

  function PeerOf(s: DeviceSecret): Peer
    requires Complete(s)
  {
    Peer(s.publicKey.value, s.ip.value + "/32")
  }

  function PeersOf(secrets: seq<DeviceSecret>): seq<Peer> {
    if secrets == [] then []
    else
      var last := secrets[|secrets| - 1];
      PeersOf(secrets[..|secrets| - 1]) + if Complete(last) then [PeerOf(last)] else []
  }

  function ConfigOf(privateKey: string, secrets: seq<DeviceSecret>): Config {
    Config(SERVER_IP + "/32", privateKey, PeersOf(SortBy(secrets, SECRET_KEY)))
  }

  method CollectPeers(secrets: seq<DeviceSecret>) returns (peers: seq<Peer>)
    ensures peers == PeersOf(secrets)
  {
    peers := [];
    for i := 0 to |secrets|
      invariant peers == PeersOf(secrets[..i])
    {
      assert secrets[..i + 1][..i] == secrets[..i];
      var device := secrets[i];
      if device.ip.None? {
        continue;
      }
      if device.publicKey.None? {
        continue;
      }
      peers := peers + [Peer(device.publicKey.value, device.ip.value + "/32")];
    }
    assert secrets[..|secrets|] == secrets;
  }

  /** The secret `wg-server-config`; the template is any function of its data. */
  class ServerSecret {
    var data: Option<string>

    /**
     * `privateKey` is missing while the account's keys are not there; `regions` and `devices` say
     * whether those were fetched, which is asked for only after a write.
     */
    method ReconWGServerConfig(
        privateKey: Option<string>, regions: bool, devices: bool, secrets: seq<DeviceSecret>,
        template: Config -> string)
        returns (failed: bool, wrote: bool)
      modifies this
      ensures data ==
        if privateKey.None? then old(data) else Some(template(ConfigOf(privateKey.value, secrets)))
      ensures wrote <==> data != old(data)
      ensures failed <==> privateKey.None? || (wrote && !(regions && devices))
    {
      if privateKey.None? {
        return true, false;
      }
      var peers := CollectPeers(SortBy(secrets, SECRET_KEY));
      var parse := template(Config(SERVER_IP + "/32", privateKey.value, peers));
      if data.None? || data.value != parse {
        data := Some(parse);
        return !(regions && devices), true;
      }
      return false, false;
    }
  }

  /** The configuration does not depend on the order the API lists the secrets in. */
  lemma {:induction false} ConfigIgnoresListing(privateKey: string, a: seq<DeviceSecret>, b: seq<DeviceSecret>)
    requires multiset(a) == multiset(b) && DistinctKeys(a, SECRET_KEY)
    ensures ConfigOf(privateKey, a) == ConfigOf(privateKey, b)
  {
    SortElements(a, SECRET_KEY);
    SortElements(b, SECRET_KEY);
    SortSorts(a, SECRET_KEY);
    SortSorts(b, SECRET_KEY);
    DistinctBySort(a, SECRET_KEY);
    SortedOrderUnique(SortBy(a, SECRET_KEY), SortBy(b, SECRET_KEY), SECRET_KEY);
  }

  // ----- Peers and devices correspond one to one

  /** Where the peer at `i` comes from, in order. */
  lemma {:induction false} PeerSource(secrets: seq<DeviceSecret>, i: nat) returns (j: nat)
    requires i < |PeersOf(secrets)|
    ensures j < |secrets| && Complete(secrets[j]) && PeersOf(secrets)[i] == PeerOf(secrets[j])
    ensures |PeersOf(secrets[..j])| == i
  {
    var init := secrets[..|secrets| - 1];
    if i < |PeersOf(init)| {
      j := PeerSource(init, i);
      assert init[..j] == secrets[..j];
    } else {
      j := |secrets| - 1;
    }
  }

  lemma {:induction false} SecretListed(secrets: seq<DeviceSecret>, j: nat)
    requires j < |secrets| && Complete(secrets[j])
    ensures |PeersOf(secrets[..j])| < |PeersOf(secrets)|
    ensures PeersOf(secrets)[|PeersOf(secrets[..j])|] == PeerOf(secrets[j])
  {
    var init := secrets[..|secrets| - 1];
    if j < |secrets| - 1 {
      SecretListed(init, j);
      assert init[..j] == secrets[..j];
    }
  }

  /** The secrets carry the addresses of devices with these offsets, all different. */
  ghost predicate Addressed(secrets: seq<DeviceSecret>, offsets: map<string, Offset>) {
    && DistinctKeys(secrets, SECRET_KEY)
    && (forall s :: s in secrets && s.ip.Some? ==> s.name in offsets && s.ip.value == DeviceIp(offsets[s.name]))
    && (forall m, n :: m in offsets && n in offsets && m != n ==> offsets[m] != offsets[n])
  }

  /** A peer with its key and address for exactly the secrets that have both. */
  lemma {:induction false} PeersExactly(privateKey: string, secrets: seq<DeviceSecret>, p: Peer)
    ensures p in ConfigOf(privateKey, secrets).peers <==>
      exists s :: s in secrets && s.ip.Some? && s.publicKey.Some?
        && p.publicKey == s.publicKey.value && p.allowedIps == s.ip.value + "/32"
  {
    var sorted := SortBy(secrets, SECRET_KEY);
    SortElements(secrets, SECRET_KEY);
    if p in PeersOf(sorted) {
      var i :| 0 <= i < |PeersOf(sorted)| && PeersOf(sorted)[i] == p;
      var j := PeerSource(sorted, i);
      assert sorted[j] in multiset(secrets);
    }
    if s :|
      && s in secrets && s.ip.Some? && s.publicKey.Some?
      && p.publicKey == s.publicKey.value && p.allowedIps == s.ip.value + "/32"
    {
      assert s in multiset(sorted);
      var j :| 0 <= j < |sorted| && sorted[j] == s;
      SecretListed(sorted, j);
    }
  }

  /** Besides the peers there are the server's address and the key given. */
  lemma ConfigHeader(privateKey: string, secrets: seq<DeviceSecret>)
    ensures ConfigOf(privateKey, secrets).address == "10.13.13.1/32"
    ensures ConfigOf(privateKey, secrets).privateKey == privateKey
  {
    assert SERVER_IP + "/32" == "10.13.13.1/32";
  }

  /** The peers come in the order of their secrets' names. */
  lemma {:induction false} PeersInOrder(privateKey: string, secrets: seq<DeviceSecret>, h: nat, i: nat)
      returns (a: DeviceSecret, b: DeviceSecret)
    requires h < i < |ConfigOf(privateKey, secrets).peers|
    ensures a in secrets && b in secrets && LessEq(a.name, b.name) && Complete(a) && Complete(b)
    ensures var peers := ConfigOf(privateKey, secrets).peers;
      peers[h].publicKey == a.publicKey.value && peers[i].publicKey == b.publicKey.value
  {
    var sorted := SortBy(secrets, SECRET_KEY);
    SortElements(secrets, SECRET_KEY);
    SortSorts(secrets, SECRET_KEY);
    var j := PeerSource(sorted, h);
    var k := PeerSource(sorted, i);
    assert sorted[j] in multiset(secrets) && sorted[k] in multiset(secrets);
    if k < j {
      MorePeers(sorted, k, j);
    }
    a, b := sorted[j], sorted[k];
    assert LessEq(SECRET_KEY(a), SECRET_KEY(b));
  }

  /** A longer list has no fewer peers. */
  lemma {:induction false} MorePeers(secrets: seq<DeviceSecret>, j: nat, k: nat)
    requires j <= k <= |secrets|
    ensures |PeersOf(secrets[..j])| <= |PeersOf(secrets[..k])|
    decreases k
  {
    if j < k {
      MorePeers(secrets, j, k - 1);
      assert secrets[..k][..k - 1] == secrets[..k - 1];
    }
  }

  /** No two peers claim the same address. */
  lemma {:induction false} PeersDisjoint(
      privateKey: string, secrets: seq<DeviceSecret>, offsets: map<string, Offset>, h: nat, i: nat)
    requires Addressed(secrets, offsets) && h < i < |ConfigOf(privateKey, secrets).peers|
    ensures var peers := ConfigOf(privateKey, secrets).peers; peers[h].allowedIps != peers[i].allowedIps
  {
    var sorted := SortBy(secrets, SECRET_KEY);
    SortElements(secrets, SECRET_KEY);
    DistinctBySort(secrets, SECRET_KEY);
    var a := PeerSource(sorted, h);
    var b := PeerSource(sorted, i);
    assert sorted[a] in multiset(secrets) && sorted[b] in multiset(secrets);
    assert a != b;
    assert SECRET_KEY(sorted[a]) != SECRET_KEY(sorted[b]);
    DeviceIpInjective(offsets[sorted[a].name], offsets[sorted[b].name]);
    assert PeerOf(sorted[a]).allowedIps == AllowedIps(offsets[sorted[a].name]);
    assert PeerOf(sorted[b]).allowedIps == AllowedIps(offsets[sorted[b].name]);
  }

  /** A peer claims the server's own address if and only if a complete device has offset 3327. */
  lemma {:induction false} ServerAddressTaken(
      privateKey: string, secrets: seq<DeviceSecret>, offsets: map<string, Offset>)
    requires Addressed(secrets, offsets)
    ensures var config := ConfigOf(privateKey, secrets);
      (exists p :: p in config.peers && p.allowedIps == config.address) <==>
      (exists s :: s in secrets && Complete(s) && offsets[s.name] == 3327)
  {
    var config := ConfigOf(privateKey, secrets);
    if p :| p in config.peers && p.allowedIps == config.address {
      PeersExactly(privateKey, secrets, p);
      var s :| s in secrets && s.ip.Some? && s.publicKey.Some?
        && p.publicKey == s.publicKey.value && p.allowedIps == s.ip.value + "/32";
      SameAddress(s.ip.value);
      ServerAddressClash(offsets[s.name]);
    }
    if s :| s in secrets && Complete(s) && offsets[s.name] == 3327 {
      PeersExactly(privateKey, secrets, PeerOf(s));
      ServerAddressClash(offsets[s.name]);
    }
  }

  lemma SameAddress(ip: string)
    requires ip + "/32" == SERVER_IP + "/32"
    ensures ip == SERVER_IP
  {
    var whole := ip + "/32";
    assert ip == whole[..|whole| - 3] && SERVER_IP == whole[..|whole| - 3];
  }
}
