/** `updateDeployments` of the account controller: one wireguard deployment per active region. */
module Deployments {

  function NameOf(region: string): string {
    "wireguard-deployment-" + region
  }

  /** Regions some device is active in; the empty string means "nowhere". */
  function ActiveRegions(devices: seq<string>): set<string> {
    set r | r in devices && r != ""
  }

  /**
   * The deployments after the first regions of the list, and whether every call succeeded. The
   * snapshot of what exists is taken once, so deleting the same deployment twice is an error.
   */
  function Process(regions: seq<string>, active: set<string>, snapshot: set<string>): (set<string>, bool) {
    if regions == [] then (snapshot, true)
    else
      var (live, ok) := Process(regions[..|regions| - 1], active, snapshot);
      var name := NameOf(regions[|regions| - 1]);
      if !ok then (live, false)
      else if regions[|regions| - 1] !in active then
        if name !in snapshot then (live, true)
        else if name in live then (live - {name}, true)
        else (live, false)
      else if name in snapshot then (live, true)
      else (live + {name}, true)
  }

  class Namespace {
    var deployments: set<string>

    /** The API answers NotFound for a deployment that is not there. */
    method Delete(name: string) returns (ok: bool)
      modifies this
      ensures ok == (name in old(deployments)) && deployments == old(deployments) - {name}
    {
      ok := name in deployments;
      deployments := deployments - {name};
    }

    method Apply(name: string)
      modifies this
      ensures deployments == old(deployments) + {name}
    {
      deployments := deployments + {name};
    }

    method UpdateDeployments(regions: seq<string>, devices: seq<string>) returns (ok: bool)
      modifies this
      ensures (deployments, ok) == Process(regions, ActiveRegions(devices), old(deployments))
    {
      var snapshot := deployments;
      var active := {};
      for i := 0 to |devices|
        invariant active == ActiveRegions(devices[..i])
      {
        assert devices[..i + 1] == devices[..i] + [devices[i]];
        if devices[i] != "" {
          active := active + {devices[i]};
        }
      }
      assert devices[..|devices|] == devices;
      for i := 0 to |regions|
        invariant (deployments, true) == Process(regions[..i], active, snapshot)
      {
        var name := NameOf(regions[i]);
        assert regions[..i + 1][..i] == regions[..i];
        if regions[i] !in active {
          if name in snapshot {
            assert deployments - {name} == deployments || name in deployments;
            var deleted := Delete(name);
            if !deleted {
              FailureIsFinal(regions, active, snapshot, i + 1);
              return false;
            }
          }
          continue;
        }
        if name in snapshot {
          continue;
        }
        Apply(name);
      }
      assert regions[..|regions|] == regions;
      return true;
    }
  }

  lemma {:induction false} FailureIsFinal(
      regions: seq<string>, active: set<string>, snapshot: set<string>, i: nat)
    requires i <= |regions| && !Process(regions[..i], active, snapshot).1
    ensures Process(regions, active, snapshot) == Process(regions[..i], active, snapshot)
  {
    if i == |regions| {
      assert regions[..i] == regions;
    } else {
      assert regions[..|regions| - 1][..i] == regions[..i];
      FailureIsFinal(regions[..|regions| - 1], active, snapshot, i);
    }
  }

  lemma NamesDiffer(a: string, b: string)
    ensures NameOf(a) == NameOf(b) <==> a == b
  {
    var n := |"wireguard-deployment-"|;
    assert a == NameOf(a)[n..] && b == NameOf(b)[n..];
  }

  /** A region that would be torn down is listed a second time. */
  ghost predicate TornDownTwice(regions: seq<string>, active: set<string>, snapshot: set<string>) {
    exists i, j :: 0 <= i < j < |regions| && regions[i] == regions[j]
      && regions[i] !in active && NameOf(regions[i]) in snapshot
  }

  lemma {:induction false} Settled(
      regions: seq<string>, active: set<string>, snapshot: set<string>, name: string)
    ensures var (live, ok) := Process(regions, active, snapshot);
      ok ==> (name in live <==>
        if exists r :: r in regions && NameOf(r) == name
        then exists r :: r in regions && NameOf(r) == name && r in active
        else name in snapshot)
  {
    if regions != [] {
      var init, last := regions[..|regions| - 1], regions[|regions| - 1];
      Settled(init, active, snapshot, name);
      assert regions == init + [last];
      if r :| r in regions && NameOf(r) == name {
        NamesDiffer(r, last);
        forall q | q in regions && NameOf(q) == name ensures q == r {
          NamesDiffer(q, r);
        }
      }
    }
  }

  /** When the update succeeds, a listed region has its deployment exactly when it is active. */
  lemma {:induction false} ListedRegionsSettled(
      regions: seq<string>, active: set<string>, snapshot: set<string>, region: string)
    requires Process(regions, active, snapshot).1 && region in regions
    ensures NameOf(region) in Process(regions, active, snapshot).0 <==> region in active
  {
    Settled(regions, active, snapshot, NameOf(region));
    forall q | q in regions && NameOf(q) == NameOf(region) ensures q == region {
      NamesDiffer(q, region);
    }
  }

  /** Deployments of no listed region are untouched, whether or not the update succeeds. */
  lemma {:induction false} OthersUntouched(
      regions: seq<string>, active: set<string>, snapshot: set<string>, name: string)
    requires forall r :: r in regions ==> NameOf(r) != name
    ensures name in Process(regions, active, snapshot).0 <==> name in snapshot
  {
    if regions != [] {
      OthersUntouched(regions[..|regions| - 1], active, snapshot, name);
      assert regions[|regions| - 1] in regions;
    }
  }

  /** It fails exactly when it would tear down one region twice. */
  lemma {:induction false} FailsExactly(regions: seq<string>, active: set<string>, snapshot: set<string>)
    ensures !Process(regions, active, snapshot).1 <==> TornDownTwice(regions, active, snapshot)
  {
    if regions != [] {
      var init, last := regions[..|regions| - 1], regions[|regions| - 1];
      FailsExactly(init, active, snapshot);
      if TornDownTwice(init, active, snapshot) {
        var i, j :| 0 <= i < j < |init| && init[i] == init[j]
          && init[i] !in active && NameOf(init[i]) in snapshot;
        assert regions[i] == regions[j];
      } else {
        if last in init {
          ListedRegionsSettled(init, active, snapshot, last);
          var i :| 0 <= i < |init| && init[i] == last;
          assert regions[i] == regions[|regions| - 1];
        } else {
          forall r | r in init ensures NameOf(r) != NameOf(last) {
            NamesDiffer(r, last);
          }
          OthersUntouched(init, active, snapshot, NameOf(last));
        }
        if TornDownTwice(regions, active, snapshot) {
          var i, j :| 0 <= i < j < |regions| && regions[i] == regions[j]
            && regions[i] !in active && NameOf(regions[i]) in snapshot;
          assert init[i] == regions[i];
        }
      }
    }
  }

  // ----- The same in terms of devices and names

  /** Some device is active in this region; the empty string is none. */
  predicate IsActive(devices: seq<string>, region: string) {
    region != "" && region in devices
  }

  /**
   * What an update does: it fails exactly when some region without active devices is listed twice
   * and deployed; otherwise a listed region is deployed exactly when it is active; and what is
   * deployed under other names stays.
   */
  lemma {:induction false} UpdateExactly(regions: seq<string>, devices: seq<string>, before: set<string>)
    ensures var (after, ok) := Process(regions, ActiveRegions(devices), before);
      && (!ok <==> exists i, j ::
            && 0 <= i < j < |regions| && regions[i] == regions[j]
            && !IsActive(devices, regions[i]) && "wireguard-deployment-" + regions[i] in before)
      && (ok ==> forall r :: r in regions ==>
            ("wireguard-deployment-" + r in after <==> IsActive(devices, r)))
      && (forall name :: (forall r :: r in regions ==> "wireguard-deployment-" + r != name) ==>
            (name in after <==> name in before))
  {
    var active := ActiveRegions(devices);
    FailsExactly(regions, active, before);
    assert forall r :: NameOf(r) == "wireguard-deployment-" + r && (r in active <==> IsActive(devices, r));
    if Process(regions, active, before).1 {
      forall r | r in regions
        ensures "wireguard-deployment-" + r in Process(regions, active, before).0 <==> IsActive(devices, r)
      {
        ListedRegionsSettled(regions, active, before, r);
      }
    }
    forall name | forall r :: r in regions ==> "wireguard-deployment-" + r != name
      ensures name in Process(regions, active, before).0 <==> name in before
    {
      forall r | r in regions ensures NameOf(r) != name {
        assert "wireguard-deployment-" + r != name;
      }
      OthersUntouched(regions, active, before, name);
    }
  }

  /** A failing update has done what the regions before the repeated one ask for, and no more. */
  lemma {:induction false} FailureStopsThere(regions: seq<string>, active: set<string>, before: set<string>)
      returns (j: nat)
    requires !Process(regions, active, before).1
    ensures j < |regions| && Process(regions[..j], active, before).1
    ensures Process(regions, active, before).0 == Process(regions[..j], active, before).0
    ensures regions[j] !in active && regions[j] in regions[..j]
  {
    var init := regions[..|regions| - 1];
    if Process(init, active, before).1 {
      j := |regions| - 1;
      if regions[j] !in init {
        forall r | r in init ensures NameOf(r) != NameOf(regions[j]) {
          NamesDiffer(r, regions[j]);
        }
        OthersUntouched(init, active, before, NameOf(regions[j]));
      }
    } else {
      j := FailureStopsThere(init, active, before);
      assert init[..j] == regions[..j];
    }
  }
}
