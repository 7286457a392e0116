/**
 * What each step does, object by object and field by field: when an object goes, what becomes of it
 * otherwise, and that nothing else changes. Said of the store alone, so that it holds the
 * specifications of the controllers to what the controllers are for.
 */
module ClusterEffects {
  import opened Cluster

  /** The two maps agree away from this key. */
  ghost predicate SameBut<V(!new)>(m: map<string, V>, t: map<string, V>, key: string) {
    forall k :: k != key ==> (k in t <==> k in m) && (k in m ==> t[k] == m[k])
  }

  // ----- CloudProvider

  /** A provider goes exactly when it is marked and no labelled edge names it; its secret goes with it. */
  lemma {:induction false} ProviderGoesExactly(d: Declared, s: Store, p: string)
    requires p in s.providers
    ensures var t := Next(d, s, ReconcileProvider(p));
      && (p !in t.providers <==>
          s.providers[p].deleting
          && forall e :: e in s.edges && s.edges[e].labelled ==> s.edges[e].providerName != p)
      && t.secrets == (if p in t.providers then s.secrets else s.secrets - {p})
      && (p in t.providers ==>
          && t.providers[p].deleting == s.providers[p].deleting
          && t.providers[p].finalizers ==
             if s.providers[p].deleting then s.providers[p].finalizers else {Common, Foreground})
      && SameBut(s.providers, t.providers, p)
      && t.edges == s.edges && t.pools == s.pools && t.workers == s.workers
  {
    assert EdgesOf(s, p) == {} <==>
      forall e :: e in s.edges && s.edges[e].labelled ==> s.edges[e].providerName != p by {
      if EdgesOf(s, p) == {} {
        forall e | e in s.edges && s.edges[e].labelled ensures s.edges[e].providerName != p {
          assert e !in EdgesOf(s, p);
        }
      }
    }
  }

  // ----- Edge

  /** An edge goes exactly when it is marked and no NodePool carries its label. */
  lemma {:induction false} EdgeGoesExactly(d: Declared, s: Store, e: string)
    requires e in s.edges
    ensures var t := Next(d, s, ReconcileEdge(e));
      && (e !in t.edges <==>
          s.edges[e].meta.deleting && forall n :: n in s.pools ==> s.pools[n].edgeLabel != e)
      && (e in t.edges ==>
          && t.edges[e].meta.deleting == s.edges[e].meta.deleting
          && t.edges[e].providerName == s.edges[e].providerName
          && t.edges[e].labelled == (s.edges[e].labelled || !s.edges[e].meta.deleting)
          && t.edges[e].meta.finalizers ==
             if s.edges[e].labelled && !s.edges[e].meta.deleting then {Common, Foreground}
             else s.edges[e].meta.finalizers)
      && SameBut(s.edges, t.edges, e)
      && t.providers == s.providers && t.pools == s.pools && t.workers == s.workers && t.secrets == s.secrets
  {
    assert PoolsOf(s, e) == {} <==> forall n :: n in s.pools ==> s.pools[n].edgeLabel != e by {
      if PoolsOf(s, e) == {} {
        forall n | n in s.pools ensures s.pools[n].edgeLabel != e {
          assert n !in PoolsOf(s, e);
        }
      }
    }
  }

  // ----- NodePool

  /** A NodePool goes exactly when it is marked and its edge has no worker, of whatever pool. */
  lemma {:induction false} PoolGoesExactly(d: Declared, s: Store, n: string)
    requires n in s.pools
    ensures var t := Next(d, s, ReconcilePool(n));
      && (n !in t.pools <==>
          s.pools[n].meta.deleting
          && forall w :: w in s.workers ==> s.workers[w].region != s.pools[n].edgeName)
      && (n in t.pools ==>
          && t.pools[n].meta.deleting == s.pools[n].meta.deleting
          && t.pools[n].meta.finalizers ==
             (if s.pools[n].meta.deleting then s.pools[n].meta.finalizers else {Common, Foreground})
          && t.pools[n].edgeLabel == s.pools[n].edgeLabel && t.pools[n].edgeName == s.pools[n].edgeName
          && t.pools[n].providerName == s.pools[n].providerName && t.pools[n].settings == s.pools[n].settings)
      && SameBut(s.pools, t.pools, n)
      && t.providers == s.providers && t.edges == s.edges && t.workers == s.workers && t.secrets == s.secrets
  {
    var edge := s.pools[n].edgeName;
    assert WorkersOf(s, edge) == {} <==> forall w :: w in s.workers ==> s.workers[w].region != edge by {
      if WorkersOf(s, edge) == {} {
        forall w | w in s.workers ensures s.workers[w].region != edge {
          assert w !in WorkersOf(s, edge);
        }
      }
    }
  }

  // ----- WorkerNode

  /**
   * A worker not being deleted gets its finalizers first, and then a create job while no outputs can
   * be read, given the secret; nothing else changes.
   */
  lemma {:induction false} LiveWorkerReconciled(d: Declared, s: Store, w: string, readable: bool)
    requires w in s.workers && !s.workers[w].meta.deleting
    ensures var was := s.workers[w];
      Next(d, s, ReconcileWorker(w, readable)) == s.(workers := s.workers[w := was.(
        meta := Meta({Common, Foreground}, false),
        createJob := was.createJob
          || (was.meta.finalizers == {Common, Foreground} && was.providerName in s.secrets
              && (!was.machine || !readable)))])
  {
    assert s.workers == s.workers[w := s.workers[w]];
  }

  /**
   * A worker being deleted loses its Node first; only without one does a machine whose outputs can
   * be read get a delete job, given the secret; and only without either does the worker go.
   */
  lemma {:induction false} DeletedWorkerReconciled(d: Declared, s: Store, w: string, readable: bool)
    requires w in s.workers && s.workers[w].meta.deleting
    ensures var was := s.workers[w];
      Next(d, s, ReconcileWorker(w, readable)) == s.(workers :=
        if !was.node && (!was.machine || !readable) then s.workers - {w}
        else s.workers[w := was.(
          node := false,
          deleteJob := was.deleteJob || (!was.node && was.providerName in s.secrets))])
  {
    assert s.workers == s.workers[w := s.workers[w]];
  }

  /** Reconciling what is not there does nothing. */
  lemma {:induction false} AbsentReconciled(d: Declared, s: Store, name: string, readable: bool)
    ensures name !in s.providers ==> Next(d, s, ReconcileProvider(name)) == s
    ensures name !in s.edges ==> Next(d, s, ReconcileEdge(name)) == s
    ensures name !in s.pools ==> Next(d, s, ReconcilePool(name)) == s
    ensures name !in s.workers ==> Next(d, s, ReconcileWorker(name, readable)) == s
  {
  }

  // ----- New NodePools and WorkerNodes

  /** The edge is there, labelled, held, not marked, and its provider exists. */
  ghost predicate EdgeInOrder(s: Store, e: string) {
    && e in s.edges && s.edges[e].labelled && !s.edges[e].meta.deleting
    && s.edges[e].meta.finalizers == {Common, Foreground} && s.edges[e].providerName in s.providers
  }

  /** One applied document: the pool named edge-pool gets the edge's and the declared fields, keeping its meta. */
  lemma {:induction false} PoolApplied(d: Declared, s: Store, e: string, p: PoolDecl)
    ensures var t, n := Next(d, s, ApplyPool(e, p)), e + "-" + p.name;
      if EdgeInOrder(s, e) && e in d && p in d[e].pools then
        && n in t.pools && t.pools[n].edgeLabel == e && t.pools[n].edgeName == e
        && t.pools[n].providerName == s.edges[e].providerName && t.pools[n].settings == p.settings
        && (if n in s.pools then t.pools[n].meta == s.pools[n].meta
            else t.pools[n].meta.finalizers == {} && !t.pools[n].meta.deleting)
        && SameBut(s.pools, t.pools, n)
        && t.providers == s.providers && t.edges == s.edges && t.workers == s.workers && t.secrets == s.secrets
      else t == s
  {
  }

  /** A new worker of a held NodePool takes over its edge and provider, and has nothing yet. */
  lemma {:induction false} WorkerAdded(d: Declared, s: Store, n: string, w: string)
    ensures var t := Next(d, s, AddWorker(n, w));
      if n in s.pools && w !in s.workers && !s.pools[n].meta.deleting
         && s.pools[n].meta.finalizers == {Common, Foreground} then
        && w in t.workers && t.workers[w].pool == n && t.workers[w].region == s.pools[n].edgeName
        && t.workers[w].providerName == s.pools[n].providerName
        && t.workers[w].meta.finalizers == {} && !t.workers[w].meta.deleting
        && !t.workers[w].node && !t.workers[w].machine && !t.workers[w].createJob && !t.workers[w].deleteJob
        && SameBut(s.workers, t.workers, w)
        && t.providers == s.providers && t.edges == s.edges && t.pools == s.pools && t.secrets == s.secrets
      else t == s
  {
  }

  // ----- A whole pool reconcile

  /** As many NodePools carry the edge's label as are declared, and each declared one is among them as declared. */
  ghost predicate AsDeclared(d: Declared, s: Store, e: string)
    requires e in d
  {
    && |set n | n in s.pools && s.pools[n].edgeLabel == e| == |d[e].pools|
    && forall i :: 0 <= i < |d[e].pools| ==>
      var n := e + "-" + d[e].pools[i].name;
      n in s.pools && s.pools[n].edgeLabel == e && s.pools[n].settings == d[e].pools[i].settings
  }

  /** The last of the declared pools of this NodePool name. */
  ghost predicate LastNamed(e: string, pools: seq<PoolDecl>, n: string, i: int) {
    0 <= i < |pools| && e + "-" + pools[i].name == n && forall j :: i < j < |pools| ==> e + "-" + pools[j].name != n
  }

  lemma {:induction false} LastNamedSettings(e: string, pools: seq<PoolDecl>, n: string)
    ensures LastSettings(e, pools, n) == [] <==> forall i :: 0 <= i < |pools| ==> e + "-" + pools[i].name != n
    ensures forall i :: LastNamed(e, pools, n, i) ==> LastSettings(e, pools, n) == [pools[i].settings]
  {
    if pools != [] {
      var init, last := pools[..|pools| - 1], pools[|pools| - 1];
      LastNamedSettings(e, init, n);
      assert forall i :: 0 <= i < |init| ==> init[i] == pools[i];
      forall i | LastNamed(e, pools, n, i) ensures LastSettings(e, pools, n) == [pools[i].settings] {
        if e + "-" + last.name != n {
          assert LastNamed(e, init, n, i);
        } else {
          assert i == |pools| - 1;
        }
      }
    }
  }

  /**
   * A reconcile that reaches the pools changes nothing when the listed ones are as declared; else it
   * gives every declared NodePool the edge's fields and its last document's settings, keeping its
   * meta. It never touches another NodePool, nor anything else.
   */
  lemma {:induction false} PoolsApplied(d: Declared, s: Store, e: string, n: string)
    requires e in d
    ensures var t := ReconPoolSpec(d, s, e);
      && (!EdgeInOrder(s, e) || AsDeclared(d, s, e) ==> t == s)
      && ((forall i :: 0 <= i < |d[e].pools| ==> e + "-" + d[e].pools[i].name != n) ==>
          (n in t.pools <==> n in s.pools) && (n in s.pools ==> t.pools[n] == s.pools[n]))
      && (EdgeInOrder(s, e) && !AsDeclared(d, s, e) ==> forall i :: LastNamed(e, d[e].pools, n, i) ==>
          && n in t.pools && t.pools[n].edgeLabel == e && t.pools[n].edgeName == e
          && t.pools[n].providerName == s.edges[e].providerName
          && t.pools[n].settings == d[e].pools[i].settings
          && t.pools[n].meta == if n in s.pools then s.pools[n].meta else Meta({}, false))
      && t.providers == s.providers && t.edges == s.edges && t.workers == s.workers && t.secrets == s.secrets
  {
    assert PoolsOf(s, e) == set m | m in s.pools && s.pools[m].edgeLabel == e;
    if AsDeclared(d, s, e) {
      forall i | 0 <= i < |d[e].pools| ensures Matched(s, e, d[e].pools[i]) {
        var m := e + "-" + d[e].pools[i].name;
        assert m in PoolsOf(s, e);
      }
    } else if PoolsInStep(d, s, e) {
      forall i | 0 <= i < |d[e].pools|
        ensures var m := e + "-" + d[e].pools[i].name;
          m in s.pools && s.pools[m].edgeLabel == e && s.pools[m].settings == d[e].pools[i].settings
      {
        assert Matched(s, e, d[e].pools[i]);
      }
      assert false;
    }
    if ReachesPools(s, e) {
      UpdatedPool(d, s, e, d[e].pools, n);
      LastNamedSettings(e, d[e].pools, n);
    }
  }

  // ----- Users, the garbage collector and the jobs

  /** What becomes of an object whose meta is written: it goes when it is marked and nothing holds it. */
  ghost predicate MetaWritten(s: Store, t: Store, kind: Kind, name: string, meta: Meta) {
    var goes := meta.deleting && meta.finalizers == {};
    && (if kind == KProvider then SameBut(s.providers, t.providers, name)
          && (name in t.providers <==> !goes) && (!goes ==> t.providers[name] == meta)
        else t.providers == s.providers)
    && (if kind == KEdge then SameBut(s.edges, t.edges, name) && name in s.edges
          && (name in t.edges <==> !goes)
          && (!goes ==> t.edges[name] == Edge(meta, s.edges[name].labelled, s.edges[name].providerName))
        else t.edges == s.edges)
    && (if kind == KPool then SameBut(s.pools, t.pools, name) && name in s.pools
          && (name in t.pools <==> !goes) && (!goes ==> t.pools[name] == s.pools[name].(meta := meta))
        else t.pools == s.pools)
    && (if kind == KWorker then SameBut(s.workers, t.workers, name) && name in s.workers
          && (name in t.workers <==> !goes) && (!goes ==> t.workers[name] == s.workers[name].(meta := meta))
        else t.workers == s.workers)
    && t.secrets == s.secrets
  }

  /** The object of this kind and name has this meta. */
  ghost predicate HasMeta(s: Store, kind: Kind, name: string, meta: Meta) {
    match kind
    case KProvider => name in s.providers && s.providers[name] == meta
    case KEdge => name in s.edges && s.edges[name].meta == meta
    case KPool => name in s.pools && s.pools[name].meta == meta
    case KWorker => name in s.workers && s.workers[name].meta == meta
  }

  /** A delete request marks the object, which goes at once when nothing holds it. */
  lemma {:induction false} DeleteRequested(d: Declared, s: Store, kind: Kind, name: string, meta: Meta)
    ensures HasMeta(s, kind, name, meta) ==>
      MetaWritten(s, Next(d, s, RequestDelete(kind, name)), kind, name, Meta(meta.finalizers, true))
    ensures (forall m :: !HasMeta(s, kind, name, m)) ==> Next(d, s, RequestDelete(kind, name)) == s
  {
    if Exists(s, kind, name) {
      assert HasMeta(s, kind, name, MetaOf(s, kind, name));
    }
  }

  /** The garbage collector takes its own finalizer off a marked object, and nothing else off anything. */
  lemma {:induction false} ForegroundReleased(d: Declared, s: Store, kind: Kind, name: string, meta: Meta)
    requires HasMeta(s, kind, name, meta)
    ensures var t := Next(d, s, ReleaseForeground(kind, name));
      if meta.deleting then MetaWritten(s, t, kind, name, Meta(meta.finalizers - {Foreground}, true)) else t == s
  {
    assert Exists(s, kind, name) && MetaOf(s, kind, name) == meta;
  }

  /** New providers and edges have no finalizers yet, and an edge no label; each appears once. */
  lemma {:induction false} ObjectsCreated(d: Declared, s: Store, name: string)
    ensures Next(d, s, CreateProvider(name)) ==
      if name in s.providers then s else s.(providers := s.providers[name := Meta({}, false)])
    ensures Next(d, s, CreateSecret(name)) == s.(secrets := s.secrets + {name})
    ensures Next(d, s, CreateEdge(name)) ==
      if name in s.edges || name !in d then s
      else s.(edges := s.edges[name := Edge(Meta({}, false), false, d[name].providerName)])
  {
  }

  /** Jobs and Nodes change only their own mark on a worker. */
  lemma {:induction false} OutsideEffects(d: Declared, s: Store, w: string)
    requires w in s.workers
    ensures var t, was := Next(d, s, FinishCreateJob(w)), s.workers[w];
      t == s.(workers := s.workers[w := was.(machine := was.machine || was.createJob, createJob := false)])
    ensures var t, was := Next(d, s, LoseCreateJob(w)), s.workers[w];
      t == s.(workers := s.workers[w := was.(createJob := false)])
    ensures var t, was := Next(d, s, AttachNode(w)), s.workers[w];
      t == s.(workers := s.workers[w := was.(node := was.node || was.machine)])
    ensures var t, was := Next(d, s, FinishDeleteJob(w)), s.workers[w];
      t == s.(workers := s.workers[w := was.(machine := was.machine && !was.deleteJob, deleteJob := false)])
  {
    assert s.workers == s.workers[w := s.workers[w]];
  }
}
