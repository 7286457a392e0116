/** Provider credentials outlive the workers that need them: when, and exactly when. */
module TeardownSafety {
  import opened Cluster

  /** No two declared edges produce a NodePool of the same name. */
  ghost predicate NoSharedPoolNames(d: Declared) {
    forall e1, e2, p1, p2 | e1 in d && e2 in d && p1 in d[e1].pools && p2 in d[e2].pools ::
      PoolName(e1, p1.name) == PoolName(e2, p2.name) ==> e1 == e2
  }

  // ----- The chain of custody

  ghost predicate EdgesDeclared(d: Declared, s: Store) {
    forall e :: e in s.edges ==> e in d && s.edges[e].providerName == d[e].providerName
  }

  /** The name is one that this edge's declaration produces. */
  ghost predicate NamedBy(d: Declared, e: string, n: string)
    requires e in d
  {
    exists p :: p in d[e].pools && n == PoolName(e, p.name)
  }

  /** A pool's edge still exists, is labelled and holds the operator's finalizer. */
  ghost predicate PoolHeld(d: Declared, s: Store, n: string)
    requires n in s.pools
  {
    var pool := s.pools[n];
    && pool.edgeLabel == pool.edgeName
    && pool.edgeName in d && pool.edgeName in s.edges
    && s.edges[pool.edgeName].labelled && Common in s.edges[pool.edgeName].meta.finalizers
    && pool.providerName == d[pool.edgeName].providerName
    && NamedBy(d, pool.edgeName, n)
  }

  /** A worker's pool still exists, belongs to the same edge and holds the operator's finalizer. */
  ghost predicate WorkerHeld(s: Store, w: string)
    requires w in s.workers
  {
    var worker := s.workers[w];
    && worker.pool in s.pools && Common in s.pools[worker.pool].meta.finalizers
    && s.pools[worker.pool].edgeName == worker.region
    && s.pools[worker.pool].providerName == worker.providerName
  }

  ghost predicate Custody(d: Declared, s: Store) {
    && EdgesDeclared(d, s)
    && (forall n :: n in s.pools ==> PoolHeld(d, s, n))
    && (forall w :: w in s.workers ==> WorkerHeld(s, w))
  }

  /** The step makes the operator delete a secret that an existing worker's jobs are built from. */
  ghost predicate DeletesNeededSecret(d: Declared, s: Store, step: Step) {
    exists w :: w in s.workers
      && s.workers[w].providerName in s.secrets
      && s.workers[w].providerName !in Next(d, s, step).secrets
  }

  // ----- Every step keeps it

  lemma {:induction false} PoolNameDecides(d: Declared, s: Store, e: string, p: PoolDecl)
    requires NoSharedPoolNames(d) && Custody(d, s)
    requires e in d && p in d[e].pools && PoolName(e, p.name) in s.pools
    ensures s.pools[PoolName(e, p.name)].edgeName == e
  {
    assert PoolHeld(d, s, PoolName(e, p.name));
    assert NamedBy(d, s.pools[PoolName(e, p.name)].edgeName, PoolName(e, p.name));
  }

  /** Only edges changed, and an edge that has pools kept its label and finalizer. */
  lemma {:induction false} EdgeFrame(d: Declared, s: Store, t: Store)
    requires Custody(d, s) && t.pools == s.pools && t.workers == s.workers && EdgesDeclared(d, t)
    requires forall n, e :: n in s.pools && e in s.edges && s.pools[n].edgeName == e ==>
      e in t.edges && (s.edges[e].labelled ==> t.edges[e].labelled)
      && (Common in s.edges[e].meta.finalizers ==> Common in t.edges[e].meta.finalizers)
    ensures Custody(d, t)
  {
    forall n | n in t.pools ensures PoolHeld(d, t, n) {
      assert PoolHeld(d, s, n);
    }
    forall w | w in t.workers ensures WorkerHeld(t, w) {
      assert WorkerHeld(s, w);
    }
  }

  lemma {:induction false} DropEdgeKeeps(d: Declared, s: Store, name: string)
    requires Custody(d, s) && PoolsOf(s, name) == {}
    ensures Custody(d, s.(edges := s.edges - {name}))
  {
    forall n | n in s.pools ensures s.pools[n].edgeName != name {
      assert PoolHeld(d, s, n);
      assert n !in PoolsOf(s, name);
    }
    EdgeFrame(d, s, s.(edges := s.edges - {name}));
  }

  lemma {:induction false} PutEdgeKeeps(d: Declared, s: Store, name: string, edge: Edge)
    requires Custody(d, s) && name in s.edges && edge.providerName == s.edges[name].providerName
    requires s.edges[name].labelled ==> edge.labelled
    requires Common in s.edges[name].meta.finalizers ==> Common in edge.meta.finalizers
    ensures Custody(d, s.(edges := s.edges[name := edge]))
  {
    EdgeFrame(d, s, s.(edges := s.edges[name := edge]));
  }

  lemma {:induction false} EdgeStepKeeps(d: Declared, s: Store, name: string)
    requires Custody(d, s)
    ensures Custody(d, ReconcileEdgeSpec(s, name))
  {
    var t := ReconcileEdgeSpec(s, name);
    if name in s.edges && name in t.edges {
      PutEdgeKeeps(d, s, name, t.edges[name]);
      assert s.edges == s.edges[name := s.edges[name]];
    } else if name in s.edges {
      DropEdgeKeeps(d, s, name);
    }
  }

  predicate SamePlace(a: NodePool, b: NodePool) {
    a.edgeLabel == b.edgeLabel && a.edgeName == b.edgeName && a.providerName == b.providerName
  }

  /** Only pools changed: a worker's pool stayed, in place and held. */
  lemma {:induction false} PoolFrame(d: Declared, s: Store, t: Store)
    requires Custody(d, s) && t.edges == s.edges && t.workers == s.workers
    requires forall n :: n in t.pools ==>
      (n in s.pools && SamePlace(s.pools[n], t.pools[n])) || PoolHeld(d, t, n)
    requires forall w :: w in s.workers && s.workers[w].pool in s.pools ==>
      var n := s.workers[w].pool;
      n in t.pools && SamePlace(s.pools[n], t.pools[n])
      && (Common in s.pools[n].meta.finalizers ==> Common in t.pools[n].meta.finalizers)
    ensures Custody(d, t)
  {
    forall n | n in t.pools ensures PoolHeld(d, t, n) {
      assert n in s.pools ==> PoolHeld(d, s, n);
    }
    forall w | w in t.workers ensures WorkerHeld(t, w) {
      assert WorkerHeld(s, w);
    }
  }

  lemma {:induction false} DropPoolKeeps(d: Declared, s: Store, name: string)
    requires Custody(d, s) && name in s.pools && WorkersOf(s, s.pools[name].edgeName) == {}
    ensures Custody(d, s.(pools := s.pools - {name}))
  {
    forall w | w in s.workers ensures s.workers[w].pool != name {
      assert WorkerHeld(s, w);
      assert w !in WorkersOf(s, s.pools[name].edgeName);
    }
    PoolFrame(d, s, s.(pools := s.pools - {name}));
  }

  lemma {:induction false} PutPoolMetaKeeps(d: Declared, s: Store, name: string, meta: Meta)
    requires Custody(d, s) && name in s.pools
    requires Common in s.pools[name].meta.finalizers ==> Common in meta.finalizers
    ensures Custody(d, s.(pools := s.pools[name := s.pools[name].(meta := meta)]))
  {
    PoolFrame(d, s, s.(pools := s.pools[name := s.pools[name].(meta := meta)]));
  }

  lemma {:induction false} PoolStepKeeps(d: Declared, s: Store, name: string)
    requires Custody(d, s)
    ensures Custody(d, ReconcilePoolSpec(s, name))
  {
    if name in s.pools {
      var meta := s.pools[name].meta;
      if !meta.deleting {
        PutPoolMetaKeeps(d, s, name, meta.(finalizers := BOTH));
      } else if WorkersOf(s, s.pools[name].edgeName) == {} {
        DropPoolKeeps(d, s, name);
      }
    }
  }

  lemma {:induction false} AppliedPoolHeld(d: Declared, s: Store, e: string, p: PoolDecl)
    requires EdgesDeclared(d, s) && ReachesPools(s, e) && e in d && p in d[e].pools
    ensures PoolHeld(d, ApplyPoolSpec(d, s, e, p), PoolName(e, p.name))
  {
    assert NamedBy(d, e, PoolName(e, p.name));
  }

  lemma {:induction false} PutPoolKeeps(d: Declared, s: Store, n: string, pool: NodePool)
    requires Custody(d, s) && PoolHeld(d, s.(pools := s.pools[n := pool]), n)
    requires n in s.pools ==> SamePlace(s.pools[n], pool) && pool.meta == s.pools[n].meta
    ensures Custody(d, s.(pools := s.pools[n := pool]))
  {
    PoolFrame(d, s, s.(pools := s.pools[n := pool]));
  }

  lemma {:induction false} ApplyStepKeeps(d: Declared, s: Store, e: string, p: PoolDecl)
    requires NoSharedPoolNames(d) && Custody(d, s)
    ensures Custody(d, ApplyPoolSpec(d, s, e, p))
  {
    if ReachesPools(s, e) && e in d && p in d[e].pools {
      var t, n := ApplyPoolSpec(d, s, e, p), PoolName(e, p.name);
      AppliedPoolHeld(d, s, e, p);
      if n in s.pools {
        PoolNameDecides(d, s, e, p);
        assert PoolHeld(d, s, n);
      }
      PutPoolKeeps(d, s, n, t.pools[n]);
    }
  }

  lemma {:induction false} MetaStepKeeps(d: Declared, s: Store, kind: Kind, name: string, meta: Meta)
    requires Custody(d, s) && Exists(s, kind, name)
    requires Common in MetaOf(s, kind, name).finalizers ==> Common in meta.finalizers
    ensures Custody(d, Put(s, kind, name, meta))
  {
    if meta.deleting && meta.finalizers == {} {
      DropKeeps(d, s, kind, name);
    } else {
      match kind
      case KProvider => SameObjects(d, s, WithMeta(s, kind, name, meta));
      case KEdge => PutEdgeKeeps(d, s, name, s.edges[name].(meta := meta));
      case KPool => PutPoolMetaKeeps(d, s, name, meta);
      case KWorker => WorkerFrame(d, s, WithMeta(s, kind, name, meta));
    }
  }

  /** Without the operator's finalizer an object cannot hold anything. */
  lemma {:induction false} DropKeeps(d: Declared, s: Store, kind: Kind, name: string)
    requires Custody(d, s) && Exists(s, kind, name) && Common !in MetaOf(s, kind, name).finalizers
    ensures Custody(d, Drop(s, kind, name))
  {
    match kind
    case KProvider => SameObjects(d, s, Drop(s, kind, name));
    case KEdge =>
      forall n | n in s.pools ensures s.pools[n].edgeName != name {
        assert PoolHeld(d, s, n);
      }
      EdgeFrame(d, s, Drop(s, kind, name));
    case KPool =>
      forall w | w in s.workers ensures s.workers[w].pool != name {
        assert WorkerHeld(s, w);
      }
      PoolFrame(d, s, Drop(s, kind, name));
    case KWorker => WorkerFrame(d, s, Drop(s, kind, name));
  }

  /** Only workers changed: the old ones kept pool, region and provider, and new ones are held. */
  lemma {:induction false} WorkerFrame(d: Declared, s: Store, t: Store)
    requires Custody(d, s) && t.pools == s.pools && t.edges == s.edges
    requires forall w :: w in t.workers && w in s.workers ==>
      t.workers[w].pool == s.workers[w].pool && t.workers[w].region == s.workers[w].region
      && t.workers[w].providerName == s.workers[w].providerName
    requires forall w :: w in t.workers && w !in s.workers ==> WorkerHeld(t, w)
    ensures Custody(d, t)
  {
    forall n | n in t.pools ensures PoolHeld(d, t, n) {
      assert PoolHeld(d, s, n);
    }
    forall w | w in t.workers ensures WorkerHeld(t, w) {
      assert w in s.workers ==> WorkerHeld(s, w);
    }
  }

  lemma {:induction false} AddWorkerKeeps(d: Declared, s: Store, n: string, name: string)
    requires Custody(d, s)
    ensures Custody(d, AddWorkerSpec(s, n, name))
  {
    WorkerFrame(d, s, AddWorkerSpec(s, n, name));
  }

  /** A worker is let go, or changes in what is no part of the custody. */
  predicate SamePost(a: WorkerNode, b: WorkerNode) {
    a.pool == b.pool && a.region == b.region && a.providerName == b.providerName
  }

  lemma {:induction false} PutWorkerKeeps(d: Declared, s: Store, name: string, w: WorkerNode)
    requires Custody(d, s) && name in s.workers && SamePost(s.workers[name], w)
    ensures Custody(d, s.(workers := s.workers[name := w]))
  {
    WorkerFrame(d, s, s.(workers := s.workers[name := w]));
  }

  lemma {:induction false} DropWorkerKeeps(d: Declared, s: Store, name: string)
    requires Custody(d, s)
    ensures Custody(d, s.(workers := s.workers - {name}))
  {
    WorkerFrame(d, s, s.(workers := s.workers - {name}));
  }

  /** What a step leaves of a worker it is about. */
  ghost predicate WorkerOnly(s: Store, t: Store, name: string) {
    || t == s
    || t == s.(workers := s.workers - {name})
    || (name in s.workers && name in t.workers && SamePost(s.workers[name], t.workers[name])
        && t == s.(workers := s.workers[name := t.workers[name]]))
  }

  lemma {:induction false} WorkerOnlyKeeps(d: Declared, s: Store, t: Store, name: string)
    requires Custody(d, s) && WorkerOnly(s, t, name)
    ensures Custody(d, t)
  {
    if t == s {
    } else if t == s.(workers := s.workers - {name}) {
      DropWorkerKeeps(d, s, name);
    } else {
      PutWorkerKeeps(d, s, name, t.workers[name]);
    }
  }

  lemma {:induction false} ProviderStepKeeps(d: Declared, s: Store, name: string)
    requires Custody(d, s)
    ensures Custody(d, ReconcileProviderSpec(s, name))
  {
    EdgeFrame(d, s, ReconcileProviderSpec(s, name));
  }

  lemma {:induction false} CreateEdgeKeeps(d: Declared, s: Store, e: string)
    requires Custody(d, s) && e in d && e !in s.edges
    ensures Custody(d, s.(edges := s.edges[e := Edge(NEW, false, d[e].providerName)]))
  {
    EdgeFrame(d, s, s.(edges := s.edges[e := Edge(NEW, false, d[e].providerName)]));
  }

  /** Providers and secrets are no part of the custody. */
  lemma {:induction false} SameObjects(d: Declared, s: Store, t: Store)
    requires Custody(d, s) && t.edges == s.edges && t.pools == s.pools && t.workers == s.workers
    ensures Custody(d, t)
  {
    EdgeFrame(d, s, t);
  }

  lemma {:induction false} RequestDeleteKeeps(d: Declared, s: Store, kind: Kind, name: string)
    requires Custody(d, s)
    ensures Custody(d, RequestDeleteSpec(s, kind, name))
  {
    if Exists(s, kind, name) {
      MetaStepKeeps(d, s, kind, name, MetaOf(s, kind, name).(deleting := true));
    }
  }

  lemma {:induction false} ReleaseForegroundKeeps(d: Declared, s: Store, kind: Kind, name: string)
    requires Custody(d, s)
    ensures Custody(d, ReleaseForegroundSpec(s, kind, name))
  {
    if Exists(s, kind, name) {
      var meta := MetaOf(s, kind, name);
      MetaStepKeeps(d, s, kind, name, meta.(finalizers := meta.finalizers - {Foreground}));
    }
  }

  lemma {:induction false} WorkerStepKeeps(d: Declared, s: Store, step: Step)
    requires Custody(d, s)
    requires step.ReconcileWorker? || step.FinishCreateJob? || step.LoseCreateJob? || step.AttachNode?
      || step.FinishDeleteJob?
    ensures Custody(d, Next(d, s, step))
  {
    match step
    case ReconcileWorker(name, readable) =>
      ReconcileWorkerOnly(s, name, readable);
      WorkerOnlyKeeps(d, s, ReconcileWorkerSpec(s, name, readable), name);
    case FinishCreateJob(name) => WorkerOnlyKeeps(d, s, FinishCreateSpec(s, name), name);
    case LoseCreateJob(name) => WorkerOnlyKeeps(d, s, LoseCreateSpec(s, name), name);
    case AttachNode(name) => WorkerOnlyKeeps(d, s, AttachSpec(s, name), name);
    case FinishDeleteJob(name) => WorkerOnlyKeeps(d, s, FinishDeleteSpec(s, name), name);
  }

  lemma {:induction false} ReconcileWorkerOnly(s: Store, name: string, readable: bool)
    ensures WorkerOnly(s, ReconcileWorkerSpec(s, name, readable), name)
  {
  }

  lemma {:induction false} ControllerStepKeeps(d: Declared, s: Store, step: Step)
    requires NoSharedPoolNames(d) && Custody(d, s)
    requires step.ReconcileProvider? || step.ReconcileEdge? || step.ApplyPool? || step.ReconcilePool?
      || step.AddWorker?
    ensures Custody(d, Next(d, s, step))
  {
    match step
    case ReconcileProvider(name) => ProviderStepKeeps(d, s, name);
    case ReconcileEdge(name) => EdgeStepKeeps(d, s, name);
    case ApplyPool(e, p) => ApplyStepKeeps(d, s, e, p);
    case ReconcilePool(name) => PoolStepKeeps(d, s, name);
    case AddWorker(n, name) => AddWorkerKeeps(d, s, n, name);
  }

  lemma {:induction false} UserStepKeeps(d: Declared, s: Store, step: Step)
    requires Custody(d, s)
    requires step.CreateProvider? || step.CreateSecret? || step.CreateEdge? || step.RequestDelete?
      || step.ReleaseForeground?
    ensures Custody(d, Next(d, s, step))
  {
    match step
    case CreateProvider(_) => SameObjects(d, s, Next(d, s, step));
    case CreateSecret(_) => SameObjects(d, s, Next(d, s, step));
    case CreateEdge(e) =>
      if e in d && e !in s.edges {
        CreateEdgeKeeps(d, s, e);
      }
    case RequestDelete(kind, name) => RequestDeleteKeeps(d, s, kind, name);
    case ReleaseForeground(kind, name) => ReleaseForegroundKeeps(d, s, kind, name);
  }

  lemma {:induction false} StepKeeps(d: Declared, s: Store, step: Step)
    requires NoSharedPoolNames(d) && Custody(d, s)
    ensures Custody(d, Next(d, s, step))
  {
    if step.ReconcileWorker? || step.FinishCreateJob? || step.LoseCreateJob? || step.AttachNode?
      || step.FinishDeleteJob? {
      WorkerStepKeeps(d, s, step);
    } else if step.ReconcileProvider? || step.ReconcileEdge? || step.ApplyPool? || step.ReconcilePool?
      || step.AddWorker? {
      ControllerStepKeeps(d, s, step);
    } else {
      UserStepKeeps(d, s, step);
    }
  }

  lemma {:induction false} CustodyProtectsSecrets(d: Declared, s: Store, step: Step)
    requires Custody(d, s)
    ensures !DeletesNeededSecret(d, s, step)
  {
    forall w | w in s.workers && s.workers[w].providerName in s.secrets
      ensures s.workers[w].providerName in Next(d, s, step).secrets
    {
      EdgeInTheWay(d, s, w);
      SecretStays(d, s, step, s.workers[w].providerName);
    }
  }

  lemma {:induction false} EdgeInTheWay(d: Declared, s: Store, w: string)
    requires Custody(d, s) && w in s.workers
    ensures s.workers[w].region in EdgesOf(s, s.workers[w].providerName)
  {
    assert WorkerHeld(s, w);
    assert PoolHeld(d, s, s.workers[w].pool);
  }

  /** Only the provider's own finalize deletes its secret, once no edge is listed for it. */
  lemma {:induction false} SecretStays(d: Declared, s: Store, step: Step, q: string)
    requires q in s.secrets && EdgesOf(s, q) != {}
    ensures q in Next(d, s, step).secrets
  {
    match step
    case RequestDelete(kind, name) => assert RequestDeleteSpec(s, kind, name).secrets == s.secrets;
    case ReleaseForeground(kind, name) => assert ReleaseForegroundSpec(s, kind, name).secrets == s.secrets;
    case _ =>
  }

  /** Every reachable store: each worker's pool, and that pool's labelled edge, still exist. */
  lemma {:induction false} ReachableCustody(d: Declared, steps: seq<Step>)
    requires NoSharedPoolNames(d)
    ensures Custody(d, Exec(d, EMPTY, steps))
  {
    if steps != [] {
      ReachableCustody(d, steps[..|steps| - 1]);
      StepKeeps(d, Exec(d, EMPTY, steps[..|steps| - 1]), steps[|steps| - 1]);
    }
  }

  /** In words of the objects: what the custody of a worker amounts to. */
  lemma {:induction false} WorkersAncestorsExist(d: Declared, steps: seq<Step>, w: string)
    requires NoSharedPoolNames(d) && w in Exec(d, EMPTY, steps).workers
    ensures var s := Exec(d, EMPTY, steps);
            var worker := s.workers[w];
      && worker.pool in s.pools && s.pools[worker.pool].edgeLabel == worker.region
      && worker.region in s.edges && s.edges[worker.region].labelled
      && s.edges[worker.region].providerName == worker.providerName
  {
    ReachableCustody(d, steps);
    var s := Exec(d, EMPTY, steps);
    assert WorkerHeld(s, w);
    assert PoolHeld(d, s, s.workers[w].pool);
  }

  // ----- Where names collide: a run that takes the credentials from a living worker

  /** No run of the declared edges ever reaches a step that deletes a needed secret. */
  ghost predicate Safe(d: Declared) {
    forall steps, step :: !DeletesNeededSecret(d, Exec(d, EMPTY, steps), step)
  }

  /** One more step of a run under construction. */
  lemma {:induction false} Then(d: Declared, base: Store, steps: seq<Step>, step: Step)
      returns (longer: seq<Step>, s: Store)
    ensures longer == steps + [step]
    ensures s == Exec(d, base, longer) == Next(d, Exec(d, base, steps), step)
  {
    longer := steps + [step];
    assert longer[..|longer| - 1] == steps;
    s := Exec(d, base, longer);
  }

  function Up(d: Declared, e: string): Edge
    requires e in d
  {
    Edge(Meta(BOTH, false), true, d[e].providerName)
  }

  lemma {:induction false} EdgeUp(d: Declared, steps: seq<Step>, e: string) returns (longer: seq<Step>, s: Store)
    requires e in d && e !in Exec(d, EMPTY, steps).edges
    ensures var before := Exec(d, EMPTY, steps);
      s == Exec(d, EMPTY, longer) == before.(edges := before.edges[e := Up(d, e)])
  {
    longer, s := Then(d, EMPTY, steps, CreateEdge(e));
    longer, s := Then(d, EMPTY, longer, ReconcileEdge(e));
    longer, s := Then(d, EMPTY, longer, ReconcileEdge(e));
  }

  lemma {:induction false} EdgeDown(d: Declared, steps: seq<Step>, e: string) returns (longer: seq<Step>, s: Store)
    requires var before := Exec(d, EMPTY, steps);
      e in d && e in before.edges && before.edges[e] == Up(d, e) && PoolsOf(before, e) == {}
    ensures var before := Exec(d, EMPTY, steps);
      s == Exec(d, EMPTY, longer) == before.(edges := before.edges - {e})
  {
    var before := Exec(d, EMPTY, steps);
    longer, s := Then(d, EMPTY, steps, RequestDelete(KEdge, e));
    assert PoolsOf(s, e) == PoolsOf(before, e);
    longer, s := Then(d, EMPTY, longer, ReconcileEdge(e));
    assert s.edges == before.edges - {e};
  }

  lemma {:induction false} PoolDown(d: Declared, steps: seq<Step>, n: string)
      returns (longer: seq<Step>, s: Store)
    requires var before := Exec(d, EMPTY, steps);
      n in before.pools && before.pools[n].meta == Meta(BOTH, false)
      && WorkersOf(before, before.pools[n].edgeName) == {}
    ensures var before := Exec(d, EMPTY, steps);
      s == Exec(d, EMPTY, longer) == before.(pools := before.pools - {n})
  {
    var before := Exec(d, EMPTY, steps);
    longer, s := Then(d, EMPTY, steps, RequestDelete(KPool, n));
    assert WorkersOf(s, s.pools[n].edgeName) == WorkersOf(before, before.pools[n].edgeName);
    longer, s := Then(d, EMPTY, longer, ReconcilePool(n));
    assert s.pools == before.pools - {n};
  }

  /** The worker's name in the runs below, and a worker in its first state. */
  const W := "w"

  function NewOne(d: Declared, e: string, p: PoolDecl): WorkerNode
    requires e in d
  {
    WorkerNode(NEW, PoolName(e, p.name), e, d[e].providerName, false, false, false, false)
  }

  function HeldPool(d: Declared, e: string, p: PoolDecl): NodePool
    requires e in d
  {
    NodePool(Meta(BOTH, false), e, e, d[e].providerName, p.settings)
  }

  /** A provider with its secret, one edge, one pool and this worker. */
  function OneWorker(d: Declared, e: string, p: PoolDecl, w: WorkerNode): Store
    requires e in d
  {
    Store(
      map[d[e].providerName := Meta(BOTH, false)], map[e := Up(d, e)],
      map[PoolName(e, p.name) := HeldPool(d, e, p)], map[W := w], {d[e].providerName})
  }

  lemma {:induction false} WorkerUp(d: Declared, e: string, p: PoolDecl) returns (steps: seq<Step>, s: Store)
    requires e in d && p in d[e].pools
    ensures s == Exec(d, EMPTY, steps) == OneWorker(d, e, p, NewOne(d, e, p))
  {
    var q, n := d[e].providerName, PoolName(e, p.name);
    steps, s := Then(d, EMPTY, [], CreateProvider(q));
    steps, s := Then(d, EMPTY, steps, ReconcileProvider(q));
    steps, s := Then(d, EMPTY, steps, CreateSecret(q));
    assert s == Store(map[q := Meta(BOTH, false)], map[], map[], map[], {q});
    steps, s := EdgeUp(d, steps, e);
    steps, s := Then(d, EMPTY, steps, ApplyPool(e, p));
    steps, s := Then(d, EMPTY, steps, ReconcilePool(n));
    assert s.pools == map[n := HeldPool(d, e, p)];
    steps, s := Then(d, EMPTY, steps, AddWorker(n, W));
  }

  ghost predicate Collide(d: Declared, e1: string, p1: PoolDecl, e2: string, p2: PoolDecl) {
    && e1 in d && p1 in d[e1].pools && e2 in d && p2 in d[e2].pools
    && e1 != e2 && PoolName(e1, p1.name) == PoolName(e2, p2.name)
  }

  function ProvidersOf(d: Declared, e1: string, e2: string): map<string, Meta>
    requires e1 in d && e2 in d
  {
    map[d[e1].providerName := Meta(BOTH, false)]
    + if d[e1].providerName == d[e2].providerName then map[] else map[d[e2].providerName := NEW]
  }

  /** Both edges are up, and the pool is still the first one's. */
  lemma {:induction false} BothUp(
      d: Declared, e1: string, p1: PoolDecl, e2: string, w: WorkerNode, before: seq<Step>)
      returns (steps: seq<Step>, s: Store)
    requires e1 in d && e2 in d && e1 != e2 && Exec(d, EMPTY, before) == OneWorker(d, e1, p1, w)
    ensures s == Exec(d, EMPTY, steps) == Store(
      ProvidersOf(d, e1, e2), map[e1 := Up(d, e1), e2 := Up(d, e2)],
      map[PoolName(e1, p1.name) := HeldPool(d, e1, p1)], map[W := w], {d[e1].providerName})
  {
    steps, s := Then(d, EMPTY, before, CreateProvider(d[e2].providerName));
    steps, s := EdgeUp(d, steps, e2);
  }

  /** Edge e2 has applied a pool of the same name, which moved the pool away from e1's worker. */
  function TakenStore(d: Declared, e1: string, e2: string, p2: PoolDecl, w: WorkerNode): Store
    requires e1 in d && e2 in d
  {
    Store(
      ProvidersOf(d, e1, e2), map[e1 := Up(d, e1), e2 := Up(d, e2)],
      map[PoolName(e2, p2.name) := HeldPool(d, e2, p2)], map[W := w], {d[e1].providerName})
  }

  lemma {:induction false} TakenOver(
      d: Declared, e1: string, p1: PoolDecl, e2: string, p2: PoolDecl, w: WorkerNode, before: seq<Step>)
      returns (steps: seq<Step>, s: Store)
    requires Collide(d, e1, p1, e2, p2) && Exec(d, EMPTY, before) == OneWorker(d, e1, p1, w)
    ensures s == Exec(d, EMPTY, steps) == TakenStore(d, e1, e2, p2, w)
  {
    steps, s := BothUp(d, e1, p1, e2, w, before);
    steps, s := Then(d, EMPTY, steps, ApplyPool(e2, p2));
  }

  /** The pool and its new edge can now be deleted, since the worker carries the other edge's label. */
  lemma {:induction false} Abandoned(d: Declared, e1: string, p1: PoolDecl, e2: string, p2: PoolDecl)
      returns (steps: seq<Step>, s: Store)
    requires Collide(d, e1, p1, e2, p2)
    ensures s == Exec(d, EMPTY, steps) == Store(
      ProvidersOf(d, e1, e2), map[e2 := Up(d, e2)], map[], map[W := NewOne(d, e1, p1)], {d[e1].providerName})
  {
    steps, s := WorkerUp(d, e1, p1);
    steps, s := TakenOver(d, e1, p1, e2, p2, NewOne(d, e1, p1), steps);
    assert PoolsOf(s, e1) == {};
    steps, s := EdgeDown(d, steps, e1);
    assert s.edges == map[e2 := Up(d, e2)];
    assert WorkersOf(s, e2) == {};
    steps, s := PoolDown(d, steps, PoolName(e2, p2.name));
    assert s.pools == map[];
  }

  lemma {:induction false} CollisionRun(d: Declared, e1: string, p1: PoolDecl, e2: string, p2: PoolDecl)
      returns (steps: seq<Step>)
    requires Collide(d, e1, p1, e2, p2)
    ensures DeletesNeededSecret(d, Exec(d, EMPTY, steps), ReconcileProvider(d[e1].providerName))
  {
    var q1, s := d[e1].providerName, EMPTY;
    steps, s := Abandoned(d, e1, p1, e2, p2);
    assert PoolsOf(s, e2) == {};
    steps, s := EdgeDown(d, steps, e2);
    steps, s := Then(d, EMPTY, steps, RequestDelete(KProvider, q1));
    assert EdgesOf(s, q1) == {};
    assert W in s.workers;
  }

  /**
   * The operator never deletes credentials a living worker needs, in any run, if and only if no two
   * declared edges share a NodePool name. Edge "a" with pool "b-c" and edge "a-b" with pool "c" do.
   */
  lemma {:induction false} CredentialsOutliveWorkersExactly(d: Declared)
    ensures Safe(d) <==> NoSharedPoolNames(d)
  {
    if NoSharedPoolNames(d) {
      forall steps, step ensures !DeletesNeededSecret(d, Exec(d, EMPTY, steps), step) {
        ReachableCustody(d, steps);
        CustodyProtectsSecrets(d, Exec(d, EMPTY, steps), step);
      }
    } else {
      var e1, e2, p1, p2 :| e1 in d && e2 in d && p1 in d[e1].pools && p2 in d[e2].pools
        && PoolName(e1, p1.name) == PoolName(e2, p2.name) && e1 != e2;
      var steps := CollisionRun(d, e1, p1, e2, p2);
    }
  }

  /** The same when a reconcile of an edge applies all its pools before anything else happens. */
  lemma {:induction false} SafeWithWholeReconciles(d: Declared)
    ensures (forall moves, step :: !DeletesNeededSecret(d, ExecMoves(d, EMPTY, moves), step))
      <==> NoSharedPoolNames(d)
  {
    CredentialsOutliveWorkersExactly(d);
    if Safe(d) {
      forall moves, step ensures !DeletesNeededSecret(d, ExecMoves(d, EMPTY, moves), step) {
        var steps := MovesAreRun(d, EMPTY, moves);
      }
    } else {
      var steps, step :| DeletesNeededSecret(d, Exec(d, EMPTY, steps), step);
      var moves := RunIsMoves(d, EMPTY, steps);
    }
  }

  lemma {:induction false} NamesCanCollide(q1: string, q2: string, set1: Settings, set2: Settings)
    ensures !Safe(map["a" := EdgeSpec(q1, [PoolDecl("b-c", set1)]),
                      "a-b" := EdgeSpec(q2, [PoolDecl("c", set2)])])
  {
    var d := map["a" := EdgeSpec(q1, [PoolDecl("b-c", set1)]),
                 "a-b" := EdgeSpec(q2, [PoolDecl("c", set2)])];
    assert PoolName("a", "b-c") == PoolName("a-b", "c");
    assert d["a"].pools[0] in d["a"].pools && d["a-b"].pools[0] in d["a-b"].pools;
    CredentialsOutliveWorkersExactly(d);
  }

  // ----- Edges and their pools

  /** Pools of one name have one and the same settings. */
  ghost predicate OneSetting(pools: seq<PoolDecl>) {
    forall j, h :: 0 <= j < |pools| && 0 <= h < |pools| && pools[j].name == pools[h].name ==>
      pools[j].settings == pools[h].settings
  }

  lemma {:induction false} PoolNameInjective(e: string, a: string, b: string)
    requires PoolName(e, a) == PoolName(e, b)
    ensures a == b
  {
    assert a == PoolName(e, a)[|e| + 1..] && b == PoolName(e, b)[|e| + 1..];
  }

  lemma {:induction false} LastSettingsOf(e: string, pools: seq<PoolDecl>, i: nat)
    requires i < |pools| && OneSetting(pools)
    ensures LastSettings(e, pools, PoolName(e, pools[i].name)) == [pools[i].settings]
  {
    var last := pools[|pools| - 1];
    if PoolName(e, last.name) == PoolName(e, pools[i].name) {
      PoolNameInjective(e, last.name, pools[i].name);
    } else {
      LastSettingsOf(e, pools[..|pools| - 1], i);
    }
  }

  /** Every declared pool is in place as this edge's own, with its declared settings. */
  ghost predicate AllMatched(d: Declared, s: Store, e: string)
    requires e in d
  {
    forall i :: 0 <= i < |d[e].pools| ==> Matched(s, e, d[e].pools[i])
  }

  lemma {:induction false} UpdateMatches(d: Declared, s: Store, e: string)
    requires e in d && ReachesPools(s, e) && OneSetting(d[e].pools)
    ensures AllMatched(d, UpdatePools(d, s, e, d[e].pools), e)
  {
    var t := UpdatePools(d, s, e, d[e].pools);
    forall i | 0 <= i < |d[e].pools| ensures Matched(t, e, d[e].pools[i]) {
      LastSettingsOf(e, d[e].pools, i);
      UpdatedPool(d, s, e, d[e].pools, PoolName(e, d[e].pools[i].name));
    }
  }

  /**
   * A reconcile that reaches the pools leaves every declared pool in place with the declared
   * settings, if and only if no two pools of one name disagree; and the next changes nothing.
   */
  lemma {:induction false} PoolsReconciled(d: Declared, s: Store, e: string)
    requires e in d && ReachesPools(s, e)
    ensures var t := ReconPoolSpec(d, s, e);
      (AllMatched(d, t, e) <==> OneSetting(d[e].pools)) && ReconPoolSpec(d, t, e) == t
  {
    if !PoolsInStep(d, s, e) {
      UpdateTwice(d, s, e);
      if OneSetting(d[e].pools) {
        UpdateMatches(d, s, e);
      }
    }
    MatchedAgree(d, ReconPoolSpec(d, s, e), e);
  }

  lemma {:induction false} MatchedAgree(d: Declared, s: Store, e: string)
    requires e in d
    ensures AllMatched(d, s, e) ==> OneSetting(d[e].pools)
  {
    if AllMatched(d, s, e) {
      forall j, h | 0 <= j < |d[e].pools| && 0 <= h < |d[e].pools| && d[e].pools[j].name == d[e].pools[h].name
        ensures d[e].pools[j].settings == d[e].pools[h].settings
      {
        assert Matched(s, e, d[e].pools[j]) && Matched(s, e, d[e].pools[h]);
      }
    }
  }
}
