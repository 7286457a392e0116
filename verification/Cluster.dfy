/**
 * The cluster store that the four infra controllers share, and what one reconcile of each does to
 * it. Every step is atomic; a step whose guard fails leaves the store as it is.
 */
module Cluster {

  datatype Finalizer = Common | Foreground

  const BOTH: set<Finalizer> := {Common, Foreground}

  datatype Meta = Meta(finalizers: set<Finalizer>, deleting: bool)

  const NEW: Meta := Meta({}, false)

  datatype Settings = Settings(minNode: int, maxNode: int, config: string)

  datatype PoolDecl = PoolDecl(name: string, settings: Settings)

  /** A declared Edge: its provider and its pools. Specs are not edited during a run. */
  datatype EdgeSpec = EdgeSpec(providerName: string, pools: seq<PoolDecl>)
  type Declared = map<string, EdgeSpec>

  datatype Edge = Edge(meta: Meta, labelled: bool, providerName: string)

  /** `edgeLabel` is the label `kloudlite.io/edge.name`; `edgeName` is the spec field. */
  datatype NodePool = NodePool(
    meta: Meta, edgeLabel: string, edgeName: string, providerName: string, settings: Settings)

  /**
   * `region` is both the label `kloudlite.io/region` and the spec's edge name; `node` says whether
   * the cluster Node exists, `machine` whether terraform has made one and not destroyed it,
   * `createJob` whether one is being made, `deleteJob` whether it is being destroyed. A reconcile
   * deletes the create job it has just applied or finds; its pod may go on all the same, or not.
   */
  datatype WorkerNode = WorkerNode(
    meta: Meta, pool: string, region: string, providerName: string,
    node: bool, machine: bool, createJob: bool, deleteJob: bool)

  datatype Store = Store(
    providers: map<string, Meta>,
    edges: map<string, Edge>,
    pools: map<string, NodePool>,
    workers: map<string, WorkerNode>,
    secrets: set<string>)

  const EMPTY: Store := Store(map[], map[], map[], map[], {})

  datatype Kind = KProvider | KEdge | KPool | KWorker

  datatype Step =
    // users and the outside world
    | CreateProvider(name: string)
    | CreateSecret(name: string)
    | CreateEdge(name: string)
    | RequestDelete(kind: Kind, name: string)      // a user, the garbage collector or the autoscaler
    | ReleaseForeground(kind: Kind, name: string)  // the garbage collector drops its own finalizer
    | FinishCreateJob(name: string)
    | LoseCreateJob(name: string)                  // deleted by the reconcile that applied it, too early
    | AttachNode(name: string)                     // the machine registers itself, at any time
    | FinishDeleteJob(name: string)
    // controllers
    | ReconcileProvider(name: string)
    | ReconcileEdge(name: string)
    | ApplyPool(edge: string, decl: PoolDecl)      // one document of UpdatePool
    | ReconcilePool(name: string)
    | AddWorker(pool: string, name: string)        // ADD_NODE of reconWorkerNodes
    | ReconcileWorker(name: string, readable: bool) // `terraform output` works, if there is a machine

  function PoolName(edge: string, pool: string): string {
    edge + "-" + pool
  }

  // ----- What the label selectors return

  function EdgesOf(s: Store, provider: string): set<string> {
    set e | e in s.edges && s.edges[e].labelled && s.edges[e].providerName == provider
  }

  function PoolsOf(s: Store, edge: string): set<string> {
    set n | n in s.pools && s.pools[n].edgeLabel == edge
  }

  function WorkersOf(s: Store, edge: string): set<string> {
    set w | w in s.workers && s.workers[w].region == edge
  }

  // ----- API server rules

  function MetaOf(s: Store, kind: Kind, name: string): Meta
    requires Exists(s, kind, name)
  {
    match kind
    case KProvider => s.providers[name]
    case KEdge => s.edges[name].meta
    case KPool => s.pools[name].meta
    case KWorker => s.workers[name].meta
  }

  predicate Exists(s: Store, kind: Kind, name: string) {
    match kind
    case KProvider => name in s.providers
    case KEdge => name in s.edges
    case KPool => name in s.pools
    case KWorker => name in s.workers
  }

  function Drop(s: Store, kind: Kind, name: string): Store {
    match kind
    case KProvider => s.(providers := s.providers - {name})
    case KEdge => s.(edges := s.edges - {name})
    case KPool => s.(pools := s.pools - {name})
    case KWorker => s.(workers := s.workers - {name})
  }

  function WithMeta(s: Store, kind: Kind, name: string, meta: Meta): Store
    requires Exists(s, kind, name)
  {
    match kind
    case KProvider => s.(providers := s.providers[name := meta])
    case KEdge => s.(edges := s.edges[name := s.edges[name].(meta := meta)])
    case KPool => s.(pools := s.pools[name := s.pools[name].(meta := meta)])
    case KWorker => s.(workers := s.workers[name := s.workers[name].(meta := meta)])
  }

  /** An object marked for deletion goes as soon as it has no finalizer. */
  function Put(s: Store, kind: Kind, name: string, meta: Meta): Store
    requires Exists(s, kind, name)
  {
    if meta.deleting && meta.finalizers == {} then Drop(s, kind, name) else WithMeta(s, kind, name, meta)
  }

  // ----- One reconcile of each controller

  function ReconcileProviderSpec(s: Store, name: string): Store {
    if name !in s.providers then s
    else if s.providers[name].deleting then
      if EdgesOf(s, name) != {} then s
      else Drop(s.(secrets := s.secrets - {name}), KProvider, name)
    else s.(providers := s.providers[name := s.providers[name].(finalizers := BOTH)])
  }

  function ReconcileEdgeSpec(s: Store, name: string): Store {
    if name !in s.edges then s
    else
      var edge := s.edges[name];
      if edge.meta.deleting then
        if PoolsOf(s, name) != {} then s else Drop(s, KEdge, name)
      else if !edge.labelled then s.(edges := s.edges[name := edge.(labelled := true)])
      else s.(edges := s.edges[name := edge.(meta := edge.meta.(finalizers := BOTH))])
  }

  /** A reconcile of this edge gets as far as its pools. */
  predicate ReachesPools(s: Store, e: string) {
    && e in s.edges && !s.edges[e].meta.deleting && s.edges[e].labelled
    && s.edges[e].meta.finalizers == BOTH && s.edges[e].providerName in s.providers
  }

  function ApplyPoolSpec(d: Declared, s: Store, e: string, pool: PoolDecl): Store {
    if ReachesPools(s, e) && e in d && pool in d[e].pools then
      var n := PoolName(e, pool.name);
      var meta := if n in s.pools then s.pools[n].meta else NEW;
      s.(pools := s.pools[n := NodePool(meta, e, e, s.edges[e].providerName, pool.settings)])
    else s
  }

  function ReconcilePoolSpec(s: Store, name: string): Store {
    if name !in s.pools then s
    else
      var pool := s.pools[name];
      if pool.meta.deleting then
        if WorkersOf(s, pool.edgeName) != {} then s else Drop(s, KPool, name)
      else s.(pools := s.pools[name := pool.(meta := pool.meta.(finalizers := BOTH))])
  }

  function AddWorkerSpec(s: Store, n: string, name: string): Store {
    if && n in s.pools && name !in s.workers
       && !s.pools[n].meta.deleting && s.pools[n].meta.finalizers == BOTH then
      var pool := s.pools[n];
      s.(workers := s.workers[name :=
        WorkerNode(NEW, n, pool.edgeName, pool.providerName, false, false, false, false)])
    else s
  }

  /**
   * `terraform.GetOutputs` fails when there is no machine, and also whenever its outputs cannot be
   * read; both are taken to mean that there is no machine.
   */
  function ReconcileWorkerSpec(s: Store, name: string, readable: bool): Store {
    if name !in s.workers then s
    else
      var w := s.workers[name];
      if w.meta.deleting then FinalizeWorkerSpec(s, name, readable)
      else if w.meta.finalizers != BOTH then
        s.(workers := s.workers[name := w.(meta := w.meta.(finalizers := BOTH))])
      else if !(w.machine && readable) && w.providerName in s.secrets then
        s.(workers := s.workers[name := w.(createJob := true)])
      else s
  }

  function FinalizeWorkerSpec(s: Store, name: string, readable: bool): Store
    requires name in s.workers
  {
    var w := s.workers[name];
    if w.node then s.(workers := s.workers[name := w.(node := false)])
    else if w.machine && readable then
      if w.providerName in s.secrets then s.(workers := s.workers[name := w.(deleteJob := true)])
      else s
    else Drop(s, KWorker, name)
  }

  // ----- Users and the outside world

  function RequestDeleteSpec(s: Store, kind: Kind, name: string): Store {
    if !Exists(s, kind, name) then s
    else Put(s, kind, name, MetaOf(s, kind, name).(deleting := true))
  }

  function ReleaseForegroundSpec(s: Store, kind: Kind, name: string): Store {
    if !Exists(s, kind, name) || !MetaOf(s, kind, name).deleting then s
    else
      var meta := MetaOf(s, kind, name);
      Put(s, kind, name, meta.(finalizers := meta.finalizers - {Foreground}))
  }

  function FinishCreateSpec(s: Store, name: string): Store {
    if name in s.workers && s.workers[name].createJob then
      s.(workers := s.workers[name := s.workers[name].(machine := true, createJob := false)])
    else s
  }

  function LoseCreateSpec(s: Store, name: string): Store {
    if name in s.workers then s.(workers := s.workers[name := s.workers[name].(createJob := false)]) else s
  }

  function AttachSpec(s: Store, name: string): Store {
    if name in s.workers && s.workers[name].machine then
      s.(workers := s.workers[name := s.workers[name].(node := true)])
    else s
  }

  function FinishDeleteSpec(s: Store, name: string): Store {
    if name in s.workers && s.workers[name].deleteJob then
      s.(workers := s.workers[name := s.workers[name].(machine := false, deleteJob := false)])
    else s
  }

  /** The store after one step. */
  function Next(d: Declared, s: Store, step: Step): Store {
    match step
    case CreateProvider(p) => if p in s.providers then s else s.(providers := s.providers[p := NEW])
    case CreateSecret(p) => s.(secrets := s.secrets + {p})
    case CreateEdge(e) =>
      if e in s.edges || e !in d then s
      else s.(edges := s.edges[e := Edge(NEW, false, d[e].providerName)])
    case RequestDelete(kind, name) => RequestDeleteSpec(s, kind, name)
    case ReleaseForeground(kind, name) => ReleaseForegroundSpec(s, kind, name)
    case FinishCreateJob(name) => FinishCreateSpec(s, name)
    case LoseCreateJob(name) => LoseCreateSpec(s, name)
    case AttachNode(name) => AttachSpec(s, name)
    case FinishDeleteJob(name) => FinishDeleteSpec(s, name)
    case ReconcileProvider(name) => ReconcileProviderSpec(s, name)
    case ReconcileEdge(name) => ReconcileEdgeSpec(s, name)
    case ApplyPool(e, pool) => ApplyPoolSpec(d, s, e, pool)
    case ReconcilePool(name) => ReconcilePoolSpec(s, name)
    case AddWorker(n, name) => AddWorkerSpec(s, n, name)
    case ReconcileWorker(name, readable) => ReconcileWorkerSpec(s, name, readable)
  }

  /** The store after a run; every sequence of steps is a run. */
  function Exec(d: Declared, s: Store, steps: seq<Step>): Store {
    if steps == [] then s else Next(d, Exec(d, s, steps[..|steps| - 1]), steps[|steps| - 1])
  }

  // ----- UpdatePool: every declared pool, one document after the other

  function UpdatePools(d: Declared, s: Store, e: string, pools: seq<PoolDecl>): Store {
    if pools == [] then s
    else ApplyPoolSpec(d, UpdatePools(d, s, e, pools[..|pools| - 1]), e, pools[|pools| - 1])
  }

  function ApplyAll(e: string, pools: seq<PoolDecl>): (steps: seq<Step>)
    ensures |steps| == |pools|
  {
    if pools == [] then [] else ApplyAll(e, pools[..|pools| - 1]) + [ApplyPool(e, pools[|pools| - 1])]
  }

  /** `kubectl apply` of the documents is a run of single applications. */
  lemma {:induction false} UpdateIsRun(d: Declared, s: Store, e: string, pools: seq<PoolDecl>)
    ensures Exec(d, s, ApplyAll(e, pools)) == UpdatePools(d, s, e, pools)
  {
    if pools != [] {
      var steps := ApplyAll(e, pools);
      UpdateIsRun(d, s, e, pools[..|pools| - 1]);
      assert steps[..|steps| - 1] == ApplyAll(e, pools[..|pools| - 1]);
    }
  }

  /** The settings a name ends up with: those of its last document. */
  function LastSettings(e: string, pools: seq<PoolDecl>, n: string): (r: seq<Settings>)
    ensures |r| <= 1
  {
    if pools == [] then []
    else if PoolName(e, pools[|pools| - 1].name) == n then [pools[|pools| - 1].settings]
    else LastSettings(e, pools[..|pools| - 1], n)
  }

  lemma {:induction false} UpdatedPool(d: Declared, s: Store, e: string, pools: seq<PoolDecl>, n: string)
    requires e in d && ReachesPools(s, e) && forall p :: p in pools ==> p in d[e].pools
    ensures var t, last := UpdatePools(d, s, e, pools), LastSettings(e, pools, n);
      var meta := if n in s.pools then s.pools[n].meta else NEW;
      && t == s.(pools := t.pools)
      && (n in t.pools <==> n in s.pools || last != [])
      && (last != [] ==> t.pools[n] == NodePool(meta, e, e, s.edges[e].providerName, last[0]))
      && (last == [] && n in s.pools ==> t.pools[n] == s.pools[n])
  {
    if pools != [] {
      var init, p := pools[..|pools| - 1], pools[|pools| - 1];
      assert p in pools && forall q :: q in init ==> q in pools;
      UpdatedPool(d, s, e, init, n);
      UpdatedPool(d, s, e, init, PoolName(e, p.name));
    }
  }

  lemma {:induction false} UpdateTwice(d: Declared, s: Store, e: string)
    requires e in d && ReachesPools(s, e)
    ensures var t := UpdatePools(d, s, e, d[e].pools);
      ReachesPools(t, e) && UpdatePools(d, t, e, d[e].pools) == t
  {
    var pools := d[e].pools;
    var t := UpdatePools(d, s, e, pools);
    UpdatedPool(d, s, e, pools, "");
    var u := UpdatePools(d, t, e, pools);
    UpdatedPool(d, t, e, pools, "");
    forall n ensures (n in u.pools <==> n in t.pools) && (n in t.pools ==> u.pools[n] == t.pools[n]) {
      UpdatedPool(d, s, e, pools, n);
      UpdatedPool(d, t, e, pools, n);
    }
    assert u.pools == t.pools;
  }

  /** Some listed pool is this declared one, with these settings. */
  predicate Matched(s: Store, e: string, p: PoolDecl) {
    var n := PoolName(e, p.name);
    n in PoolsOf(s, e) && s.pools[n].settings == p.settings
  }

  /** reconPool finds the listed pools to be the declared ones. */
  predicate PoolsInStep(d: Declared, s: Store, e: string)
    requires e in d
  {
    |PoolsOf(s, e)| == |d[e].pools| && forall i :: 0 <= i < |d[e].pools| ==> Matched(s, e, d[e].pools[i])
  }

  function ReconPoolSpec(d: Declared, s: Store, e: string): Store
    requires e in d
  {
    if !ReachesPools(s, e) || PoolsInStep(d, s, e) then s else UpdatePools(d, s, e, d[e].pools)
  }

  // ----- Runs in which a reconcile of an edge applies all its pools at once

  datatype Move = Single(step: Step) | WholeReconPool(edge: string)

  function NextMove(d: Declared, s: Store, move: Move): Store {
    match move
    case Single(step) => Next(d, s, step)
    case WholeReconPool(e) => if e in d then ReconPoolSpec(d, s, e) else s
  }

  function ExecMoves(d: Declared, s: Store, moves: seq<Move>): Store {
    if moves == [] then s else NextMove(d, ExecMoves(d, s, moves[..|moves| - 1]), moves[|moves| - 1])
  }

  lemma {:induction false} ExecConcat(d: Declared, s: Store, a: seq<Step>, b: seq<Step>)
    ensures Exec(d, s, a + b) == Exec(d, Exec(d, s, a), b)
  {
    if b == [] {
      assert a + b == a;
    } else {
      ExecConcat(d, s, a, b[..|b| - 1]);
      assert (a + b)[..|a + b| - 1] == a + b[..|b| - 1];
    }
  }

  /** Whatever is interleaved with whole reconciles of edges is a run of single steps too. */
  lemma {:induction false} MovesAreRun(d: Declared, s: Store, moves: seq<Move>) returns (steps: seq<Step>)
    ensures Exec(d, s, steps) == ExecMoves(d, s, moves)
  {
    steps := [];
    if moves != [] {
      var init, last := moves[..|moves| - 1], moves[|moves| - 1];
      var before := MovesAreRun(d, s, init);
      var t := ExecMoves(d, s, init);
      var more := MoveIsRun(d, t, last);
      ExecConcat(d, s, before, more);
      steps := before + more;
    }
  }

  lemma {:induction false} MoveIsRun(d: Declared, s: Store, move: Move) returns (steps: seq<Step>)
    ensures Exec(d, s, steps) == NextMove(d, s, move)
  {
    match move
    case Single(step) =>
      steps := [step];
      assert steps[..|steps| - 1] == [] && Exec(d, s, []) == s;
    case WholeReconPool(e) =>
      steps := [];
      if e in d && ReconPoolSpec(d, s, e) != s {
        UpdateIsRun(d, s, e, d[e].pools);
        steps := ApplyAll(e, d[e].pools);
      }
  }

  /** And a run of single steps is one of moves. */
  lemma {:induction false} RunIsMoves(d: Declared, s: Store, steps: seq<Step>) returns (moves: seq<Move>)
    ensures ExecMoves(d, s, moves) == Exec(d, s, steps)
  {
    moves := [];
    if steps != [] {
      var init := RunIsMoves(d, s, steps[..|steps| - 1]);
      moves := init + [Single(steps[|steps| - 1])];
      assert moves[..|moves| - 1] == init;
    }
  }

  // ----- The controllers as they are written, over a mutable store

  class Controllers {
    var providers: map<string, Meta>
    var edges: map<string, Edge>
    var pools: map<string, NodePool>
    var workers: map<string, WorkerNode>
    var secrets: set<string>

    function State(): Store
      reads this
    {
      Store(providers, edges, pools, workers, secrets)
    }

    constructor ()
      ensures State() == EMPTY
    {
      providers, edges, pools, workers, secrets := map[], map[], map[], map[], {};
    }

    /** CloudProviderReconciler: edges first, then the secret, then the finalizers. */
    method ReconcileCloudProvider(d: Declared, name: string)
      modifies this
      ensures State() == Next(d, old(State()), ReconcileProvider(name))
    {
      if name !in providers {
        return;
      }
      if providers[name].deleting {
        var found := set e | e in edges && edges[e].labelled && edges[e].providerName == name;
        if |found| != 0 {
          return;
        }
        if name !in secrets {
          providers := providers - {name};
          return;
        }
        secrets := secrets - {name};
        providers := providers - {name};
        return;
      }
      if providers[name].finalizers != BOTH {
        providers := providers[name := providers[name].(finalizers := BOTH)];
      }
    }

    method ReconcileEdgeObject(d: Declared, name: string)
      modifies this
      ensures State() == Next(d, old(State()), ReconcileEdge(name))
    {
      if name !in edges {
        return;
      }
      var edge := edges[name];
      if edge.meta.deleting {
        var found := set n | n in pools && pools[n].edgeLabel == name;
        if |found| != 0 {
          return;
        }
        edges := edges - {name};
        return;
      }
      if !edge.labelled {
        edges := edges[name := edge.(labelled := true)];
        return;
      }
      if edge.meta.finalizers != BOTH {
        edges := edges[name := edge.(meta := edge.meta.(finalizers := BOTH))];
      }
    }

    /** `kubectl apply` of all declared pools. */
    method UpdatePool(d: Declared, e: string)
      requires e in d && ReachesPools(State(), e)
      modifies this`pools
      ensures State() == UpdatePools(d, old(State()), e, d[e].pools)
    {
      for i := 0 to |d[e].pools|
        invariant State() == UpdatePools(d, old(State()), e, d[e].pools[..i])
        invariant ReachesPools(State(), e)
      {
        var p := d[e].pools[i];
        assert d[e].pools[..i + 1][..i] == d[e].pools[..i];
        var n := PoolName(e, p.name);
        var meta := if n in pools then pools[n].meta else NEW;
        pools := pools[n := NodePool(meta, e, e, edges[e].providerName, p.settings)];
      }
      assert d[e].pools[..|d[e].pools|] == d[e].pools;
    }

    /**
     * PatchDefaults stops the round while the provider is missing; then reconPool applies all
     * pools when the counts differ, and once more for every declared pool it cannot match in the
     * list it took at the start.
     */
    method ReconPool(d: Declared, e: string)
      requires e in d && e in edges && edges[e].labelled && !edges[e].meta.deleting
      requires edges[e].meta.finalizers == BOTH
      modifies this`pools
      ensures State() == ReconPoolSpec(d, old(State()), e)
    {
      if edges[e].providerName !in providers {
        return;
      }
      var snapshot := pools;
      var listed := set n | n in snapshot && snapshot[n].edgeLabel == e;
      assert listed == PoolsOf(old(State()), e);
      if |listed| != |d[e].pools| {
        UpdatePool(d, e);
        return;
      }
      UpdateTwice(d, State(), e);
      var done := false;
      for i := 0 to |d[e].pools|
        invariant ReachesPools(State(), e)
        invariant State() == if done then UpdatePools(d, old(State()), e, d[e].pools) else old(State())
        invariant done <==> exists h :: 0 <= h < i && !Matched(old(State()), e, d[e].pools[h])
      {
        var p := d[e].pools[i];
        var n := PoolName(e, p.name);
        var matched := n in listed && snapshot[n].settings == p.settings;
        if !matched {
          assert !Matched(old(State()), e, d[e].pools[i]);
          UpdatePool(d, e);
          done := true;
        }
      }
    }

    method ReconcileNodePool(d: Declared, name: string)
      modifies this
      ensures State() == Next(d, old(State()), ReconcilePool(name))
    {
      if name !in pools {
        return;
      }
      var pool := pools[name];
      if pool.meta.deleting {
        var found := set w | w in workers && workers[w].region == pool.edgeName;
        if |found| != 0 {
          return;
        }
        pools := pools - {name};
        return;
      }
      if pool.meta.finalizers != BOTH {
        pools := pools[name := pool.(meta := pool.meta.(finalizers := BOTH))];
      }
    }

    /**
     * Detach the Node, then have the machine destroyed, then let the object go; or, while it is not
     * being deleted, have its machine made.
     */
    method ReconcileWorkerNode(d: Declared, name: string, readable: bool)
      modifies this
      ensures State() == Next(d, old(State()), ReconcileWorker(name, readable))
    {
      if name !in workers {
        return;
      }
      var w := workers[name];
      var outputs := w.machine && readable;
      if w.meta.deleting {
        if w.node {
          workers := workers[name := w.(node := false)];
          return;
        }
        if outputs {
          if w.providerName in secrets {
            workers := workers[name := w.(deleteJob := true)];
          }
          return;
        }
        workers := workers - {name};
        return;
      }
      if w.meta.finalizers != BOTH {
        workers := workers[name := w.(meta := w.meta.(finalizers := BOTH))];
        return;
      }
      if !outputs && w.providerName in secrets {
        workers := workers[name := w.(createJob := true)];
      }
    }
  }
}
