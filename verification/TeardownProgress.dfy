/** Teardown of a whole hierarchy: when it can get done, and when it can deadlock. */
module TeardownProgress {
  import opened FiniteSets
  import opened Cluster
  import opened TeardownSafety

  /**
   * The finalizers and the delete jobs. `lost` are the workers whose terraform outputs cannot be
   * read, which `finalize` takes to have no machine.
   */
  predicate IsTeardown(step: Step, lost: set<string>) {
    || step.ReconcileProvider? || step.ReconcileEdge? || step.ReconcilePool? || step.FinishDeleteJob?
    || (step.ReconcileWorker? && step.readable == (step.name !in lost))
  }

  /**
   * What exists on behalf of a worker is held by the operator's finalizer, and a delete job is for
   * a deleting worker's machine.
   */
  predicate WorkerStaged(w: WorkerNode) {
    && (w.node || w.machine || w.createJob ==> Common in w.meta.finalizers)
    && (w.deleteJob ==> w.meta.deleting && w.machine)
  }

  ghost predicate Staged(s: Store) {
    forall w :: w in s.workers ==> WorkerStaged(s.workers[w])
  }

  lemma {:induction false} PutKeepsStages(s: Store, kind: Kind, name: string, meta: Meta)
    requires Staged(s) && Exists(s, kind, name)
    requires kind == KWorker ==>
      (Common in MetaOf(s, kind, name).finalizers ==> Common in meta.finalizers)
      && (MetaOf(s, kind, name).deleting ==> meta.deleting)
    ensures Staged(Put(s, kind, name, meta))
  {
  }

  lemma {:induction false} ReconcileKeepsStages(s: Store, name: string, readable: bool)
    requires Staged(s)
    ensures Staged(ReconcileWorkerSpec(s, name, readable))
  {
  }

  lemma {:induction false} WorkerStepKeepsStages(d: Declared, s: Store, step: Step)
    requires Staged(s)
    requires step.AddWorker? || step.ReconcileWorker? || step.FinishCreateJob? || step.LoseCreateJob?
      || step.AttachNode? || step.FinishDeleteJob?
    ensures Staged(Next(d, s, step))
  {
    if step.ReconcileWorker? {
      ReconcileKeepsStages(s, step.name, step.readable);
    }
  }

  lemma {:induction false} StepKeepsStages(d: Declared, s: Store, step: Step)
    requires Staged(s)
    ensures Staged(Next(d, s, step))
  {
    match step
    case RequestDelete(kind, name) =>
      if Exists(s, kind, name) {
        PutKeepsStages(s, kind, name, MetaOf(s, kind, name).(deleting := true));
      }
    case ReleaseForeground(kind, name) =>
      if Exists(s, kind, name) {
        var meta := MetaOf(s, kind, name);
        PutKeepsStages(s, kind, name, meta.(finalizers := meta.finalizers - {Foreground}));
      }
    case AddWorker(_, _) => WorkerStepKeepsStages(d, s, step);
    case ReconcileWorker(_, _) => WorkerStepKeepsStages(d, s, step);
    case FinishCreateJob(_) => WorkerStepKeepsStages(d, s, step);
    case LoseCreateJob(_) => WorkerStepKeepsStages(d, s, step);
    case AttachNode(_) => WorkerStepKeepsStages(d, s, step);
    case FinishDeleteJob(_) => WorkerStepKeepsStages(d, s, step);
    case _ => OtherStepsKeepWorkers(d, s, step);
  }

  lemma {:induction false} OtherStepsKeepWorkers(d: Declared, s: Store, step: Step)
    requires step.CreateProvider? || step.CreateSecret? || step.CreateEdge? || step.ReconcileProvider?
      || step.ReconcileEdge? || step.ApplyPool? || step.ReconcilePool?
    ensures Next(d, s, step).workers == s.workers
  {
  }

  lemma {:induction false} ReachableStaged(d: Declared, steps: seq<Step>)
    ensures Staged(Exec(d, EMPTY, steps))
  {
    if steps != [] {
      ReachableStaged(d, steps[..|steps| - 1]);
      StepKeepsStages(d, Exec(d, EMPTY, steps[..|steps| - 1]), steps[|steps| - 1]);
    }
  }

  // ----- What a worker that is let go leaves behind

  predicate LetGo(d: Declared, s: Store, step: Step, w: string) {
    w in s.workers && w !in Next(d, s, step).workers
  }

  /** A Node, a running machine, or a job that will make one. */
  predicate StillThere(w: WorkerNode) {
    w.node || w.machine || w.createJob
  }

  /** A deleting worker without Node whose machine cannot be read, or is not there yet. */
  predicate Overlooked(w: WorkerNode, readable: bool) {
    w.meta.deleting && !w.node && if w.machine then !readable else w.createJob
  }

  /**
   * In any reachable store: a step lets a worker go with something of it still there if and only if
   * it reconciles that worker when it is deleting, its Node is gone, and either its machine is there
   * with outputs that cannot be read, or no machine is there yet but one is being made.
   */
  lemma {:induction false} LeavesBehindExactly(d: Declared, steps: seq<Step>, step: Step, w: string)
    requires w in Exec(d, EMPTY, steps).workers
    ensures var s := Exec(d, EMPTY, steps);
      LetGo(d, s, step, w) && StillThere(s.workers[w]) <==>
        step.ReconcileWorker? && step.name == w && Overlooked(s.workers[w], step.readable)
  {
    var s := Exec(d, EMPTY, steps);
    ReachableStaged(d, steps);
    assert WorkerStaged(s.workers[w]);
    match step
    case RequestDelete(kind, name) =>
      if Exists(s, kind, name) {
        PutLetsGo(s, kind, name, MetaOf(s, kind, name).(deleting := true), w);
      }
    case ReleaseForeground(kind, name) =>
      if Exists(s, kind, name) {
        var meta := MetaOf(s, kind, name);
        PutLetsGo(s, kind, name, meta.(finalizers := meta.finalizers - {Foreground}), w);
      }
    case ReconcileWorker(v, readable) => ReconcileLetsGo(s, v, readable, w);
    case AddWorker(_, _) =>
    case FinishCreateJob(_) =>
    case LoseCreateJob(_) =>
    case AttachNode(_) =>
    case FinishDeleteJob(_) =>
    case _ => OtherStepsKeepWorkers(d, s, step);
  }

  lemma {:induction false} PutLetsGo(s: Store, kind: Kind, name: string, meta: Meta, w: string)
    requires Exists(s, kind, name) && w in s.workers
    ensures w !in Put(s, kind, name, meta).workers ==> kind == KWorker && name == w && Common !in meta.finalizers
  {
  }

  lemma {:induction false} ReconcileLetsGo(s: Store, v: string, readable: bool, w: string)
    requires w in s.workers
    ensures w !in ReconcileWorkerSpec(s, v, readable).workers <==>
      v == w && s.workers[w].meta.deleting && !s.workers[w].node && !(s.workers[w].machine && readable)
  {
  }

  /** A worker of this pool, at one stage or another. */
  function Staging(d: Declared, e: string, p: PoolDecl, deleting: bool, machine: bool, createJob: bool): WorkerNode
    requires e in d
  {
    WorkerNode(Meta(BOTH, deleting), PoolName(e, p.name), e, d[e].providerName, false, machine, createJob, false)
  }

  /** A worker of any declared pool whose create job is under way. */
  lemma {:induction false} JobUp(d: Declared, e: string, p: PoolDecl) returns (steps: seq<Step>, s: Store)
    requires e in d && p in d[e].pools
    ensures s == Exec(d, EMPTY, steps) == OneWorker(d, e, p, Staging(d, e, p, false, false, true))
  {
    steps, s := WorkerUp(d, e, p);
    steps, s := Then(d, EMPTY, steps, ReconcileWorker(W, true));
    steps, s := Then(d, EMPTY, steps, ReconcileWorker(W, true));
  }

  /** And one whose machine runs. */
  lemma {:induction false} MachineUp(d: Declared, e: string, p: PoolDecl) returns (steps: seq<Step>, s: Store)
    requires e in d && p in d[e].pools
    ensures s == Exec(d, EMPTY, steps) == OneWorker(d, e, p, Staging(d, e, p, false, true, false))
  {
    steps, s := JobUp(d, e, p);
    steps, s := Then(d, EMPTY, steps, FinishCreateJob(W));
  }

  /** Whatever is declared, a run lets a worker go with its machine running, secret and all. */
  lemma {:induction false} MachineLeftBehind(d: Declared, e: string, p: PoolDecl) returns (steps: seq<Step>)
    requires e in d && p in d[e].pools
    ensures var s := Exec(d, EMPTY, steps);
      LetGo(d, s, ReconcileWorker(W, false), W) && s.workers[W].machine
  {
    var s := EMPTY;
    steps, s := MachineUp(d, e, p);
    steps, s := Then(d, EMPTY, steps, RequestDelete(KWorker, W));
    assert s.workers[W] == Staging(d, e, p, true, true, false);
  }

  /** Another lets it go before its machine is made. */
  lemma {:induction false} CreateJobLeftBehind(d: Declared, e: string, p: PoolDecl, readable: bool)
      returns (steps: seq<Step>)
    requires e in d && p in d[e].pools
    ensures var s := Exec(d, EMPTY, steps);
      LetGo(d, s, ReconcileWorker(W, readable), W) && s.workers[W].createJob
  {
    var s := EMPTY;
    steps, s := JobUp(d, e, p);
    steps, s := Then(d, EMPTY, steps, RequestDelete(KWorker, W));
    assert s.workers[W] == Staging(d, e, p, true, false, true);
  }

  // ----- Draining

  /** Everything in the hierarchy is marked for deletion. */
  ghost predicate Draining(s: Store) {
    && (forall p :: p in s.providers ==> s.providers[p].deleting)
    && (forall e :: e in s.edges ==> s.edges[e].meta.deleting)
    && (forall n :: n in s.pools ==> s.pools[n].meta.deleting)
    && (forall w :: w in s.workers ==> s.workers[w].meta.deleting)
    && Staged(s)
  }

  predicate Cleared(s: Store) {
    s.providers == map[] && s.edges == map[] && s.pools == map[] && s.workers == map[]
  }

  /** The delete job of this worker still has to be built, so its provider's secret is needed. */
  predicate NeedsSecret(s: Store, w: string) {
    w in s.workers && s.workers[w].machine && !s.workers[w].deleteJob
  }

  /** Every machine whose outputs can be read, and that is still to be destroyed, has its secret. */
  ghost predicate Credentials(s: Store, lost: set<string>) {
    forall w :: NeedsSecret(s, w) && w !in lost ==> s.workers[w].providerName in s.secrets
  }

  // ----- The measure

  function WithNode(s: Store): set<string> {
    set w | w in s.workers && s.workers[w].node
  }

  function WithMachine(s: Store): set<string> {
    set w | w in s.workers && s.workers[w].machine
  }

  function Unscheduled(s: Store): set<string> {
    set w | w in s.workers && NeedsSecret(s, w)
  }

  /** Remaining objects, plus the stages each worker has still to pass. */
  function Measure(s: Store): nat {
    |s.providers.Keys| + |s.edges.Keys| + |s.pools.Keys| + |s.workers.Keys|
    + |WithNode(s)| + |WithMachine(s)| + |Unscheduled(s)|
  }

  lemma Shrinks<T>(a: set<T>, b: set<T>, x: T)
    requires x in a && b == a - {x}
    ensures |b| == |a| - 1
  {
  }

  lemma {:induction false} DetachFalls(s: Store, name: string, readable: bool)
    requires name in s.workers && s.workers[name].node && s.workers[name].meta.deleting
    ensures Measure(ReconcileWorkerSpec(s, name, readable)) < Measure(s)
  {
    var t := ReconcileWorkerSpec(s, name, readable);
    Shrinks(WithNode(s), WithNode(t), name);
    assert WithMachine(t) == WithMachine(s) && Unscheduled(t) == Unscheduled(s);
    assert t.workers.Keys == s.workers.Keys;
  }

  lemma {:induction false} ScheduleFalls(s: Store, name: string)
    requires NeedsSecret(s, name) && !s.workers[name].node && s.workers[name].meta.deleting
    requires s.workers[name].providerName in s.secrets
    ensures Measure(ReconcileWorkerSpec(s, name, true)) < Measure(s)
  {
    var t := ReconcileWorkerSpec(s, name, true);
    Shrinks(Unscheduled(s), Unscheduled(t), name);
    assert WithNode(t) == WithNode(s) && WithMachine(t) == WithMachine(s);
    assert t.workers.Keys == s.workers.Keys;
  }

  lemma {:induction false} ReleaseFalls(s: Store, name: string)
    requires name in s.workers
    ensures Measure(Drop(s, KWorker, name)) < Measure(s)
  {
    var t := Drop(s, KWorker, name);
    Shrinks(s.workers.Keys, t.workers.Keys, name);
    SubsetSize(WithNode(t), WithNode(s));
    SubsetSize(WithMachine(t), WithMachine(s));
    SubsetSize(Unscheduled(t), Unscheduled(s));
  }

  lemma {:induction false} WorkerStepFalls(s: Store, name: string, readable: bool)
    requires Draining(s) && ReconcileWorkerSpec(s, name, readable) != s
    ensures Measure(ReconcileWorkerSpec(s, name, readable)) < Measure(s)
  {
    var w := s.workers[name];
    assert s.workers[name := w] == s.workers;
    if w.node {
      DetachFalls(s, name, readable);
    } else if w.machine && readable {
      ScheduleFalls(s, name);
    } else {
      ReleaseFalls(s, name);
    }
  }

  lemma {:induction false} JobStepFalls(s: Store, name: string)
    requires Staged(s) && FinishDeleteSpec(s, name) != s
    ensures Measure(FinishDeleteSpec(s, name)) < Measure(s)
  {
    var t := FinishDeleteSpec(s, name);
    assert WithNode(t) == WithNode(s) && Unscheduled(t) == Unscheduled(s);
    assert t.workers.Keys == s.workers.Keys;
    Shrinks(WithMachine(s), WithMachine(t), name);
  }

  lemma {:induction false} SameWorkers(s: Store, t: Store)
    requires t.workers == s.workers
    requires |t.providers.Keys| + |t.edges.Keys| + |t.pools.Keys|
           < |s.providers.Keys| + |s.edges.Keys| + |s.pools.Keys|
    ensures Measure(t) < Measure(s)
  {
    assert WithNode(t) == WithNode(s) && WithMachine(t) == WithMachine(s);
    assert Unscheduled(t) == Unscheduled(s);
  }

  lemma {:induction false} StepKeepsDraining(d: Declared, s: Store, step: Step, lost: set<string>)
    requires Draining(s) && IsTeardown(step, lost)
    ensures Draining(Next(d, s, step))
  {
    StepKeepsStages(d, s, step);
  }

  lemma {:induction false} ProviderStepFalls(s: Store, name: string)
    requires Draining(s) && ReconcileProviderSpec(s, name) != s
    ensures Measure(ReconcileProviderSpec(s, name)) < Measure(s)
  {
    var t := ReconcileProviderSpec(s, name);
    Shrinks(s.providers.Keys, t.providers.Keys, name);
    SameWorkers(s, t);
  }

  lemma {:induction false} EdgeStepFalls(s: Store, name: string)
    requires Draining(s) && ReconcileEdgeSpec(s, name) != s
    ensures Measure(ReconcileEdgeSpec(s, name)) < Measure(s)
  {
    var t := ReconcileEdgeSpec(s, name);
    Shrinks(s.edges.Keys, t.edges.Keys, name);
    SameWorkers(s, t);
  }

  lemma {:induction false} PoolStepFalls(s: Store, name: string)
    requires Draining(s) && ReconcilePoolSpec(s, name) != s
    ensures Measure(ReconcilePoolSpec(s, name)) < Measure(s)
  {
    var t := ReconcilePoolSpec(s, name);
    Shrinks(s.pools.Keys, t.pools.Keys, name);
    SameWorkers(s, t);
  }

  /** Every effective teardown step lowers the measure. */
  lemma {:induction false} EffectiveStepFalls(d: Declared, s: Store, step: Step, lost: set<string>)
    requires Draining(s) && IsTeardown(step, lost) && Next(d, s, step) != s
    ensures Measure(Next(d, s, step)) < Measure(s)
  {
    match step
    case ReconcileProvider(p) => ProviderStepFalls(s, p);
    case ReconcileEdge(e) => EdgeStepFalls(s, e);
    case ReconcilePool(n) => PoolStepFalls(s, n);
    case ReconcileWorker(w, readable) => WorkerStepFalls(s, w, readable);
    case FinishDeleteJob(w) => JobStepFalls(s, w);
  }

  // ----- Something can always be done

  lemma {:induction false} WorkerCanMove(d: Declared, s: Store, w: string, lost: set<string>) returns (step: Step)
    requires Draining(s) && w in s.workers && Credentials(s, lost)
    ensures IsTeardown(step, lost) && Next(d, s, step) != s && Next(d, s, step).secrets == s.secrets
  {
    var worker := s.workers[w];
    assert WorkerStaged(worker);
    if worker.deleteJob {
      step := FinishDeleteJob(w);
      assert !Next(d, s, step).workers[w].machine;
    } else {
      step := ReconcileWorker(w, w !in lost);
      var t := Next(d, s, step);
      if worker.node {
        assert !t.workers[w].node;
      } else if worker.machine && w !in lost {
        assert NeedsSecret(s, w);
        assert t.workers[w].deleteJob;
      } else {
        assert w !in t.workers;
      }
    }
  }

  /**
   * While anything is left, some teardown step is effective and leaves the credentials alone: one of
   * a worker's while there is any, which touches no secret, and then whatever is left.
   */
  lemma {:induction false} SomethingCanMove(d: Declared, s: Store, lost: set<string>) returns (step: Step)
    requires Draining(s) && Credentials(s, lost) && !Cleared(s)
    ensures IsTeardown(step, lost) && Next(d, s, step) != s
    ensures Credentials(Next(d, s, step), lost)
  {
    if w :| w in s.workers {
      step := WorkerCanMove(d, s, w, lost);
      NeedsKept(d, s, step, lost);
    } else if n :| n in s.pools {
      assert WorkersOf(s, s.pools[n].edgeName) == {};
      step := ReconcilePool(n);
      assert n !in Next(d, s, step).pools;
    } else if e :| e in s.edges {
      assert PoolsOf(s, e) == {};
      step := ReconcileEdge(e);
      assert e !in Next(d, s, step).edges;
    } else {
      var p :| p in s.providers;
      assert EdgesOf(s, p) == {};
      step := ReconcileProvider(p);
      assert p !in Next(d, s, step).providers;
    }
  }

  lemma {:induction false} NeedsKept(d: Declared, s: Store, step: Step, lost: set<string>)
    requires Credentials(s, lost) && IsTeardown(step, lost) && s.secrets <= Next(d, s, step).secrets
    ensures Credentials(Next(d, s, step), lost)
  {
    forall w | NeedsSecret(Next(d, s, step), w) && w !in lost
      ensures Next(d, s, step).workers[w].providerName in Next(d, s, step).secrets
    {
      NeedWasThere(d, s, step, w, lost);
    }
  }

  lemma {:induction false} NeedWasThere(d: Declared, s: Store, step: Step, w: string, lost: set<string>)
    requires IsTeardown(step, lost) && NeedsSecret(Next(d, s, step), w)
    ensures NeedsSecret(s, w) && Next(d, s, step).workers[w].providerName == s.workers[w].providerName
  {
    match step
    case ReconcileWorker(v, readable) => NeedBeforeReconcile(s, v, readable, w);
    case FinishDeleteJob(v) => assert v != w ==> FinishDeleteSpec(s, v).workers[w] == s.workers[w];
    case _ => OtherStepsKeepWorkers(d, s, step);
  }

  lemma {:induction false} NeedBeforeReconcile(s: Store, v: string, readable: bool, w: string)
    requires NeedsSecret(ReconcileWorkerSpec(s, v, readable), w)
    ensures NeedsSecret(s, w)
    ensures ReconcileWorkerSpec(s, v, readable).workers[w].providerName == s.workers[w].providerName
  {
  }

  /** Finalizing a provider never takes a secret a job still has to be built from. */
  lemma {:induction false} CredentialsKept(d: Declared, s: Store, step: Step, lost: set<string>)
    requires Custody(d, s) && Credentials(s, lost) && IsTeardown(step, lost)
    ensures Credentials(Next(d, s, step), lost)
  {
    CustodyProtectsSecrets(d, s, step);
    forall w | NeedsSecret(Next(d, s, step), w) && w !in lost
      ensures Next(d, s, step).workers[w].providerName in Next(d, s, step).secrets
    {
      NeedWasThere(d, s, step, w, lost);
    }
  }

  // ----- Whole teardowns

  ghost predicate AllTeardown(steps: seq<Step>, lost: set<string>) {
    forall i :: 0 <= i < |steps| ==> IsTeardown(steps[i], lost)
  }

  /** Every step of the run changed something. */
  ghost predicate Effective(d: Declared, s: Store, steps: seq<Step>) {
    forall i :: 0 <= i < |steps| ==> Exec(d, s, steps[..i + 1]) != Exec(d, s, steps[..i])
  }

  ghost predicate NothingCanMove(d: Declared, s: Store, lost: set<string>) {
    forall step :: IsTeardown(step, lost) ==> Next(d, s, step) == s
  }

  lemma {:induction false} StaysDraining(d: Declared, s: Store, steps: seq<Step>, lost: set<string>)
    requires Draining(s) && AllTeardown(steps, lost)
    ensures Draining(Exec(d, s, steps))
  {
    if steps != [] {
      StaysDraining(d, s, steps[..|steps| - 1], lost);
      StepKeepsDraining(d, Exec(d, s, steps[..|steps| - 1]), steps[|steps| - 1], lost);
    }
  }

  /** In custody the finalizers keep the credentials of their own accord. */
  lemma {:induction false} TeardownKeeps(d: Declared, s: Store, steps: seq<Step>, lost: set<string>)
    requires NoSharedPoolNames(d) && Custody(d, s) && Credentials(s, lost) && AllTeardown(steps, lost)
    ensures var t := Exec(d, s, steps); Custody(d, t) && Credentials(t, lost)
  {
    if steps != [] {
      var init, last := steps[..|steps| - 1], steps[|steps| - 1];
      TeardownKeeps(d, s, init, lost);
      StepKeeps(d, Exec(d, s, init), last);
      CredentialsKept(d, Exec(d, s, init), last, lost);
    }
  }

  lemma {:induction false} EffectiveInit(d: Declared, s: Store, steps: seq<Step>)
    requires Effective(d, s, steps) && steps != []
    ensures var init := steps[..|steps| - 1];
      Effective(d, s, init) && Next(d, Exec(d, s, init), steps[|steps| - 1]) != Exec(d, s, init)
  {
    var init := steps[..|steps| - 1];
    forall i | 0 <= i < |init| ensures Exec(d, s, init[..i + 1]) != Exec(d, s, init[..i]) {
      assert init[..i + 1] == steps[..i + 1] && init[..i] == steps[..i];
    }
    assert steps[..|steps| - 1 + 1] == steps;
  }

  /** No livelock, with or without credentials: at most Measure(s) finalizers and jobs have an effect. */
  lemma {:induction false} EffectiveRunIsShort(d: Declared, s: Store, steps: seq<Step>, lost: set<string>)
    requires Draining(s) && AllTeardown(steps, lost) && Effective(d, s, steps)
    ensures |steps| + Measure(Exec(d, s, steps)) <= Measure(s)
  {
    if steps != [] {
      var init, last := steps[..|steps| - 1], steps[|steps| - 1];
      EffectiveInit(d, s, steps);
      EffectiveRunIsShort(d, s, init, lost);
      StaysDraining(d, s, init, lost);
      EffectiveStepFalls(d, Exec(d, s, init), last, lost);
    }
  }

  lemma {:induction false} EmptyRests(d: Declared, s: Store, step: Step, lost: set<string>)
    requires Cleared(s) && IsTeardown(step, lost)
    ensures Next(d, s, step) == s
  {
  }

  lemma {:induction false} OnlyEmptyRests(d: Declared, s: Store, lost: set<string>)
    requires Draining(s) && Credentials(s, lost)
    ensures NothingCanMove(d, s, lost) <==> Cleared(s)
  {
    if Cleared(s) {
      forall step | IsTeardown(step, lost) ensures Next(d, s, step) == s {
        EmptyRests(d, s, step, lost);
      }
    } else {
      var step := SomethingCanMove(d, s, lost);
    }
  }

  /**
   * In whatever order the finalizers run, at most Measure(s) of them have an effect; and at any
   * point at which the credentials are still there, none has one any more exactly when the store is
   * empty. That they still are is another matter, settled below.
   */
  lemma {:induction false} TeardownEndsEmpty(d: Declared, s: Store, steps: seq<Step>, lost: set<string>)
    requires Draining(s) && AllTeardown(steps, lost)
    ensures Effective(d, s, steps) ==> |steps| <= Measure(s)
    ensures var t := Exec(d, s, steps); Credentials(t, lost) ==> (NothingCanMove(d, t, lost) <==> Cleared(t))
  {
    if Effective(d, s, steps) {
      EffectiveRunIsShort(d, s, steps, lost);
    }
    StaysDraining(d, s, steps, lost);
    if Credentials(Exec(d, s, steps), lost) {
      OnlyEmptyRests(d, Exec(d, s, steps), lost);
    }
  }

  lemma {:induction false} FinishTeardown(d: Declared, s: Store, done: seq<Step>, lost: set<string>)
      returns (steps: seq<Step>)
    requires AllTeardown(done, lost) && Draining(s) && Credentials(Exec(d, s, done), lost)
    ensures AllTeardown(steps, lost) && Cleared(Exec(d, s, steps))
    decreases Measure(Exec(d, s, done))
  {
    StaysDraining(d, s, done, lost);
    var t := Exec(d, s, done);
    if Cleared(t) {
      steps := done;
    } else {
      var step := SomethingCanMove(d, t, lost);
      EffectiveStepFalls(d, t, step, lost);
      var longer, next := Then(d, s, done, step);
      steps := FinishTeardown(d, s, longer, lost);
    }
  }

  /** A deleting worker whose job cannot be built, and whose machine is not overlooked. */
  predicate Stuck(s: Store, w: string, lost: set<string>) {
    && NeedsSecret(s, w) && w !in lost
    && s.workers[w].meta.deleting && s.workers[w].providerName !in s.secrets
  }

  lemma {:induction false} StaysStuck(d: Declared, s: Store, step: Step, w: string, lost: set<string>)
    requires IsTeardown(step, lost) && Stuck(s, w, lost)
    ensures Stuck(Next(d, s, step), w, lost)
  {
    match step
    case ReconcileWorker(v, _) => WorkerStaysStuck(s, v, w, lost);
    case FinishDeleteJob(v) => assert FinishDeleteSpec(s, v).secrets == s.secrets;
    case ReconcileProvider(p) => assert ReconcileProviderSpec(s, p).secrets <= s.secrets;
    case ReconcileEdge(e) => assert ReconcileEdgeSpec(s, e).workers == s.workers;
    case ReconcilePool(n) => assert ReconcilePoolSpec(s, n).workers == s.workers;
  }

  lemma {:induction false} WorkerStaysStuck(s: Store, v: string, w: string, lost: set<string>)
    requires Stuck(s, w, lost)
    ensures Stuck(ReconcileWorkerSpec(s, v, v !in lost), w, lost)
  {
  }

  /** Such a worker is never let go. */
  lemma {:induction false} WithoutSecretStuck(d: Declared, s: Store, steps: seq<Step>, w: string, lost: set<string>)
    requires AllTeardown(steps, lost) && Stuck(s, w, lost)
    ensures Stuck(Exec(d, s, steps), w, lost)
  {
    if steps != [] {
      WithoutSecretStuck(d, s, steps[..|steps| - 1], w, lost);
      StaysStuck(d, Exec(d, s, steps[..|steps| - 1]), steps[|steps| - 1], w, lost);
    }
  }

  /**
   * Once everything is marked, some order of finalizers and jobs clears the store if and only if every
   * worker whose machine has still to be destroyed, and whose outputs can be read, has its
   * provider's secret.
   */
  lemma {:induction false} TeardownExactly(d: Declared, s: Store, lost: set<string>)
    requires Draining(s)
    ensures (exists steps :: AllTeardown(steps, lost) && Cleared(Exec(d, s, steps))) <==> Credentials(s, lost)
  {
    if Credentials(s, lost) {
      assert Exec(d, s, []) == s;
      var steps := FinishTeardown(d, s, [], lost);
    } else {
      var w :| NeedsSecret(s, w) && w !in lost && s.workers[w].providerName !in s.secrets;
      forall steps | AllTeardown(steps, lost) ensures !Cleared(Exec(d, s, steps)) {
        WithoutSecretStuck(d, s, steps, w, lost);
      }
    }
  }

  /** With no outputs readable the store is cleared without any secret, machines or not. */
  lemma {:induction false} UnreadableNeedsNoSecret(d: Declared, s: Store)
    requires Draining(s)
    ensures exists steps :: AllTeardown(steps, s.workers.Keys) && Cleared(Exec(d, s, steps))
  {
    TeardownExactly(d, s, s.workers.Keys);
  }

  // ----- Deadlock: exactly when NodePool names collide

  /** Whatever order the finalizers of a drained store run in, they stop only at the empty store. */
  ghost predicate NeverDeadlocks(d: Declared) {
    forall steps, more, lost ::
      !Deadlocks(d, Exec(d, EMPTY, steps), more, lost)
  }

  /** With all credentials at hand, this teardown ends before the store is empty. */
  ghost predicate Deadlocks(d: Declared, s: Store, more: seq<Step>, lost: set<string>) {
    && Draining(s) && Credentials(s, lost) && AllTeardown(more, lost)
    && NothingCanMove(d, Exec(d, s, more), lost) && !Cleared(Exec(d, s, more))
  }

  lemma {:induction false} NoDeadlock(d: Declared, steps: seq<Step>, more: seq<Step>, lost: set<string>)
    requires NoSharedPoolNames(d)
    ensures !Deadlocks(d, Exec(d, EMPTY, steps), more, lost)
  {
    var s := Exec(d, EMPTY, steps);
    if Draining(s) && Credentials(s, lost) && AllTeardown(more, lost) {
      ReachableCustody(d, steps);
      TeardownKeeps(d, s, more, lost);
      TeardownEndsEmpty(d, s, more, lost);
    }
  }

  /** The store after the takeover with everything marked; the second provider held nothing back. */
  function MarkedStore(d: Declared, e1: string, p1: PoolDecl, e2: string, p2: PoolDecl): Store
    requires e1 in d && e2 in d
  {
    Store(
      map[d[e1].providerName := Meta(BOTH, true)],
      map[e1 := Up(d, e1).(meta := Meta(BOTH, true)), e2 := Up(d, e2).(meta := Meta(BOTH, true))],
      map[PoolName(e2, p2.name) := HeldPool(d, e2, p2).(meta := Meta(BOTH, true))],
      map[W := Staging(d, e1, p1, true, true, false)], {d[e1].providerName})
  }

  lemma {:induction false} ProvidersMarked(d: Declared, before: seq<Step>, e1: string, e2: string)
      returns (steps: seq<Step>, s: Store)
    requires e1 in d && e2 in d && Exec(d, EMPTY, before).providers == ProvidersOf(d, e1, e2)
    ensures s == Exec(d, EMPTY, steps) ==
      Exec(d, EMPTY, before).(providers := map[d[e1].providerName := Meta(BOTH, true)])
  {
    var q1, q2 := d[e1].providerName, d[e2].providerName;
    steps, s := Then(d, EMPTY, before, RequestDelete(KProvider, q1));
    assert q1 == q2 ==> s.providers == map[q1 := Meta(BOTH, true)];
    if q1 != q2 {
      steps, s := Then(d, EMPTY, steps, RequestDelete(KProvider, q2));
      assert s.providers == map[q1 := Meta(BOTH, true)];
    }
  }

  lemma {:induction false} Mark(d: Declared, before: seq<Step>, kind: Kind, name: string)
      returns (steps: seq<Step>, s: Store)
    requires Exists(Exec(d, EMPTY, before), kind, name)
    requires MetaOf(Exec(d, EMPTY, before), kind, name) == Meta(BOTH, false)
    ensures s == Exec(d, EMPTY, steps) == WithMeta(Exec(d, EMPTY, before), kind, name, Meta(BOTH, true))
  {
    steps, s := Then(d, EMPTY, before, RequestDelete(kind, name));
  }

  lemma {:induction false} FirstEdgeMarked(d: Declared, before: seq<Step>, e1: string, e2: string)
      returns (steps: seq<Step>, s: Store)
    requires e1 in d && e2 in d && e1 != e2
    requires Exec(d, EMPTY, before).edges == map[e1 := Up(d, e1), e2 := Up(d, e2)]
    ensures s == Exec(d, EMPTY, steps) == Exec(d, EMPTY, before).(edges :=
      map[e1 := Up(d, e1).(meta := Meta(BOTH, true)), e2 := Up(d, e2)])
  {
    steps, s := Mark(d, before, KEdge, e1);
    assert s.edges == map[e1 := Up(d, e1).(meta := Meta(BOTH, true)), e2 := Up(d, e2)];
  }

  lemma {:induction false} EdgesMarked(d: Declared, before: seq<Step>, e1: string, e2: string)
      returns (steps: seq<Step>, s: Store)
    requires e1 in d && e2 in d && e1 != e2
    requires Exec(d, EMPTY, before).edges == map[e1 := Up(d, e1), e2 := Up(d, e2)]
    ensures s == Exec(d, EMPTY, steps) == Exec(d, EMPTY, before).(edges :=
      map[e1 := Up(d, e1).(meta := Meta(BOTH, true)), e2 := Up(d, e2).(meta := Meta(BOTH, true))])
  {
    steps, s := FirstEdgeMarked(d, before, e1, e2);
    steps, s := Mark(d, steps, KEdge, e2);
    assert s.edges == map[e1 := Up(d, e1).(meta := Meta(BOTH, true)), e2 := Up(d, e2).(meta := Meta(BOTH, true))];
  }

  lemma {:induction false} PoolMarked(d: Declared, before: seq<Step>, n: string, pool: NodePool)
      returns (steps: seq<Step>, s: Store)
    requires Exec(d, EMPTY, before).pools == map[n := pool] && pool.meta == Meta(BOTH, false)
    ensures s == Exec(d, EMPTY, steps) ==
      Exec(d, EMPTY, before).(pools := map[n := pool.(meta := Meta(BOTH, true))])
  {
    steps, s := Mark(d, before, KPool, n);
    assert s.pools == map[n := pool.(meta := Meta(BOTH, true))];
  }

  lemma {:induction false} WorkerMarked(d: Declared, before: seq<Step>, w: WorkerNode)
      returns (steps: seq<Step>, s: Store)
    requires Exec(d, EMPTY, before).workers == map[W := w] && w.meta == Meta(BOTH, false)
    ensures s == Exec(d, EMPTY, steps) ==
      Exec(d, EMPTY, before).(workers := map[W := w.(meta := Meta(BOTH, true))])
  {
    steps, s := Mark(d, before, KWorker, W);
    assert s.workers == map[W := w.(meta := Meta(BOTH, true))];
  }

  lemma {:induction false} AllMarked(
      d: Declared, before: seq<Step>, e1: string, p1: PoolDecl, e2: string, p2: PoolDecl)
      returns (steps: seq<Step>, s: Store)
    requires Collide(d, e1, p1, e2, p2)
    requires Exec(d, EMPTY, before) == TakenStore(d, e1, e2, p2, Staging(d, e1, p1, false, true, false))
    ensures s == Exec(d, EMPTY, steps) == MarkedStore(d, e1, p1, e2, p2)
  {
    steps, s := ProvidersMarked(d, before, e1, e2);
    steps, s := EdgesMarked(d, steps, e1, e2);
    steps, s := PoolMarked(d, steps, PoolName(e2, p2.name), HeldPool(d, e2, p2));
    steps, s := WorkerMarked(d, steps, Staging(d, e1, p1, false, true, false));
  }

  /** A worker with its machine, and nothing else. */
  function Orphan(w: WorkerNode): Store {
    Store(map[], map[], map[], map[W := w], {})
  }

  lemma {:induction false} FirstEdgeGoes(d: Declared, e1: string, p1: PoolDecl, e2: string, p2: PoolDecl)
      returns (more: seq<Step>, s: Store)
    requires Collide(d, e1, p1, e2, p2)
    ensures AllTeardown(more, {})
    ensures var base := MarkedStore(d, e1, p1, e2, p2);
      s == Exec(d, base, more) == base.(edges := map[e2 := base.edges[e2]])
  {
    var base := MarkedStore(d, e1, p1, e2, p2);
    assert PoolsOf(base, e1) == {} && Exec(d, base, []) == base;
    more, s := Then(d, base, [], ReconcileEdge(e1));
    assert s.edges == map[e2 := base.edges[e2]];
  }

  lemma {:induction false} PoolGoes(d: Declared, e1: string, p1: PoolDecl, e2: string, p2: PoolDecl)
      returns (more: seq<Step>, s: Store)
    requires Collide(d, e1, p1, e2, p2)
    ensures AllTeardown(more, {})
    ensures var base := MarkedStore(d, e1, p1, e2, p2);
      s == Exec(d, base, more) == base.(edges := map[e2 := base.edges[e2]], pools := map[])
  {
    var base := MarkedStore(d, e1, p1, e2, p2);
    more, s := FirstEdgeGoes(d, e1, p1, e2, p2);
    assert WorkersOf(s, e2) == {};
    more, s := Then(d, base, more, ReconcilePool(PoolName(e2, p2.name)));
    assert s.pools == map[];
  }

  lemma {:induction false} SecondEdgeGoes(d: Declared, e1: string, p1: PoolDecl, e2: string, p2: PoolDecl)
      returns (more: seq<Step>, s: Store)
    requires Collide(d, e1, p1, e2, p2)
    ensures AllTeardown(more, {})
    ensures var base := MarkedStore(d, e1, p1, e2, p2);
      s == Exec(d, base, more) == base.(edges := map[], pools := map[])
  {
    more, s := PoolGoes(d, e1, p1, e2, p2);
    assert PoolsOf(s, e2) == {};
    more, s := Then(d, MarkedStore(d, e1, p1, e2, p2), more, ReconcileEdge(e2));
    assert s.edges == map[];
  }

  /** Edge, pool, edge and provider go before the worker, and the secret with the provider. */
  lemma {:induction false} OrphanMade(d: Declared, e1: string, p1: PoolDecl, e2: string, p2: PoolDecl)
      returns (more: seq<Step>)
    requires Collide(d, e1, p1, e2, p2)
    ensures AllTeardown(more, {})
    ensures Exec(d, MarkedStore(d, e1, p1, e2, p2), more) == Orphan(Staging(d, e1, p1, true, true, false))
  {
    var s := EMPTY;
    more, s := SecondEdgeGoes(d, e1, p1, e2, p2);
    assert EdgesOf(s, d[e1].providerName) == {};
    more, s := Then(d, MarkedStore(d, e1, p1, e2, p2), more, ReconcileProvider(d[e1].providerName));
    assert s.providers == map[] && s.secrets == {};
  }

  lemma {:induction false} OrphanRests(d: Declared, w: WorkerNode)
    requires w.meta.deleting && w.machine && !w.node && !w.deleteJob
    ensures NothingCanMove(d, Orphan(w), {}) && !Cleared(Orphan(w))
  {
    assert W in Orphan(w).workers;
  }

  /** Two edges sharing a NodePool name: a drained store with all its secrets that deadlocks. */
  lemma {:induction false} CollisionDeadlocks(d: Declared, e1: string, p1: PoolDecl, e2: string, p2: PoolDecl)
      returns (steps: seq<Step>, more: seq<Step>)
    requires Collide(d, e1, p1, e2, p2)
    ensures Deadlocks(d, Exec(d, EMPTY, steps), more, {})
  {
    var s := EMPTY;
    steps, s := MachineUp(d, e1, p1);
    steps, s := TakenOver(d, e1, p1, e2, p2, Staging(d, e1, p1, false, true, false), steps);
    steps, s := AllMarked(d, steps, e1, p1, e2, p2);
    more := OrphanMade(d, e1, p1, e2, p2);
    OrphanRests(d, Staging(d, e1, p1, true, true, false));
  }

  /**
   * No teardown of a drained store that has its credentials can deadlock, if and only if no two
   * declared edges share a NodePool name.
   */
  lemma {:induction false} NeverDeadlocksExactly(d: Declared)
    ensures NeverDeadlocks(d) <==> NoSharedPoolNames(d)
  {
    if NoSharedPoolNames(d) {
      forall steps, more, lost ensures !Deadlocks(d, Exec(d, EMPTY, steps), more, lost) {
        NoDeadlock(d, steps, more, lost);
      }
    } else {
      var e1, e2, p1, p2 :| e1 in d && e2 in d && p1 in d[e1].pools && p2 in d[e2].pools
        && PoolName(e1, p1.name) == PoolName(e2, p2.name) && e1 != e2;
      var steps, more := CollisionDeadlocks(d, e1, p1, e2, p2);
    }
  }
}
