/** The closed loop under a fixed load: it never thrashes, and settles, while the first node is largest. */
module PoolConvergence {
  import opened Arithmetic
  import opened Rcalculate
  import opened NodePool
  import opened PoolSafety
  import opened PoolCapacity

  // ----- Equal nodes: everything depends on the two counts n and k

  ghost predicate Uniform(ws: seq<Worker>, catalogue: Catalogue, m: nat) {
    forall w :: w in ws ==> Memory(w, catalogue) == m
  }

  lemma OneMore(n: nat, m: nat)
    ensures (n + 1) * m == n * m + m
  {
  }

  lemma {:induction false} UniformTotal(ws: seq<Worker>, catalogue: Catalogue, m: nat)
    requires Uniform(ws, catalogue, m)
    ensures TotalMemory(ws, catalogue) == |ws| * m
  {
    if ws != [] {
      UniformTotal(ws[1..], catalogue, m);
      assert ws[0] in ws && NodesOf(ws, catalogue)[0].size.memory == Memory(ws[0], catalogue);
      assert NodesOf(ws, catalogue)[1..] == NodesOf(ws[1..], catalogue);
      OneMore(|ws| - 1, m);
    }
  }

  /**
   * With equal nodes, what DEL_NODE asks about n+1 nodes is what ADD_NODE
   * asks about n nodes, the sentinels 0 and 200 included.
   */
  lemma {:induction false} LessIsOneFewer(
      load: Load, larger: seq<Worker>, smaller: seq<Worker>, catalogue: Catalogue, m: nat)
    requires Uniform(larger, catalogue, m) && Uniform(smaller, catalogue, m)
    requires |larger| == |smaller| + 1
    ensures FilledByAssumingLess(load, NodesOf(larger, catalogue)) ==
            TotalFilled(load, NodesOf(smaller, catalogue))
  {
    UniformTotal(larger, catalogue, m);
    UniformTotal(smaller, catalogue, m);
    assert NodesOf(larger, catalogue)[0].size.memory == Memory(larger[0], catalogue);
    OneMore(|smaller|, m);
  }

  // ----- Runs under a fixed load

  ghost predicate SameLoad(a: Event, b: Event) {
    a.pool == b.pool && a.catalogue == b.catalogue
    && a.totalUsed == b.totalUsed && a.statefulUsed == b.statefulUsed
  }

  /**
   * One pool reconciles over and over, deciding `actions`: same usage, and UUIDs that do not repeat.
   */
  ghost predicate FixedLoadRun(states: seq<seq<Worker>>, events: seq<Event>, actions: seq<Action>) {
    && Run(states, events) && Inv(states[0]) && |actions| == |events|
    && (forall i {:trigger events[i]} :: 0 <= i < |events| ==> actions[i] == Decision(states[i], events[i]))
    && (forall i {:trigger events[i]} :: 0 <= i < |events| ==> SameLoad(events[0], events[i]))
    && (forall i {:trigger events[i]} :: 0 <= i < |events| ==> !NameUsed(states[i], events[i].name))
  }

  /** The worker removed, or added, is no larger than the one listed first before, or after, that. */
  ghost predicate Covered(ws: seq<Worker>, ev: Event) {
    && (Decision(ws, ev) == DelNode && Victim(ws) < |ws| ==>
      Memory(ws[Victim(ws)], ev.catalogue) <= FirstMemory(ws, ev.catalogue))
    && (Decision(ws, ev) == AddNode ==>
      PoolMemory(ev) <= FirstMemory(Enlarged(ws, ev), ev.catalogue))
  }

  ghost predicate AllCovered(states: seq<seq<Worker>>, events: seq<Event>)
    requires |states| == |events| + 1
  {
    forall i {:trigger events[i]} :: 0 <= i < |events| ==> Covered(states[i], events[i])
  }

  lemma {:induction false} RunStep(states: seq<seq<Worker>>, events: seq<Event>, i: nat)
    requires Run(states, events) && i < |events|
    ensures states[i + 1] == Step(states[i], events[i])
  {
  }

  lemma {:induction false} RunAt(states: seq<seq<Worker>>, events: seq<Event>, actions: seq<Action>, i: nat)
    requires FixedLoadRun(states, events, actions) && i < |events|
    ensures Inv(states[i]) && LoadOf(events[i]) == LoadOf(events[0])
    ensures events[i].catalogue == events[0].catalogue
    ensures actions[i] == Decision(states[i], events[i]) && !NameUsed(states[i], events[i].name)
    ensures states[i + 1] == Step(states[i], events[i])
  {
    ReachableInv(states, events, i);
    RunStep(states, events, i);
    assert SameLoad(events[0], events[i]);
  }

  // ----- Equal nodes are covered

  lemma {:induction false} UniformInsert(ws: seq<Worker>, p: nat, w: Worker, catalogue: Catalogue, m: nat)
    requires p <= |ws| && Uniform(ws, catalogue, m) && Memory(w, catalogue) == m
    ensures Uniform(InsertAt(ws, p, w), catalogue, m)
  {
  }

  lemma {:induction false} UniformTag(ws: seq<Worker>, p: nat, catalogue: Catalogue, m: nat)
    requires p < |ws| && Uniform(ws, catalogue, m)
    ensures Uniform(ws[p := ws[p].(stateful := true)], catalogue, m)
  {
    var tagged := ws[p := ws[p].(stateful := true)];
    forall w | w in tagged ensures Memory(w, catalogue) == m {
      var i :| 0 <= i < |tagged| && tagged[i] == w;
      assert ws[i] in ws;
    }
  }

  lemma {:induction false} StepKeepsUniform(ws: seq<Worker>, ev: Event, m: nat)
    requires Inv(ws) && Uniform(ws, ev.catalogue, m) && PoolMemory(ev) == m && !NameUsed(ws, ev.name)
    ensures Uniform(Step(ws, ev), ev.catalogue, m)
  {
    match Decision(ws, ev)
    case AddNode =>
      AddEffect(ws, ev);
      var w := Worker(ev.name, |ws|, false, ev.pool.provider, ev.pool.instanceType);
      UniformInsert(ws, Min(ev.slot, |ws|), w, ev.catalogue, m);
    case DelNode => var p := DeleteEffect(ws, ev);
    case AddStateful =>
      var p := TagEffect(ws, ev);
      UniformTag(ws, p, ev.catalogue, m);
    case Neutral =>
  }

  /** Equal nodes: all that are there, and all that the pool adds. */
  ghost predicate EqualNodes(states: seq<seq<Worker>>, events: seq<Event>, m: nat)
    requires |states| == |events| + 1
  {
    && (events != [] ==> Uniform(states[0], events[0].catalogue, m))
    && forall i {:trigger events[i]} :: 0 <= i < |events| ==> PoolMemory(events[i]) == m
  }

  lemma {:induction false} StaysUniform(
      states: seq<seq<Worker>>, events: seq<Event>, actions: seq<Action>, m: nat, i: nat)
    requires FixedLoadRun(states, events, actions) && EqualNodes(states, events, m) && i < |events|
    ensures Uniform(states[i], events[0].catalogue, m)
  {
    if i > 0 {
      StaysUniform(states, events, actions, m, i - 1);
      UniformNext(states, events, actions, m, i - 1);
    }
  }

  lemma {:induction false} UniformNext(
      states: seq<seq<Worker>>, events: seq<Event>, actions: seq<Action>, m: nat, i: nat)
    requires FixedLoadRun(states, events, actions) && EqualNodes(states, events, m) && i < |events|
    requires Uniform(states[i], events[0].catalogue, m)
    ensures Uniform(states[i + 1], events[0].catalogue, m)
  {
    RunAt(states, events, actions, i);
    StepKeepsUniform(states[i], events[i], m);
  }

  /** So everything below holds of equal nodes. */
  lemma {:induction false} EqualNodesCovered(
      states: seq<seq<Worker>>, events: seq<Event>, actions: seq<Action>, m: nat)
    requires FixedLoadRun(states, events, actions) && EqualNodes(states, events, m)
    ensures AllCovered(states, events)
  {
    forall i | 0 <= i < |events| ensures Covered(states[i], events[i]) {
      StaysUniform(states, events, actions, m, i);
      RunAt(states, events, actions, i);
      var ws, ev := states[i], events[i];
      var w := Worker(ev.name, |ws|, false, ev.pool.provider, ev.pool.instanceType);
      UniformInsert(ws, Min(ev.slot, |ws|), w, ev.catalogue, m);
    }
  }

  // ----- A run seen only through its counts, capacities and decisions

  ghost predicate Moves(a: Obs, b: Obs) {
    match a.action
    case AddNode => b.n == a.n + 1 && b.k == a.k && b.less <= a.whole
    case DelNode => b.n == a.n - 1 && b.k == a.k && b.whole >= a.less
    case AddStateful => b.n == a.n && b.k == a.k + 1 && b.whole == a.whole && b.less == a.less
    case Neutral => b.n == a.n && b.k == a.k && b.whole == a.whole && b.less == a.less
  }

  ghost predicate Trace(load: Load, trace: seq<Obs>) {
    && load.buffer == 0
    && (forall i :: 0 <= i < |trace| ==> Sensible(load, trace[i]))
    && (forall i, j :: 0 <= i && j == i + 1 && j < |trace| ==> Moves(trace[i], trace[j]))
  }

  /** What a reconcile does to counts and capacities, whatever is decided next. */
  lemma {:induction false} SeenMoves(ws: seq<Worker>, ev: Event, later: Event)
    requires Inv(ws) && Covered(ws, ev) && !NameUsed(ws, ev.name) && later.catalogue == ev.catalogue
    ensures Moves(Seen(ws, ev), Seen(Step(ws, ev), later))
  {
    match Decision(ws, ev)
    case AddNode =>
      AddEffect(ws, ev);
      MemoryInsert(ws, Min(ev.slot, |ws|),
        Worker(ev.name, |ws|, false, ev.pool.provider, ev.pool.instanceType), ev.catalogue);
    case DelNode =>
      var p := DeleteEffect(ws, ev);
      VictimIsDeleted(ws, ev);
      MemoryRemove(ws, Victim(ws), ev.catalogue);
    case AddStateful =>
      var p := TagEffect(ws, ev);
      MemoryTag(ws, p, ev.catalogue);
    case Neutral =>
  }

  lemma {:induction false} SensibleAt(states: seq<seq<Worker>>, events: seq<Event>, actions: seq<Action>, i: nat)
    requires FixedLoadRun(states, events, actions) && i < |events|
    ensures Sensible(LoadOf(events[0]), Seen(states[i], events[i]))
    ensures Seen(states[i], events[i]).action == actions[i]
  {
    RunAt(states, events, actions, i);
    SeenSensible(states[i], events[i]);
  }

  lemma {:induction false} MovesAt(states: seq<seq<Worker>>, events: seq<Event>, actions: seq<Action>, i: nat)
    requires FixedLoadRun(states, events, actions) && AllCovered(states, events) && i + 1 < |events|
    ensures Moves(Seen(states[i], events[i]), Seen(states[i + 1], events[i + 1]))
  {
    RunAt(states, events, actions, i);
    RunAt(states, events, actions, i + 1);
    SeenMoves(states[i], events[i], events[i + 1]);
  }

  /** The run as a sequence of observations. */
  function Observed(states: seq<seq<Worker>>, events: seq<Event>): (trace: seq<Obs>)
    requires |states| >= |events|
    ensures |trace| == |events|
    ensures forall i :: 0 <= i < |trace| ==> trace[i] == Seen(states[i], events[i])
  {
    seq(|events|, i requires 0 <= i < |events| && |events| <= |states| => Seen(states[i], events[i]))
  }

  lemma {:induction false} Observe(states: seq<seq<Worker>>, events: seq<Event>, actions: seq<Action>)
    requires FixedLoadRun(states, events, actions) && AllCovered(states, events) && events != []
    ensures Trace(LoadOf(events[0]), Observed(states, events))
    ensures forall i :: 0 <= i < |events| ==> Observed(states, events)[i].action == actions[i]
  {
    var trace, load := Observed(states, events), LoadOf(events[0]);
    forall i | 0 <= i < |trace| ensures Sensible(load, trace[i]) && trace[i].action == actions[i] {
      SensibleAt(states, events, actions, i);
    }
    ObserveMoves(states, events, actions);
  }

  lemma {:induction false} ObservedMove(
      states: seq<seq<Worker>>, events: seq<Event>, actions: seq<Action>, i: nat, j: nat)
    requires FixedLoadRun(states, events, actions) && AllCovered(states, events) && j == i + 1 < |events|
    ensures Moves(Observed(states, events)[i], Observed(states, events)[j])
  {
    MovesAt(states, events, actions, i);
  }

  lemma {:induction false} ObserveMoves(states: seq<seq<Worker>>, events: seq<Event>, actions: seq<Action>)
    requires FixedLoadRun(states, events, actions) && AllCovered(states, events)
    ensures var trace := Observed(states, events);
      forall i, j :: 0 <= i && j == i + 1 && j < |trace| ==> Moves(trace[i], trace[j])
  {
    var trace := Observed(states, events);
    forall i, j | 0 <= i && j == i + 1 && j < |trace| ensures Moves(trace[i], trace[j]) {
      ObservedMove(states, events, actions, i, j);
    }
  }

  // ----- Direction

  /** No DEL_NODE is possible here. */
  ghost predicate Floor(load: Load, o: Obs) {
    o.n <= load.minNode || Short(load, o.less)
  }

  /** No ADD_NODE is possible here. */
  ghost predicate Ceiling(load: Load, o: Obs) {
    o.n >= load.minNode && !Short(load, o.whole)
  }

  lemma {:induction false} DirectionTaken(load: Load, a: Obs, b: Obs)
    requires Sensible(load, a) && Moves(a, b) && load.buffer == 0
    ensures a.action == AddNode ==> Floor(load, b)
    ensures a.action == DelNode ==> Ceiling(load, b)
  {
    if a.action == AddNode {
      MarksMonotone(load, b.less, a.whole);
    } else if a.action == DelNode {
      MarksMonotone(load, a.less, b.whole);
    }
  }

  lemma {:induction false} DirectionKept(load: Load, trace: seq<Obs>, i: nat, j: nat)
    requires Trace(load, trace) && i < j < |trace|
    ensures trace[i].action == AddNode ==> Floor(load, trace[j]) && trace[j].action != DelNode
    ensures trace[i].action == DelNode ==> Ceiling(load, trace[j]) && trace[j].action != AddNode
    decreases j
  {
    if i < j - 1 {
      DirectionKept(load, trace, i, j - 1);
    }
    assert Sensible(load, trace[j - 1]) && Sensible(load, trace[j]);
    assert Moves(trace[j - 1], trace[j]);
    DirectionTaken(load, trace[j - 1], trace[j]);
  }

  /**
   * Under a fixed load no run both adds and deletes, in either order, as long as no worker added or
   * removed is larger than the one listed first.
   */
  lemma {:induction false} NeverAddsAndDeletes(
      states: seq<seq<Worker>>, events: seq<Event>, actions: seq<Action>, i: nat, j: nat)
    requires FixedLoadRun(states, events, actions) && AllCovered(states, events)
    requires i < |actions| && j < |actions|
    ensures !(actions[i] == AddNode && actions[j] == DelNode)
  {
    var trace := Observed(states, events);
    Observe(states, events, actions);
    if i < j {
      DirectionKept(LoadOf(events[0]), trace, i, j);
    } else if j < i {
      DirectionKept(LoadOf(events[0]), trace, j, i);
    }
  }

  // ----- Number of actions

  /** Action budget of a run that only adds and tags, and of one that only deletes and tags. */
  function UpBudget(load: Load, o: Obs): int {
    2 * Max(0, load.maxNode - o.n) + (o.n - o.k)
  }

  function DownBudget(o: Obs): int {
    o.n - o.k
  }

  ghost predicate Never(trace: seq<Obs>, action: Action, i: nat)
    requires i <= |trace|
  {
    forall h :: 0 <= h < i ==> trace[h].action != action
  }

  lemma {:induction false} BudgetSpent(load: Load, trace: seq<Obs>, i: nat)
    requires Trace(load, trace) && i < |trace| && Never(trace, Neutral, i)
    ensures Never(trace, DelNode, i) ==> UpBudget(load, trace[i]) + i <= UpBudget(load, trace[0])
    ensures Never(trace, AddNode, i) ==> DownBudget(trace[i]) + i <= DownBudget(trace[0])
  {
    if i > 0 {
      BudgetSpent(load, trace, i - 1);
      assert Sensible(load, trace[i - 1]) && Moves(trace[i - 1], trace[i]);
      assert trace[i - 1].action != Neutral;
    }
  }

  lemma {:induction false} TraceBounded(load: Load, trace: seq<Obs>, i: nat)
    requires Trace(load, trace) && i <= |trace| && trace != [] && Never(trace, Neutral, i)
    ensures i <= UpBudget(load, trace[0])
  {
    assert Sensible(load, trace[0]);
    if i > 0 {
      BudgetSpent(load, trace, i - 1);
      assert Sensible(load, trace[i - 1]) && trace[i - 1].action != Neutral;
      if !Never(trace, DelNode, i) && !Never(trace, AddNode, i) {
        var a :| 0 <= a < i && trace[a].action == AddNode;
        var d :| 0 <= d < i && trace[d].action == DelNode;
        DirectionKept(load, trace, if a < d then a else d, if a < d then d else a);
      }
    }
  }

  /**
   * Convergence: such a run from n nodes, k of them stateful, takes at most
   * 2*max(0, Max-n) + (n-k) actions before it decides NEUTRAL.
   */
  lemma {:induction false} ActionsBounded(
      states: seq<seq<Worker>>, events: seq<Event>, actions: seq<Action>, i: nat)
    requires FixedLoadRun(states, events, actions) && AllCovered(states, events)
    requires events != [] && i <= |actions| && forall h :: 0 <= h < i ==> actions[h] != Neutral
    ensures i <= 2 * Max(0, events[0].pool.maxNode - |states[0]|) + (|states[0]| - K(states[0]))
  {
    var trace := Observed(states, events);
    Observe(states, events, actions);
    TraceBounded(LoadOf(events[0]), trace, i);
  }

  lemma {:induction false} NeutralStays(
      states: seq<seq<Worker>>, events: seq<Event>, actions: seq<Action>, i: nat)
    requires FixedLoadRun(states, events, actions) && i + 1 < |actions| && actions[i] == Neutral
    ensures states[i + 1] == states[i] && actions[i + 1] == Neutral
  {
    assert SameLoad(events[0], events[i]) && SameLoad(events[0], events[i + 1]);
  }

  /** And NEUTRAL is final: from then on, at that load, the list never changes. */
  lemma {:induction false} NeutralIsFinal(
      states: seq<seq<Worker>>, events: seq<Event>, actions: seq<Action>, i: nat, j: nat)
    requires FixedLoadRun(states, events, actions) && i <= j < |actions| && actions[i] == Neutral
    ensures states[j] == states[i] && actions[j] == Neutral
    decreases j
  {
    if i < j {
      NeutralIsFinal(states, events, actions, i, j - 1);
      NeutralStays(states, events, actions, j - 1);
    }
  }
}
