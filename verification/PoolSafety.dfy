/**
 * What every run of the autoscaler keeps. The workers of one edge are the state; an event is one
 * reconcile by any pool of that edge, under any load, with its effect applied atomically.
 */
module PoolSafety {
  import opened Arithmetic
  import opened FiniteSets
  import opened Rcalculate
  import opened NodePool

  // ----- Invariants of a worker list

  ghost predicate DistinctIndices(ws: seq<Worker>) {
    forall i, j :: 0 <= i < j < |ws| ==> ws[i].index != ws[j].index
  }

  ghost predicate DistinctNames(ws: seq<Worker>) {
    forall i, j :: 0 <= i < j < |ws| ==> ws[i].name != ws[j].name
  }

  ghost predicate InRange(ws: seq<Worker>) {
    forall i :: 0 <= i < |ws| ==> 0 <= ws[i].index < |ws|
  }

  /** The stateful workers are exactly the first K indices. */
  ghost predicate StatefulPrefix(ws: seq<Worker>) {
    forall i :: 0 <= i < |ws| ==> (ws[i].stateful <==> ws[i].index < K(ws))
  }

  /** Indices are exactly 0..n-1 (range, distinctness and length together) and stateful is a prefix. */
  ghost predicate Inv(ws: seq<Worker>) {
    DistinctNames(ws) && DistinctIndices(ws) && InRange(ws) && StatefulPrefix(ws)
  }

  // ----- Runs

  ghost predicate Run(states: seq<seq<Worker>>, events: seq<Event>) {
    && |states| == |events| + 1
    && forall i {:trigger events[i]} :: 0 <= i < |events| ==> states[i + 1] == Step(states[i], events[i])
  }

  // ----- Pigeonhole

  function Range(n: nat): (range: set<int>)
    ensures forall x :: x in range <==> 0 <= x < n
    ensures |range| == n
  {
    if n == 0 then {} else Range(n - 1) + {n - 1}
  }

  function IndexSet(ws: seq<Worker>): set<int> {
    set i | 0 <= i < |ws| :: ws[i].index
  }

  lemma {:induction false} IndexSetSize(ws: seq<Worker>)
    ensures |IndexSet(ws)| <= |ws|
    ensures DistinctIndices(ws) ==> |IndexSet(ws)| == |ws|
  {
    if ws != [] {
      var init, last := ws[..|ws| - 1], ws[|ws| - 1];
      IndexSetSize(init);
      assert IndexSet(ws) == IndexSet(init) + {last.index} by {
        assert forall i :: 0 <= i < |init| ==> ws[i] == init[i];
        forall x | x in IndexSet(ws) ensures x in IndexSet(init) + {last.index} {
          var i :| 0 <= i < |ws| && ws[i].index == x;
          if i < |init| {
            assert init[i].index == x;
          }
        }
        forall x | x in IndexSet(init) ensures x in IndexSet(ws) {
          var i :| 0 <= i < |init| && init[i].index == x;
          assert ws[i].index == x;
        }
      }
    }
  }

  /** Every index 0..n-1 is taken by one of the n workers. */
  lemma {:induction false} Surjective(ws: seq<Worker>, index: int)
    requires DistinctIndices(ws) && InRange(ws) && 0 <= index < |ws|
    ensures Used(ws, index)
  {
    IndexSetSize(ws);
    SubsetSize(IndexSet(ws), Range(|ws|));
    assert index in Range(|ws|);
    assert index in IndexSet(ws);
  }

  lemma {:induction false} FreshFromScan(ws: seq<Worker>, i: nat)
    requires i <= |ws| && forall x :: 0 <= x < i ==> Used(ws, x)
    ensures 0 <= FreshFrom(ws, i) <= |ws|
    ensures forall x :: 0 <= x < FreshFrom(ws, i) ==> Used(ws, x)
    ensures FreshFrom(ws, i) < |ws| ==> !Used(ws, FreshFrom(ws, i))
    decreases |ws| - i
  {
    if i < |ws| && Used(ws, i) {
      FreshFromScan(ws, i + 1);
    }
  }

  /**
   * The index chosen for a new worker is the least natural number no listed worker has, and at
   * most n, whatever gaps, repetitions or negative indices the n workers show.
   */
  lemma {:induction false} FreshIndexIsLeastUnused(ws: seq<Worker>)
    ensures 0 <= FreshFrom(ws, 0) <= |ws|
    ensures !Used(ws, FreshFrom(ws, 0))
    ensures forall x :: 0 <= x < FreshFrom(ws, 0) ==> Used(ws, x)
  {
    FreshFromScan(ws, 0);
    var n := |ws|;
    if FreshFrom(ws, 0) == n && Used(ws, n) {
      assert Range(n + 1) <= IndexSet(ws) by {
        forall x | x in Range(n + 1) ensures x in IndexSet(ws) {
          assert Used(ws, x);
        }
      }
      IndexSetSize(ws);
      SubsetSize(Range(n + 1), IndexSet(ws));
      assert false;
    }
  }

  lemma {:induction false} FreshIndexWhenDense(ws: seq<Worker>)
    requires DistinctIndices(ws) && InRange(ws)
    ensures FreshFrom(ws, 0) == |ws|
  {
    FreshIndexIsLeastUnused(ws);
    if FreshFrom(ws, 0) < |ws| {
      Surjective(ws, FreshFrom(ws, 0));
    }
  }

  lemma {:induction false} LastIndexIsMax(ws: seq<Worker>)
    ensures LastIndex(ws) >= 0
    ensures forall i :: 0 <= i < |ws| ==> ws[i].index <= LastIndex(ws)
    ensures LastIndex(ws) == 0 || Used(ws, LastIndex(ws))
  {
    if ws != [] {
      var init := ws[..|ws| - 1];
      LastIndexIsMax(init);
      forall i | 0 <= i < |ws| ensures ws[i].index <= LastIndex(ws) {
        if i < |init| {
          assert init[i] == ws[i];
        }
      }
      if LastIndex(ws) != 0 && LastIndex(ws) != ws[|ws| - 1].index {
        var i :| 0 <= i < |init| && init[i].index == LastIndex(init);
        assert ws[i].index == LastIndex(ws);
      }
    }
  }

  lemma {:induction false} LastIndexWhenDense(ws: seq<Worker>)
    requires DistinctIndices(ws) && InRange(ws) && ws != []
    ensures LastIndex(ws) == |ws| - 1
  {
    LastIndexIsMax(ws);
    Surjective(ws, |ws| - 1);
    var i :| 0 <= i < |ws| && ws[i].index == |ws| - 1;
    if LastIndex(ws) != 0 {
      assert Used(ws, LastIndex(ws));
    }
  }

  // ----- The API operations by position

  function InsertAt(ws: seq<Worker>, p: nat, w: Worker): (r: seq<Worker>)
    requires p <= |ws|
    ensures |r| == |ws| + 1
    ensures forall i :: 0 <= i < |r| ==> r[i] == if i < p then ws[i] else if i == p then w else ws[i - 1]
  {
    ws[..p] + [w] + ws[p..]
  }

  function RemoveAt(ws: seq<Worker>, p: nat): (r: seq<Worker>)
    requires p < |ws|
    ensures |r| == |ws| - 1
    ensures forall i :: 0 <= i < |r| ==> r[i] == if i < p then ws[i] else ws[i + 1]
  {
    ws[..p] + ws[p + 1..]
  }

  lemma {:induction false} InsertKeepsDistinct(ws: seq<Worker>, p: nat, w: Worker)
    requires p <= |ws| && DistinctIndices(ws) && DistinctNames(ws)
    requires !Used(ws, w.index) && !NameUsed(ws, w.name)
    ensures DistinctIndices(InsertAt(ws, p, w)) && DistinctNames(InsertAt(ws, p, w))
  {
    var r := InsertAt(ws, p, w);
    forall i, j | 0 <= i < j < |r| ensures r[i].index != r[j].index && r[i].name != r[j].name {
      assert i != p ==> r[i] == ws[if i < p then i else i - 1];
      assert j != p ==> r[j] == ws[if j < p then j else j - 1];
    }
  }

  lemma {:induction false} RemoveKeepsDistinct(ws: seq<Worker>, p: nat)
    requires p < |ws| && DistinctIndices(ws) && DistinctNames(ws)
    ensures DistinctIndices(RemoveAt(ws, p)) && DistinctNames(RemoveAt(ws, p))
  {
    var r := RemoveAt(ws, p);
    forall i, j | 0 <= i < j < |r| ensures r[i].index != r[j].index && r[i].name != r[j].name {
      assert r[i] == ws[if i < p then i else i + 1];
      assert r[j] == ws[if j < p then j else j + 1];
    }
  }

  lemma {:induction false} RemoveNamedSplit(ws: seq<Worker>, p: nat)
    requires p < |ws| && DistinctNames(ws)
    ensures RemoveNamed(ws, ws[p].name) == RemoveAt(ws, p)
  {
    if p == 0 {
      RemoveAbsent(ws[1..], ws[0].name);
    } else {
      RemoveNamedSplit(ws[1..], p - 1);
      assert RemoveAt(ws, p) == [ws[0]] + RemoveAt(ws[1..], p - 1);
    }
  }

  lemma {:induction false} RemoveAbsent(ws: seq<Worker>, name: string)
    requires !NameUsed(ws, name)
    ensures RemoveNamed(ws, name) == ws
  {
    if ws != [] {
      assert ws[0].name != name;
      forall i | 0 <= i < |ws[1..]| ensures ws[1..][i].name != name {
        assert ws[i + 1].name != name;
      }
      RemoveAbsent(ws[1..], name);
    }
  }

  lemma {:induction false} KConcat(a: seq<Worker>, b: seq<Worker>)
    ensures K(a + b) == K(a) + K(b)
  {
    if a == [] {
      assert a + b == b;
    } else {
      KConcat(a[1..], b);
      assert (a + b)[1..] == a[1..] + b;
    }
  }

  lemma {:induction false} KInsert(ws: seq<Worker>, p: nat, w: Worker)
    requires p <= |ws|
    ensures K(InsertAt(ws, p, w)) == K(ws) + if w.stateful then 1 else 0
  {
    KConcat(ws[..p] + [w], ws[p..]);
    KConcat(ws[..p], [w]);
    KConcat(ws[..p], ws[p..]);
    assert ws == ws[..p] + ws[p..];
  }

  lemma {:induction false} KRemove(ws: seq<Worker>, p: nat)
    requires p < |ws|
    ensures K(RemoveAt(ws, p)) == K(ws) - if ws[p].stateful then 1 else 0
  {
    var rest := RemoveAt(ws, p);
    assert ws == InsertAt(rest, p, ws[p]);
    KInsert(rest, p, ws[p]);
  }

  lemma {:induction false} KTag(ws: seq<Worker>, p: nat)
    requires p < |ws|
    ensures K(ws[p := ws[p].(stateful := true)]) == K(ws) + if ws[p].stateful then 0 else 1
  {
    var w, rest := ws[p].(stateful := true), RemoveAt(ws, p);
    assert ws[p := w] == InsertAt(rest, p, w);
    KRemove(ws, p);
    KInsert(rest, p, w);
  }

  lemma {:induction false} TagNamedAt(ws: seq<Worker>, p: nat)
    requires p < |ws| && DistinctNames(ws)
    ensures TagNamed(ws, ws[p].name) == ws[p := ws[p].(stateful := true)]
  {
  }

  // ----- One step from a good list, action by action

  /** An effective ADD_NODE gives the new worker index n, untagged, and touches no other worker. */
  lemma {:induction false} AddEffect(ws: seq<Worker>, ev: Event)
    requires Inv(ws) && Decision(ws, ev) == AddNode && !NameUsed(ws, ev.name)
    ensures var p := Min(ev.slot, |ws|);
            var w := Worker(ev.name, |ws|, false, ev.pool.provider, ev.pool.instanceType);
            Step(ws, ev) == InsertAt(ws, p, w) && K(Step(ws, ev)) == K(ws)
  {
    FreshIndexWhenDense(ws);
    KInsert(ws, Min(ev.slot, |ws|), NewWorker(ws, ev));
  }

  /** DEL_NODE removes exactly one worker: the one with index n-1, which is not stateful. */
  lemma {:induction false} DeleteEffect(ws: seq<Worker>, ev: Event) returns (p: nat)
    requires Inv(ws) && Decision(ws, ev) == DelNode
    ensures p < |ws| && ws[p].index == |ws| - 1 && !ws[p].stateful
    ensures Step(ws, ev) == RemoveAt(ws, p) && K(Step(ws, ev)) == K(ws)
  {
    CountIsK(ws, ev.catalogue);
    LastIndexWhenDense(ws);
    Surjective(ws, |ws| - 1);
    p := Position(ws, LastIndex(ws));
    RemoveNamedSplit(ws, p);
    KRemove(ws, p);
  }

  /** ADD_STATEFUL finds exactly one worker, the untagged one with index K, and tags it. */
  lemma {:induction false} TagEffect(ws: seq<Worker>, ev: Event) returns (p: nat)
    requires Inv(ws) && Decision(ws, ev) == AddStateful
    ensures p < |ws| && ws[p].index == K(ws) && !ws[p].stateful
    ensures forall i :: 0 <= i < |ws| && ws[i].index == K(ws) ==> i == p
    ensures Step(ws, ev) == ws[p := ws[p].(stateful := true)] && K(Step(ws, ev)) == K(ws) + 1
  {
    CountIsK(ws, ev.catalogue);
    Surjective(ws, K(ws));
    p := Position(ws, K(ws));
    TagNamedAt(ws, p);
    KTag(ws, p);
  }

  /**
   * Distinct indices and names survive every reconcile even when lists have gaps, as they do while
   * the API removes terminating workers on its own schedule.
   */
  lemma {:induction false} StepKeepsDistinct(ws: seq<Worker>, ev: Event)
    requires DistinctIndices(ws) && DistinctNames(ws)
    ensures DistinctIndices(Step(ws, ev)) && DistinctNames(Step(ws, ev))
  {
    match Decision(ws, ev)
    case AddNode =>
      if !NameUsed(ws, ev.name) {
        FreshIndexIsLeastUnused(ws);
        var p, w := Min(ev.slot, |ws|), NewWorker(ws, ev);
        InsertKeepsDistinct(ws, p, w);
        assert Step(ws, ev) == InsertAt(ws, p, w);
      }
    case DelNode =>
      var p := Position(ws, LastIndex(ws));
      if p < |ws| {
        RemoveNamedSplit(ws, p);
        RemoveKeepsDistinct(ws, p);
      }
    case AddStateful =>
    case Neutral =>
  }

  /** What one reconcile did to the list, with the decision that caused it abstracted away. */
  datatype Change = Added(at: nat, w: Worker) | Removed(at: nat) | Tagged(at: nat) | Same

  ghost predicate Effect(ws: seq<Worker>, next: seq<Worker>, change: Change) {
    match change
    case Added(p, w) =>
      p <= |ws| && next == InsertAt(ws, p, w) && K(next) == K(ws)
      && w.index == |ws| && !w.stateful && !NameUsed(ws, w.name)
    case Removed(p) =>
      p < |ws| && next == RemoveAt(ws, p) && K(next) == K(ws)
      && ws[p].index == |ws| - 1 && !ws[p].stateful
    case Tagged(p) =>
      p < |ws| && next == ws[p := ws[p].(stateful := true)] && K(next) == K(ws) + 1
      && ws[p].index == K(ws) && !ws[p].stateful
    case Same => next == ws
  }

  lemma {:induction false} StepEffect(ws: seq<Worker>, ev: Event) returns (change: Change)
    requires Inv(ws)
    ensures Effect(ws, Step(ws, ev), change)
  {
    match Decision(ws, ev)
    case AddNode =>
      if NameUsed(ws, ev.name) {
        change := Same;
      } else {
        AddEffect(ws, ev);
        change := Added(Min(ev.slot, |ws|),
          Worker(ev.name, |ws|, false, ev.pool.provider, ev.pool.instanceType));
      }
    case DelNode =>
      var p := DeleteEffect(ws, ev);
      change := Removed(p);
    case AddStateful =>
      var p := TagEffect(ws, ev);
      change := Tagged(p);
    case Neutral =>
      change := Same;
  }

  /** Where each worker of the new list was before; |ws| stands for "newly created". */
  function Origin(change: Change, n: nat, i: nat): nat {
    match change
    case Added(p, _) => if i < p then i else if i == p then n else i - 1
    case Removed(p) => if i < p then i else i + 1
    case Tagged(_) => i
    case Same => i
  }

  lemma {:induction false} EffectKeepsPrefix(
      ws: seq<Worker>, next: seq<Worker>, change: Change, i: nat)
    requires Inv(ws) && Effect(ws, next, change) && i < |next|
    ensures 0 <= next[i].index < |next| && (next[i].stateful <==> next[i].index < K(next))
  {
    var h := Origin(change, |ws|, i);
    if h < |ws| {
      assert 0 <= ws[h].index < |ws| && (ws[h].stateful <==> ws[h].index < K(ws));
      if change.Removed? {
        var p := change.at;
        assert ws[p].index != ws[h].index;
      }
      if change.Tagged? && h != change.at {
        assert ws[h].index != ws[change.at].index;
      }
    }
  }

  lemma {:induction false} EffectKeepsDistinct(ws: seq<Worker>, next: seq<Worker>, change: Change)
    requires Inv(ws) && Effect(ws, next, change)
    ensures DistinctNames(next) && DistinctIndices(next)
  {
    match change
    case Added(p, w) => InsertKeepsDistinct(ws, p, w);
    case Removed(p) => RemoveKeepsDistinct(ws, p);
    case Tagged(_) =>
    case Same =>
  }

  lemma {:induction false} StepKeepsInv(ws: seq<Worker>, ev: Event)
    requires Inv(ws)
    ensures Inv(Step(ws, ev))
  {
    var change := StepEffect(ws, ev);
    var next := Step(ws, ev);
    EffectKeepsDistinct(ws, next, change);
    forall i | 0 <= i < |next|
      ensures 0 <= next[i].index < |next| && (next[i].stateful <==> next[i].index < K(next))
    {
      EffectKeepsPrefix(ws, next, change, i);
    }
  }

  lemma {:induction false} EffectKeepsStateful(
      ws: seq<Worker>, next: seq<Worker>, change: Change, w: Worker)
    requires Effect(ws, next, change) && w in ws && w.stateful
    ensures w in next
  {
    var i :| 0 <= i < |ws| && ws[i] == w;
    match change
    case Added(p, _) => assert next[if i < p then i else i + 1] == w;
    case Removed(p) => assert next[if i < p then i else i - 1] == w;
    case Tagged(p) => assert next[i] == w;
    case Same =>
  }

  lemma {:induction false} StepKeepsStateful(ws: seq<Worker>, ev: Event, w: Worker)
    requires Inv(ws) && w in ws && w.stateful
    ensures w in Step(ws, ev)
  {
    var change := StepEffect(ws, ev);
    EffectKeepsStateful(ws, Step(ws, ev), change, w);
  }

  /** The invariant holds in every state of every run that starts from a good list. */
  lemma {:induction false} ReachableInv(states: seq<seq<Worker>>, events: seq<Event>, i: nat)
    requires Run(states, events) && Inv(states[0]) && i < |states|
    ensures Inv(states[i])
  {
    if i > 0 {
      ReachableInv(states, events, i - 1);
      assert states[i - 1 + 1] == Step(states[i - 1], events[i - 1]);
      StepKeepsInv(states[i - 1], events[i - 1]);
    }
  }

  /** Spelled out: the indices in use are 0..n-1 and nothing else, and tagging follows the order. */
  lemma {:induction false} ReachableIndices(
      states: seq<seq<Worker>>, events: seq<Event>, i: nat, index: int)
    requires Run(states, events) && states[0] == [] && i < |states|
    ensures Used(states[i], index) <==> 0 <= index < |states[i]|
    ensures forall h :: 0 <= h < |states[i]| ==>
      (states[i][h].stateful <==> states[i][h].index < K(states[i]))
  {
    ReachableInv(states, events, i);
    if 0 <= index < |states[i]| {
      Surjective(states[i], index);
    }
  }

  lemma {:induction false} RunKeepsStateful(
      states: seq<seq<Worker>>, events: seq<Event>, i: nat, w: Worker)
    requires Run(states, events) && Inv(states[0])
    requires i < |events| && w in states[i] && w.stateful
    ensures w in states[i + 1]
  {
    ReachableInv(states, events, i);
    StepKeepsStateful(states[i], events[i], w);
  }

  /** No run ever deletes a stateful worker: once tagged, a worker is in every later list. */
  lemma {:induction false} StatefulNeverDeleted(
      states: seq<seq<Worker>>, events: seq<Event>, i: nat, j: nat, w: Worker)
    requires Run(states, events) && Inv(states[0])
    requires i <= j < |states| && w in states[i] && w.stateful
    ensures w in states[j]
    decreases j
  {
    if i < j {
      StatefulNeverDeleted(states, events, i, j - 1, w);
      RunKeepsStateful(states, events, j - 1, w);
    }
  }

  // ----- Index freshness without the prefix invariant

  ghost predicate RemovesSome(before: seq<Worker>, after: seq<Worker>) {
    exists p :: 0 <= p < |before| && after == RemoveAt(before, p)
  }

  lemma {:induction false} IndicesStayDistinct(states: seq<seq<Worker>>, events: seq<Event>, i: nat)
    requires |states| == |events| + 1 && i < |states|
    requires DistinctIndices(states[0]) && DistinctNames(states[0])
    requires forall h {:trigger events[h]} :: 0 <= h < |events| ==>
      states[h + 1] == Step(states[h], events[h]) || RemovesSome(states[h], states[h + 1])
    ensures DistinctIndices(states[i]) && DistinctNames(states[i])
  {
    if i > 0 {
      IndicesStayDistinct(states, events, i - 1);
      assert states[i - 1 + 1] == states[i];
      if states[i] == Step(states[i - 1], events[i - 1]) {
        StepKeepsDistinct(states[i - 1], events[i - 1]);
      } else {
        var p :| 0 <= p < |states[i - 1]| && states[i] == RemoveAt(states[i - 1], p);
        RemoveKeepsDistinct(states[i - 1], p);
      }
    }
  }

  // ----- Size safety

  /** How far n lies outside the pool's bounds. */
  function Distance(pool: PoolSpec, n: int): int {
    Max(0, pool.minNode - n) + Max(0, n - pool.maxNode)
  }

  ghost predicate ActsAlone(pool: PoolSpec, events: seq<Event>, i: nat, j: nat)
    requires j <= |events|
  {
    forall h :: i <= h < j ==> events[h].pool == pool
  }

  lemma {:induction false} StepSize(ws: seq<Worker>, ev: Event)
    requires Inv(ws)
    ensures Distance(ev.pool, |Step(ws, ev)|) <= Distance(ev.pool, |ws|)
    ensures K(Step(ws, ev)) >= K(ws)
    ensures ws != [] ==> Step(ws, ev) != []
    ensures |Step(ws, ev)| < |ws| ==> K(ws) >= 1
  {
    CountIsK(ws, ev.catalogue);
    match Decision(ws, ev)
    case AddNode =>
      if !NameUsed(ws, ev.name) {
        AddEffect(ws, ev);
      }
    case DelNode => var p := DeleteEffect(ws, ev);
    case AddStateful => var p := TagEffect(ws, ev);
    case Neutral =>
  }

  lemma {:induction false} RunStepSize(states: seq<seq<Worker>>, events: seq<Event>, i: nat)
    requires Run(states, events) && Inv(states[0]) && i < |events|
    ensures K(states[i + 1]) >= K(states[i])
    ensures states[i] != [] ==> states[i + 1] != []
    ensures Distance(events[i].pool, |states[i + 1]|) <= Distance(events[i].pool, |states[i]|)
  {
    ReachableInv(states, events, i);
    StepSize(states[i], events[i]);
  }

  /** Over a run the stateful count never falls and an edge once non-empty is never emptied, even with Min = 0. */
  lemma {:induction false} SizeSafety(states: seq<seq<Worker>>, events: seq<Event>, i: nat, j: nat)
    requires Run(states, events) && Inv(states[0]) && i <= j < |states|
    ensures K(states[j]) >= K(states[i])
    ensures states[i] != [] ==> states[j] != []
    decreases j
  {
    if i < j {
      SizeSafety(states, events, i, j - 1);
      RunStepSize(states, events, j - 1);
    }
  }

  /** While one pool alone acts, its distance from [Min, Max] never grows. */
  lemma {:induction false} DistanceNeverGrows(
      states: seq<seq<Worker>>, events: seq<Event>, i: nat, j: nat, pool: PoolSpec)
    requires Run(states, events) && Inv(states[0]) && i <= j < |states|
    requires ActsAlone(pool, events, i, j)
    ensures Distance(pool, |states[j]|) <= Distance(pool, |states[i]|)
    decreases j
  {
    if i < j {
      DistanceNeverGrows(states, events, i, j - 1, pool);
      RunStepSize(states, events, j - 1);
      assert events[j - 1].pool == pool;
    }
  }
}
