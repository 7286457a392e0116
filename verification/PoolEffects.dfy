/** What each decision does to any worker list at all, gaps, repeated and negative indices included. */
module PoolEffects {
  import opened Arithmetic
  import opened FiniteSets
  import opened Rcalculate
  import opened NodePool
  import opened PoolSafety
  import opened PoolMeaning

  predicate Taken(ws: seq<Worker>, index: int) {
    exists i :: 0 <= i < |ws| && ws[i].index == index
  }

  /** The index is a natural number no listed worker has, the least such. */
  ghost predicate LeastFree(ws: seq<Worker>, index: int) {
    index >= 0 && !Taken(ws, index) && forall x :: 0 <= x < index ==> Taken(ws, x)
  }

  /** ADD_NODE puts one untagged worker of the pool's own kind in the list, unless its name is taken. */
  lemma {:induction false} AddOnAnyList(ws: seq<Worker>, ev: Event)
    requires Decision(ws, ev) == AddNode
    ensures var next := Step(ws, ev);
            var p := if ev.slot < |ws| then ev.slot else |ws|;
      if exists i :: 0 <= i < |ws| && ws[i].name == ev.name then next == ws
      else
        && |next| == |ws| + 1 && next[..p] == ws[..p] && next[p + 1..] == ws[p..]
        && next[p].name == ev.name && !next[p].stateful
        && next[p].provider == ev.pool.provider && next[p].instanceType == ev.pool.instanceType
        && LeastFree(ws, next[p].index) && next[p].index <= |ws|
  {
    FreshIndexIsLeastUnused(ws);
    assert NameUsed(ws, ev.name) <==> exists i :: 0 <= i < |ws| && ws[i].name == ev.name;
    var index := FreshFrom(ws, 0);
    assert forall x :: Taken(ws, x) <==> Used(ws, x);
    assert LeastFree(ws, index);
  }

  /** No worker has a higher index, and none before it has the same. */
  ghost predicate FirstHighest(ws: seq<Worker>, p: int) {
    && 0 <= p < |ws|
    && (forall i :: 0 <= i < |ws| ==> ws[i].index <= ws[p].index)
    && forall i :: 0 <= i < p ==> ws[i].index < ws[p].index
  }

  /** DEL_NODE removes exactly the first worker of the highest index; with none from 0 up it removes nothing. */
  lemma {:induction false} DeleteOnAnyList(ws: seq<Worker>, ev: Event)
    requires Decision(ws, ev) == DelNode && DistinctNames(ws)
    ensures forall p :: FirstHighest(ws, p) && ws[p].index >= 0 ==> Step(ws, ev) == ws[..p] + ws[p + 1..]
    ensures (forall i :: 0 <= i < |ws| ==> ws[i].index < 0) ==> Step(ws, ev) == ws
    ensures exists p :: FirstHighest(ws, p)
  {
    LastIndexIsMax(ws);
    var last := LastIndex(ws);
    var v := Position(ws, last);
    if v < |ws| {
      RemoveNamedSplit(ws, v);
    }
    forall p | FirstHighest(ws, p) && ws[p].index >= 0 ensures Step(ws, ev) == ws[..p] + ws[p + 1..] {
      assert last == 0 || Used(ws, last);
      assert v == p;
    }
    var p := Highest(ws);
  }

  lemma {:induction false} Highest(ws: seq<Worker>) returns (p: nat)
    requires ws != []
    ensures FirstHighest(ws, p)
  {
    if |ws| == 1 {
      p := 0;
    } else {
      p := Highest(ws[..|ws| - 1]);
      assert forall i :: 0 <= i < |ws| - 1 ==> ws[..|ws| - 1][i] == ws[i];
      if ws[|ws| - 1].index > ws[p].index {
        p := |ws| - 1;
      }
    }
  }

  /** The first worker of this index. */
  ghost predicate FirstOf(ws: seq<Worker>, index: int, p: int) {
    0 <= p < |ws| && ws[p].index == index && forall i :: 0 <= i < p ==> ws[i].index != index
  }

  /** ADD_STATEFUL tags exactly the first worker whose index is the number of stateful ones, if there is one. */
  lemma {:induction false} TagOnAnyList(ws: seq<Worker>, ev: Event)
    requires Decision(ws, ev) == AddStateful && DistinctNames(ws)
    ensures forall p :: FirstOf(ws, |Stateful(ws)|, p) ==> Step(ws, ev) == ws[p := ws[p].(stateful := true)]
    ensures (forall i :: 0 <= i < |ws| ==> ws[i].index != |Stateful(ws)|) ==> Step(ws, ev) == ws
  {
    KIsCount(ws);
    var v := Position(ws, K(ws));
    if v < |ws| {
      TagNamedAt(ws, v);
    }
    forall p | FirstOf(ws, |Stateful(ws)|, p) ensures Step(ws, ev) == ws[p := ws[p].(stateful := true)] {
      assert v == p;
    }
  }

  lemma {:induction false} NeutralOnAnyList(ws: seq<Worker>, ev: Event)
    requires Decision(ws, ev) == Neutral
    ensures Step(ws, ev) == ws
  {
  }
}
