/** What each decision means for capacity, without percentages, divisions or sentinels. */
module PoolMeaning {
  import opened Arithmetic
  import opened Rcalculate
  import opened NodePool
  import opened PoolSafety
  import opened PoolCapacity

  // ----- Capacities, from the catalogue

  /** What a worker brings along: the memory listed for its type on aws, and nothing elsewhere. */
  function Units(w: Worker, catalogue: Catalogue): nat {
    if w.provider == "aws" && w.instanceType in catalogue then catalogue[w.instanceType].memory else 0
  }

  function AllUnits(ws: seq<Worker>, catalogue: Catalogue): nat {
    if ws == [] then 0 else AllUnits(ws[..|ws| - 1], catalogue) + Units(ws[|ws| - 1], catalogue)
  }

  function StatefulUnits(ws: seq<Worker>, catalogue: Catalogue): nat {
    if ws == [] then 0
    else
      var last := ws[|ws| - 1];
      StatefulUnits(ws[..|ws| - 1], catalogue) + if last.stateful then Units(last, catalogue) else 0
  }

  /** Sizes are those of the catalogue, in thousandths. */
  lemma SizeFromCatalogue(w: Worker, catalogue: Catalogue)
    ensures ResourceSize(w, catalogue).memory == 1000 * Units(w, catalogue)
    ensures w.provider == "aws" && w.instanceType in catalogue ==>
      ResourceSize(w, catalogue).cpu == 1000 * catalogue[w.instanceType].cpu
    ensures w.provider != "aws" || w.instanceType !in catalogue ==> ResourceSize(w, catalogue).cpu == 0
  {
  }

  lemma {:induction false} MemoryInUnits(ws: seq<Worker>, catalogue: Catalogue)
    ensures TotalMemory(ws, catalogue) == 1000 * AllUnits(ws, catalogue)
  {
    if ws != [] {
      var init, last := ws[..|ws| - 1], ws[|ws| - 1];
      MemoryInUnits(init, catalogue);
      MemoryConcat(init, [last], catalogue);
      MemoryHead([last], catalogue);
      assert ws == init + [last];
    }
  }

  lemma {:induction false} StatefulConcat(a: seq<Worker>, b: seq<Worker>, catalogue: Catalogue)
    ensures StatefulMemory(a + b, catalogue) == StatefulMemory(a, catalogue) + StatefulMemory(b, catalogue)
  {
    if a == [] {
      assert a + b == b;
    } else {
      StatefulConcat(a[1..], b, catalogue);
      assert (a + b)[1..] == a[1..] + b;
    }
  }

  lemma {:induction false} StatefulInUnits(ws: seq<Worker>, catalogue: Catalogue)
    ensures StatefulMemory(ws, catalogue) == 1000 * StatefulUnits(ws, catalogue)
  {
    if ws != [] {
      var init, last := ws[..|ws| - 1], ws[|ws| - 1];
      StatefulInUnits(init, catalogue);
      StatefulConcat(init, [last], catalogue);
      assert ws == init + [last];
    }
  }

  /** The number of stateful workers, counted by position. */
  function Stateful(ws: seq<Worker>): set<int> {
    set i | 0 <= i < |ws| && ws[i].stateful
  }

  lemma {:induction false} StatefulNext(ws: seq<Worker>)
    requires ws != []
    ensures var n := |ws| - 1;
      Stateful(ws) == Stateful(ws[..n]) + (if ws[n].stateful then {n} else {}) && n !in Stateful(ws[..n])
  {
    var n := |ws| - 1;
    assert forall i :: 0 <= i < n ==> ws[..n][i] == ws[i];
  }

  lemma {:induction false} KIsCount(ws: seq<Worker>)
    ensures K(ws) == |Stateful(ws)|
  {
    if ws != [] {
      var init, last := ws[..|ws| - 1], ws[|ws| - 1];
      KIsCount(init);
      KConcat(init, [last]);
      assert ws == init + [last];
      StatefulNext(ws);
    }
  }

  function StatefulMemory(ws: seq<Worker>, catalogue: Catalogue): nat {
    if ws == [] then 0
    else (if ws[0].stateful then Memory(ws[0], catalogue) else 0) + StatefulMemory(ws[1..], catalogue)
  }

  lemma {:induction false} StatefulTotal(ws: seq<Worker>, catalogue: Catalogue)
    ensures Total(OnlyStateful(NodesOf(ws, catalogue))).memory == StatefulMemory(ws, catalogue)
  {
    if ws != [] {
      StatefulTotal(ws[1..], catalogue);
      var nodes := NodesOf(ws, catalogue);
      assert nodes[1..] == NodesOf(ws[1..], catalogue);
      assert nodes[0].size.memory == Memory(ws[0], catalogue);
      TotalConcat(if nodes[0].stateful then [nodes[0]] else [], OnlyStateful(nodes[1..]));
      assert Total([nodes[0]]) == nodes[0].size by {
        assert [nodes[0]][1..] == [];
      }
    }
  }

  // ----- Marks and decisions

  /** The load takes up four fifths of the memory or more. */
  predicate TakesFourFifths(used: nat, units: nat) {
    used > 0 && 5 * used >= 4000 * units
  }

  /** The load takes up less than three quarters of the memory. */
  predicate LeavesQuarter(used: nat, units: nat) {
    used == 0 || 4 * used < 3000 * units
  }

  /** The stateful load takes up four fifths of the stateful memory; without any, all load counts. */
  predicate StatefulShort(ev: Event, units: nat) {
    ev.statefulUsed > 0 && if units == 0 then ev.totalUsed > 0 else 5 * ev.statefulUsed >= 4000 * units
  }

  lemma {:induction false} FilledMeaning(ev: Event, units: nat)
    ensures Short(LoadOf(ev), 1000 * units) <==> TakesFourFifths(ev.totalUsed, units)
    ensures Slack(LoadOf(ev), 1000 * units) <==> LeavesQuarter(ev.totalUsed, units)
  {
    if units > 0 {
      QuotientReaches(ev.totalUsed * 100, 1000 * units, 80);
      QuotientReaches(ev.totalUsed * 100, 1000 * units, 75);
    }
  }

  lemma {:induction false} StatefulFilledMeaning(ws: seq<Worker>, ev: Event)
    ensures StatefulFilled(LoadOf(ev), NodesOf(ws, ev.catalogue)) >= THRESHOLD <==>
            StatefulShort(ev, StatefulUnits(ws, ev.catalogue))
  {
    StatefulTotal(ws, ev.catalogue);
    StatefulInUnits(ws, ev.catalogue);
    var memory := StatefulMemory(ws, ev.catalogue);
    if memory > 0 {
      QuotientReaches(ev.statefulUsed * 100, memory, 80);
    }
  }

  /** The memory left when the first listed worker is disregarded. */
  function RestUnits(ws: seq<Worker>, catalogue: Catalogue): int {
    AllUnits(ws, catalogue) - if ws == [] then 0 else Units(ws[0], catalogue)
  }

  lemma {:induction false} RestInUnits(ws: seq<Worker>, catalogue: Catalogue)
    ensures RestUnits(ws, catalogue) >= 0
    ensures TotalMemory(ws, catalogue) - FirstMemory(ws, catalogue) == 1000 * RestUnits(ws, catalogue)
  {
    MemoryInUnits(ws, catalogue);
    MemoryBounds(ws, catalogue);
  }

  /**
   * The decision for any worker list and any load: add below Min, or when short and below Max; else
   * tag the first worker, or another when the stateful ones are short; else delete when there is
   * slack without the first listed worker and an untagged one to give up; else nothing.
   */
  lemma {:induction false} DecisionExactly(ws: seq<Worker>, ev: Event)
    ensures RestUnits(ws, ev.catalogue) >= 0
    ensures var n, k, cat := |ws|, |Stateful(ws)|, ev.catalogue;
            var adds := n < ev.pool.maxNode
              && (n < ev.pool.minNode || TakesFourFifths(ev.totalUsed, AllUnits(ws, cat)));
            var tags := k < n && (k == 0 || StatefulShort(ev, StatefulUnits(ws, cat)));
            var deletes := n > ev.pool.minNode && k < n
              && LeavesQuarter(ev.totalUsed, RestUnits(ws, cat));
      && (Decision(ws, ev) == AddNode <==> adds)
      && (Decision(ws, ev) == AddStateful <==> !adds && tags)
      && (Decision(ws, ev) == DelNode <==> !adds && !tags && deletes)
      && (Decision(ws, ev) == Neutral <==> !adds && !tags && !deletes)
  {
    CountIsK(ws, ev.catalogue);
    KIsCount(ws);
    MemoryInUnits(ws, ev.catalogue);
    RestInUnits(ws, ev.catalogue);
    FilledMeaning(ev, AllUnits(ws, ev.catalogue));
    FilledMeaning(ev, RestUnits(ws, ev.catalogue));
    StatefulFilledMeaning(ws, ev);
    GuardsByCapacity(ws, ev);
  }

  /** The three guards over capacities. */
  lemma {:induction false} GuardsByCapacity(ws: seq<Worker>, ev: Event)
    ensures var load, nodes := LoadOf(ev), NodesOf(ws, ev.catalogue);
      && (TotalFilled(load, nodes) >= THRESHOLD <==> Short(load, TotalMemory(ws, ev.catalogue)))
      && (FilledByAssumingLess(load, nodes) < THRESHOLD - 5 <==>
          Slack(load, TotalMemory(ws, ev.catalogue) - FirstMemory(ws, ev.catalogue)))
  {
    if ws != [] {
      assert NodesOf(ws, ev.catalogue)[0].size.memory == Memory(ws[0], ev.catalogue);
    }
  }

  lemma {:induction false} EqualUnits(ws: seq<Worker>, catalogue: Catalogue, m: nat)
    requires forall w :: w in ws ==> Units(w, catalogue) == m
    ensures AllUnits(ws, catalogue) == m * |ws|
  {
    if ws != [] {
      EqualUnits(ws[..|ws| - 1], catalogue, m);
      assert ws[|ws| - 1] in ws;
      assert m * |ws| == m * (|ws| - 1) + m;
    }
  }

  /** For n aws workers of types listed with m units: a node is added exactly when the load reaches 80%. */
  lemma {:induction false} EqualNodesAdd(ws: seq<Worker>, ev: Event, m: nat)
    requires ev.pool.minNode <= |ws| < ev.pool.maxNode
    requires forall w :: w in ws ==>
      w.provider == "aws" && w.instanceType in ev.catalogue && ev.catalogue[w.instanceType].memory == m
    ensures Decision(ws, ev) == AddNode <==> ev.totalUsed > 0 && 5 * ev.totalUsed >= 4000 * (m * |ws|)
  {
    DecisionExactly(ws, ev);
    EqualUnits(ws, ev.catalogue, m);
  }

  /** At any threshold and buffer: the percentages, and the marks they are held against. */
  lemma {:induction false} DecideAnyThreshold(load: Load, nodes: seq<Node>)
    ensures var n, k := |nodes|, CountStateful(nodes);
            var whole, held := Total(nodes).memory, Total(OnlyStateful(nodes)).memory;
            var less := if n == 0 then 0 else whole - nodes[0].size.memory;
            var percent := (memory: int) =>
              if load.totalUsed == 0 then 0 else if memory == 0 then 200
              else TruncDiv((load.totalUsed + load.buffer) * 100, memory);
            var stateful :=
              if load.statefulUsed == 0 then 0
              else if held == 0 then if load.totalUsed > 0 then 200 else 0
              else TruncDiv(load.statefulUsed * 100, held);
            var adds := n < load.maxNode && (n < load.minNode || percent(whole) >= load.threshold);
            var tags := k < n && (k == 0 || stateful >= load.threshold);
            var deletes := n > load.minNode && k < n && percent(less) < load.threshold - 5;
      && (Decide(load, nodes) == AddNode <==> adds)
      && (Decide(load, nodes) == AddStateful <==> !adds && tags)
      && (Decide(load, nodes) == DelNode <==> !adds && !tags && deletes)
  {
  }

  /** What is summed: each node's memory and cpu once, and of the stateful ones alone. */
  lemma {:induction false} SumsByNode(nodes: seq<Node>, node: Node)
    ensures Total([]) == Size(0, 0)
    ensures Total(nodes + [node]) == Size(Total(nodes).memory + node.size.memory, Total(nodes).cpu + node.size.cpu)
    ensures OnlyStateful([]) == []
    ensures OnlyStateful(nodes + [node]) == OnlyStateful(nodes) + if node.stateful then [node] else []
    ensures CountStateful([]) == 0
    ensures CountStateful(nodes + [node]) == CountStateful(nodes) + if node.stateful then 1 else 0
  {
    TotalAppend(nodes, node);
    StatefulAppend(nodes, node);
    CountAppend(nodes, node);
  }
}
