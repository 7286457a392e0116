/** Worker lists seen through their memory: what decisions read, and what they change. */
module PoolCapacity {
  import opened Arithmetic
  import opened Rcalculate
  import opened NodePool
  import opened PoolSafety

  function Memory(w: Worker, catalogue: Catalogue): (m: nat)
    ensures m % 1000 == 0
  {
    ResourceSize(w, catalogue).memory
  }

  function TotalMemory(ws: seq<Worker>, catalogue: Catalogue): int {
    Total(NodesOf(ws, catalogue)).memory
  }

  function PoolMemory(ev: Event): nat {
    Memory(Worker(ev.name, 0, false, ev.pool.provider, ev.pool.instanceType), ev.catalogue)
  }

  // ----- The two marks

  /** So full that a node is wanted. */
  predicate Short(load: Load, memory: int) {
    FilledOver(load, memory) >= THRESHOLD
  }

  /** So empty that a node can go. */
  predicate Slack(load: Load, memory: int) {
    FilledOver(load, memory) < THRESHOLD - 5
  }

  /** Passing a mark is monotone in the memory, through both sentinels; the percentage itself is not. */
  lemma {:induction false} MarksMonotone(load: Load, small: nat, large: nat)
    requires small <= large && load.buffer == 0
    ensures Short(load, large) ==> Short(load, small)
    ensures Slack(load, small) ==> Slack(load, large)
  {
    if small > 0 {
      QuotientReaches(load.totalUsed * 100, small, 75);
      QuotientReaches(load.totalUsed * 100, large, 75);
      QuotientReaches(load.totalUsed * 100, small, 80);
      QuotientReaches(load.totalUsed * 100, large, 80);
    }
  }

  // ----- Capacities before and after a change

  function FirstMemory(ws: seq<Worker>, catalogue: Catalogue): nat {
    if ws == [] then 0 else Memory(ws[0], catalogue)
  }

  lemma {:induction false} MemoryHead(ws: seq<Worker>, catalogue: Catalogue)
    requires ws != []
    ensures TotalMemory(ws, catalogue) == Memory(ws[0], catalogue) + TotalMemory(ws[1..], catalogue)
  {
    assert NodesOf(ws, catalogue)[1..] == NodesOf(ws[1..], catalogue);
  }

  lemma {:induction false} MemoryConcat(a: seq<Worker>, b: seq<Worker>, catalogue: Catalogue)
    ensures TotalMemory(a + b, catalogue) == TotalMemory(a, catalogue) + TotalMemory(b, catalogue)
  {
    if a == [] {
      assert a + b == b;
    } else {
      MemoryConcat(a[1..], b, catalogue);
      assert (a + b)[1..] == a[1..] + b;
      MemoryHead(a, catalogue);
      MemoryHead(a + b, catalogue);
    }
  }

  lemma {:induction false} MemoryInsert(ws: seq<Worker>, p: nat, w: Worker, catalogue: Catalogue)
    requires p <= |ws|
    ensures TotalMemory(InsertAt(ws, p, w), catalogue) == TotalMemory(ws, catalogue) + Memory(w, catalogue)
  {
    MemoryConcat(ws[..p] + [w], ws[p..], catalogue);
    MemoryConcat(ws[..p], [w], catalogue);
    MemoryConcat(ws[..p], ws[p..], catalogue);
    assert ws == ws[..p] + ws[p..];
    MemoryHead([w], catalogue);
  }

  lemma {:induction false} MemoryRemove(ws: seq<Worker>, p: nat, catalogue: Catalogue)
    requires p < |ws|
    ensures TotalMemory(RemoveAt(ws, p), catalogue) == TotalMemory(ws, catalogue) - Memory(ws[p], catalogue)
  {
    assert ws == InsertAt(RemoveAt(ws, p), p, ws[p]);
    MemoryInsert(RemoveAt(ws, p), p, ws[p], catalogue);
  }

  lemma {:induction false} MemoryBounds(ws: seq<Worker>, catalogue: Catalogue)
    ensures 0 <= FirstMemory(ws, catalogue) <= TotalMemory(ws, catalogue)
    ensures TotalMemory(ws, catalogue) % 1000 == 0
  {
    if ws != [] {
      MemoryBounds(ws[1..], catalogue);
    }
  }

  lemma {:induction false} MemoryTag(ws: seq<Worker>, p: nat, catalogue: Catalogue)
    requires p < |ws|
    ensures var tagged := ws[p := ws[p].(stateful := true)];
      TotalMemory(tagged, catalogue) == TotalMemory(ws, catalogue)
      && FirstMemory(tagged, catalogue) == FirstMemory(ws, catalogue)
  {
    var w := ws[p].(stateful := true);
    assert ws[p := w] == InsertAt(RemoveAt(ws, p), p, w);
    MemoryRemove(ws, p, catalogue);
    MemoryInsert(RemoveAt(ws, p), p, w, catalogue);
  }

  // ----- A decision, seen only through counts and capacities

  /** `less` is the memory without the first listed worker. */
  datatype Obs = Obs(n: nat, k: nat, whole: nat, less: nat, action: Action)

  function Seen(ws: seq<Worker>, ev: Event): Obs {
    MemoryBounds(ws, ev.catalogue);
    Obs(|ws|, K(ws), TotalMemory(ws, ev.catalogue),
        TotalMemory(ws, ev.catalogue) - FirstMemory(ws, ev.catalogue), Decision(ws, ev))
  }

  predicate WantsMore(load: Load, o: Obs) {
    o.n < load.maxNode && (o.n < load.minNode || Short(load, o.whole))
  }

  predicate WantsFewer(load: Load, o: Obs) {
    o.n > load.minNode && 0 < o.k < o.n && Slack(load, o.less)
  }

  /** What a decision says about the state it was taken in. */
  predicate Sensible(load: Load, o: Obs) {
    && o.k <= o.n
    && (o.action == AddNode <==> WantsMore(load, o))
    && (o.action == DelNode ==> WantsFewer(load, o))
    && (o.action == AddStateful ==> o.k < o.n)
  }

  lemma {:induction false} SeenSensible(ws: seq<Worker>, ev: Event)
    ensures Sensible(LoadOf(ev), Seen(ws, ev))
    ensures ev.statefulUsed == 0 && WantsFewer(LoadOf(ev), Seen(ws, ev)) && !WantsMore(LoadOf(ev), Seen(ws, ev))
      ==> Decision(ws, ev) == DelNode
  {
    CountIsK(ws, ev.catalogue);
    if ws != [] {
      assert NodesOf(ws, ev.catalogue)[0].size.memory == Memory(ws[0], ev.catalogue);
    }
  }

  // ----- The workers a decision adds and removes

  function Enlarged(ws: seq<Worker>, ev: Event): seq<Worker> {
    InsertAt(ws, Min(ev.slot, |ws|),
             Worker(ev.name, |ws|, false, ev.pool.provider, ev.pool.instanceType))
  }

  /** Position of the worker a DEL_NODE removes: the one with the highest index. */
  function Victim(ws: seq<Worker>): nat {
    Position(ws, |ws| - 1)
  }

  lemma {:induction false} VictimIsDeleted(ws: seq<Worker>, ev: Event)
    requires Inv(ws) && Decision(ws, ev) == DelNode
    ensures Victim(ws) < |ws| && Step(ws, ev) == RemoveAt(ws, Victim(ws))
  {
    var p := DeleteEffect(ws, ev);
    LastIndexWhenDense(ws);
    Surjective(ws, |ws| - 1);
    assert Position(ws, |ws| - 1) == p;
  }
}
