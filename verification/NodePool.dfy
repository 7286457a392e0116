/** `reconWorkerNodes` of `controllers/infra/nodepool_controller.go`: carrying a decision out. */
module NodePool {
  import opened Arithmetic
  import opened Rcalculate

  datatype Worker = Worker(
    name: string, index: int, stateful: bool, provider: string, instanceType: string)

  datatype PoolSpec = PoolSpec(minNode: int, maxNode: int, provider: string, instanceType: string)

  datatype Instance = Instance(memory: nat, cpu: nat)

  /** The `aws` section of the instance-details config map; a type not listed reads as zero. */
  type Catalogue = map<string, Instance>

  /**
   * Everything one reconcile reads besides the worker list: the pool, the catalogue, the usage
   * sums, the UUID drawn for a new worker and the place that name takes in the API's list order.
   */
  datatype Event = Event(
    pool: PoolSpec, catalogue: Catalogue, totalUsed: nat, statefulUsed: nat, name: string, slot: nat)

  const THRESHOLD := 80

  function ResourceSize(w: Worker, catalogue: Catalogue): (size: Size)
    ensures size.memory >= 0 && size.memory % 1000 == 0
  {
    if w.provider == "aws" && w.instanceType in catalogue then
      var listed := catalogue[w.instanceType];
      Size(listed.memory * 1000, listed.cpu * 1000)
    else Size(0, 0)
  }

  function NodesOf(ws: seq<Worker>, catalogue: Catalogue): (nodes: seq<Node>)
    ensures |nodes| == |ws|
  {
    if ws == [] then []
    else [Node(ws[0].name, ws[0].stateful, ResourceSize(ws[0], catalogue))] + NodesOf(ws[1..], catalogue)
  }

  function LoadOf(ev: Event): Load {
    Load(ev.pool.minNode, ev.pool.maxNode, ev.statefulUsed, ev.totalUsed, THRESHOLD, 0)
  }

  function Decision(ws: seq<Worker>, ev: Event): Action {
    Decide(LoadOf(ev), NodesOf(ws, ev.catalogue))
  }

  /** Number of stateful workers. */
  function K(ws: seq<Worker>): (k: nat)
    ensures k <= |ws|
  {
    if ws == [] then 0 else (if ws[0].stateful then 1 else 0) + K(ws[1..])
  }

  // ----- The three searches over the worker list

  predicate Used(ws: seq<Worker>, index: int) {
    exists i :: 0 <= i < |ws| && ws[i].index == index
  }

  function FreshFrom(ws: seq<Worker>, i: nat): int
    decreases |ws| - i
  {
    if i >= |ws| then |ws| else if Used(ws, i) then FreshFrom(ws, i + 1) else i
  }

  function LastIndex(ws: seq<Worker>): int {
    if ws == [] then 0
    else Max(LastIndex(ws[..|ws| - 1]), ws[|ws| - 1].index)
  }

  /** Position of the first worker with this index; the length of the list if there is none. */
  function Position(ws: seq<Worker>, index: int): (p: nat)
    ensures p <= |ws|
    ensures p < |ws| ==> ws[p].index == index
    ensures forall i :: 0 <= i < p ==> ws[i].index != index
  {
    if ws == [] then 0
    else if ws[0].index == index then 0
    else 1 + Position(ws[1..], index)
  }

  method FreshIndex(ws: seq<Worker>) returns (index: int)
    ensures index == FreshFrom(ws, 0)
  {
    var ind := |ws|;
    for i := 0 to ind
      invariant FreshFrom(ws, 0) == FreshFrom(ws, i)
    {
      var found := false;
      for j := 0 to |ws|
        invariant !found
        invariant forall h :: 0 <= h < j ==> ws[h].index != i
      {
        if i == ws[j].index {
          found := true;
          break;
        }
      }
      if !found {
        return i;
      }
    }
    return ind;
  }

  method FindLast(ws: seq<Worker>) returns (last: int)
    ensures last == LastIndex(ws)
  {
    last := 0;
    for j := 0 to |ws|
      invariant last == LastIndex(ws[..j])
    {
      assert ws[..j + 1][..j] == ws[..j];
      if last < ws[j].index {
        last := ws[j].index;
      }
    }
    assert ws[..|ws|] == ws;
  }

  method FindPosition(ws: seq<Worker>, index: int) returns (p: nat)
    ensures p == Position(ws, index)
  {
    for j := 0 to |ws|
      invariant forall i :: 0 <= i < j ==> ws[i].index != index
    {
      if ws[j].index == index {
        return j;
      }
    }
    return |ws|;
  }

  // ----- The API server's list of WorkerNodes carrying the edge's label

  predicate NameUsed(ws: seq<Worker>, name: string) {
    exists i :: 0 <= i < |ws| && ws[i].name == name
  }

  function Inserted(ws: seq<Worker>, slot: nat, w: Worker): seq<Worker> {
    var p := Min(slot, |ws|);
    ws[..p] + [w] + ws[p..]
  }

  function RemoveNamed(ws: seq<Worker>, name: string): seq<Worker> {
    if ws == [] then []
    else (if ws[0].name == name then [] else [ws[0]]) + RemoveNamed(ws[1..], name)
  }

  function TagNamed(ws: seq<Worker>, name: string): (r: seq<Worker>)
    ensures |r| == |ws|
    ensures forall i :: 0 <= i < |ws| ==>
      r[i] == if ws[i].name == name then ws[i].(stateful := true) else ws[i]
  {
    if ws == [] then []
    else [if ws[0].name == name then ws[0].(stateful := true) else ws[0]] + TagNamed(ws[1..], name)
  }

  function NewWorker(ws: seq<Worker>, ev: Event): Worker {
    Worker(ev.name, FreshFrom(ws, 0), false, ev.pool.provider, ev.pool.instanceType)
  }

  /** The worker list after one reconcile. */
  function Step(ws: seq<Worker>, ev: Event): seq<Worker> {
    match Decision(ws, ev)
    case AddNode =>
      if NameUsed(ws, ev.name) then ws else Inserted(ws, ev.slot, NewWorker(ws, ev))
    case DelNode =>
      var p := Position(ws, LastIndex(ws));
      if p < |ws| then RemoveNamed(ws, ws[p].name) else ws
    case AddStateful =>
      var p := Position(ws, K(ws));
      if p < |ws| then TagNamed(ws, ws[p].name) else ws
    case Neutral => ws
  }

  lemma CountIsK(ws: seq<Worker>, catalogue: Catalogue)
    ensures CountStateful(NodesOf(ws, catalogue)) == K(ws)
  {
  }

  class WorkerStore {
    var items: seq<Worker>

    constructor ()
      ensures items == []
    {
      items := [];
    }

    /** Refused when the name is taken, as the API server does. */
    method Create(w: Worker, slot: nat) returns (ok: bool)
      modifies this
      ensures ok == !NameUsed(old(items), w.name)
      ensures items == if ok then Inserted(old(items), slot, w) else old(items)
    {
      ok := !NameUsed(items, w.name);
      if ok {
        items := Inserted(items, slot, w);
      }
    }

    method Delete(name: string)
      modifies this
      ensures items == RemoveNamed(old(items), name)
    {
      items := RemoveNamed(items, name);
    }

    method SetStateful(name: string)
      modifies this
      ensures items == TagNamed(old(items), name)
    {
      items := TagNamed(items, name);
    }

    method ReconWorkerNodes(ev: Event) returns (action: Action)
      modifies this
      ensures action == Decision(old(items), ev)
      ensures items == Step(old(items), ev)
    {
      var ws := items;
      CountIsK(ws, ev.catalogue);
      var input := new Input(LoadOf(ev), NodesOf(ws, ev.catalogue));
      action := input.Calculate();
      match action {
        case AddNode =>
          var index := FreshIndex(ws);
          var _ := Create(
            Worker(ev.name, index, false, ev.pool.provider, ev.pool.instanceType), ev.slot);
        case DelNode =>
          if |ws| > 0 {
            var last := FindLast(ws);
            var p := FindPosition(ws, last);
            if p < |ws| {
              Delete(ws[p].name);
            }
          }
        case AddStateful =>
          var count := input.GetStatefulCount();
          var p := FindPosition(ws, count);
          if p < |ws| {
            SetStateful(ws[p].name);
          }
        case Neutral =>
      }
    }
  }
}
