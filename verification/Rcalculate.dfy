/** The scaling decision of `lib/rcalculate/main.go`. */
module Rcalculate {
  import opened Arithmetic
  import opened Options

  datatype Size = Size(memory: int, cpu: int)

  datatype Node = Node(name: string, stateful: bool, size: Size)

  /** `Calculate` never answers DEL_STATEFUL, so it has no constructor here. */
  datatype Action = AddNode | DelNode | AddStateful | Neutral

  /** The exported, caller-supplied numbers of `Input`; the usage totals are sums of pod requests. */
  datatype Load = Load(
    minNode: int, maxNode: int,
    statefulUsed: nat, totalUsed: nat,
    threshold: int, buffer: int)

  // ----- What the accumulating loops compute

  function CountStateful(nodes: seq<Node>): (count: nat)
    ensures count <= |nodes|
  {
    if nodes == [] then 0
    else (if nodes[0].stateful then 1 else 0) + CountStateful(nodes[1..])
  }

  function Total(nodes: seq<Node>): Size {
    if nodes == [] then Size(0, 0)
    else
      var rest := Total(nodes[1..]);
      Size(nodes[0].size.memory + rest.memory, nodes[0].size.cpu + rest.cpu)
  }

  function OnlyStateful(nodes: seq<Node>): seq<Node> {
    if nodes == [] then []
    else (if nodes[0].stateful then [nodes[0]] else []) + OnlyStateful(nodes[1..])
  }

  function StatefulFilled(load: Load, nodes: seq<Node>): int {
    var memory := Total(OnlyStateful(nodes)).memory;
    if load.statefulUsed == 0 then 0
    else if memory == 0 then if load.totalUsed > 0 then 200 else 0
    else TruncDiv(load.statefulUsed * 100, memory)
  }

  /** Fill percentage of `memory` units of capacity, with the sentinels for "no load" and "no capacity". */
  function FilledOver(load: Load, memory: int): int {
    if load.totalUsed == 0 then 0
    else if memory == 0 then 200
    else TruncDiv((load.totalUsed + load.buffer) * 100, memory)
  }

  function TotalFilled(load: Load, nodes: seq<Node>): int {
    FilledOver(load, Total(nodes).memory)
  }

  function FilledByAssumingLess(load: Load, nodes: seq<Node>): int {
    FilledOver(load, if nodes == [] then 0 else Total(nodes).memory - nodes[0].size.memory)
  }

  // ----- The decision, as three guards

  predicate WantsAdd(load: Load, nodes: seq<Node>) {
    |nodes| < load.maxNode && (|nodes| < load.minNode || TotalFilled(load, nodes) >= load.threshold)
  }

  predicate WantsTag(load: Load, nodes: seq<Node>) {
    var k := CountStateful(nodes);
    k < |nodes| && (k == 0 || StatefulFilled(load, nodes) >= load.threshold)
  }

  predicate WantsDelete(load: Load, nodes: seq<Node>) {
    |nodes| > load.minNode && CountStateful(nodes) < |nodes|
    && FilledByAssumingLess(load, nodes) < load.threshold - 5
  }

  function Decide(load: Load, nodes: seq<Node>): Action {
    if WantsAdd(load, nodes) then AddNode
    else if WantsTag(load, nodes) then AddStateful
    else if WantsDelete(load, nodes) then DelNode
    else Neutral
  }

  lemma CountAppend(nodes: seq<Node>, node: Node)
    ensures CountStateful(nodes + [node]) == CountStateful(nodes) + if node.stateful then 1 else 0
  {
    if nodes != [] {
      assert (nodes + [node])[1..] == nodes[1..] + [node];
    }
  }

  lemma TotalConcat(a: seq<Node>, b: seq<Node>)
    ensures Total(a + b) == Size(Total(a).memory + Total(b).memory, Total(a).cpu + Total(b).cpu)
  {
    if a == [] {
      assert a + b == b;
    } else {
      assert (a + b)[1..] == a[1..] + b;
    }
  }

  lemma OnlyStatefulConcat(a: seq<Node>, b: seq<Node>)
    ensures OnlyStateful(a + b) == OnlyStateful(a) + OnlyStateful(b)
  {
    if a == [] {
      assert a + b == b;
    } else {
      assert (a + b)[1..] == a[1..] + b;
    }
  }

  lemma TotalAppend(nodes: seq<Node>, node: Node)
    ensures Total(nodes + [node]) ==
            Size(Total(nodes).memory + node.size.memory, Total(nodes).cpu + node.size.cpu)
  {
    TotalConcat(nodes, [node]);
  }

  lemma StatefulAppend(nodes: seq<Node>, node: Node)
    ensures OnlyStateful(nodes + [node]) == OnlyStateful(nodes) + if node.stateful then [node] else []
  {
    OnlyStatefulConcat(nodes, [node]);
  }

  /** `Input` with its two memo fields, `statefulCount` and `statefulAllocatable`. */
  class Input {
    const load: Load
    const nodes: seq<Node>
    var statefulCount: int
    var statefulAllocatable: Option<Size>

    /** The memo fields are empty or right; 0 doubles as "not computed yet". */
    ghost predicate Valid()
      reads this
    {
      && (statefulCount == 0 || statefulCount == CountStateful(nodes))
      && (statefulAllocatable.None? || statefulAllocatable.value == Total(OnlyStateful(nodes)))
    }

    constructor (load: Load, nodes: seq<Node>)
      ensures Valid() && this.load == load && this.nodes == nodes
    {
      this.load, this.nodes := load, nodes;
      statefulCount, statefulAllocatable := 0, None;
    }

    method GetStatefulCount() returns (count: int)
      requires Valid()
      modifies this`statefulCount
      ensures Valid() && count == CountStateful(nodes)
    {
      if statefulCount != 0 {
        return statefulCount;
      }
      count := 0;
      for i := 0 to |nodes|
        invariant count == CountStateful(nodes[..i])
      {
        CountAppend(nodes[..i], nodes[i]);
        assert nodes[..i + 1] == nodes[..i] + [nodes[i]];
        if nodes[i].stateful {
          count := count + 1;
        }
      }
      assert nodes[..|nodes|] == nodes;
      statefulCount := count;
    }

    method GetStatefulAllocatable() returns (size: Size)
      requires Valid()
      modifies this`statefulAllocatable
      ensures Valid() && size == Total(OnlyStateful(nodes))
    {
      if statefulAllocatable.Some? {
        return statefulAllocatable.value;
      }
      size := Size(0, 0);
      for i := 0 to |nodes|
        invariant size == Total(OnlyStateful(nodes[..i]))
      {
        OnlyStatefulConcat(nodes[..i], [nodes[i]]);
        TotalConcat(OnlyStateful(nodes[..i]), OnlyStateful([nodes[i]]));
        assert nodes[..i + 1] == nodes[..i] + [nodes[i]];
        if !nodes[i].stateful {
          continue;
        }
        size := Size(size.memory + nodes[i].size.memory, size.cpu + nodes[i].size.cpu);
      }
      assert nodes[..|nodes|] == nodes;
      statefulAllocatable := Some(size);
    }

    method GetAllocatable() returns (size: Size)
      ensures size == Total(nodes)
    {
      size := Size(0, 0);
      for i := 0 to |nodes|
        invariant size == Total(nodes[..i])
      {
        TotalAppend(nodes[..i], nodes[i]);
        assert nodes[..i + 1] == nodes[..i] + [nodes[i]];
        size := Size(size.memory + nodes[i].size.memory, size.cpu + nodes[i].size.cpu);
      }
      assert nodes[..|nodes|] == nodes;
    }

    method GetStatefulFilled() returns (filled: int)
      requires Valid()
      modifies this`statefulAllocatable
      ensures Valid() && filled == StatefulFilled(load, nodes)
    {
      if load.statefulUsed == 0 {
        return 0;
      }
      var allocatable := GetStatefulAllocatable();
      if allocatable.memory == 0 && load.totalUsed > 0 {
        return 200;
      } else if allocatable.memory == 0 {
        return 0;
      }
      filled := TruncDiv(load.statefulUsed * 100, allocatable.memory);
    }

    method GetTotalFilled() returns (filled: int)
      ensures filled == TotalFilled(load, nodes)
    {
      if load.totalUsed == 0 {
        return 0;
      }
      var allocatable := GetAllocatable();
      if allocatable.memory == 0 {
        return 200;
      }
      filled := TruncDiv((load.totalUsed + load.buffer) * 100, allocatable.memory);
    }

    method GetFilledByAssumingLess() returns (filled: int)
      ensures filled == FilledByAssumingLess(load, nodes)
    {
      if load.totalUsed == 0 {
        return 0;
      }
      if |nodes| == 0 {
        return 200;
      }
      var allocatable := GetAllocatable();
      var s := nodes[0].size.memory;
      if allocatable.memory - s == 0 {
        return 200;
      }
      filled := TruncDiv((load.totalUsed + load.buffer) * 100, allocatable.memory - s);
    }

    method Calculate() returns (action: Action)
      requires Valid()
      modifies this`statefulCount, this`statefulAllocatable
      ensures Valid() && action == Decide(load, nodes)
    {
      if |nodes| < load.maxNode {
        if |nodes| < load.minNode {
          return AddNode;
        }
        var filled := GetTotalFilled();
        if filled >= load.threshold && |nodes| < load.maxNode {
          return AddNode;
        }
      }
      if |nodes| > 0 {
        var count := GetStatefulCount();
        if count == 0 {
          return AddStateful;
        }
      }
      var statefulFilled := GetStatefulFilled();
      var count := GetStatefulCount();
      if statefulFilled >= load.threshold && |nodes| > count {
        return AddStateful;
      }
      if |nodes| > load.minNode {
        var filled := GetFilledByAssumingLess();
        count := GetStatefulCount();
        if filled < load.threshold - 5 && count < |nodes| {
          return DelNode;
        }
      }
      return Neutral;
    }
  }
}
