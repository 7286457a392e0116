/**
 * The generic reconcile request of `lib/operator.v2/request.go`, driven by the pipeline of the
 * Account, Device, Edge, NodePool and WorkerNode controllers: ensure checks, annotations, labels and
 * finalizers, then the gating checks in order.
 */
module Requests {
  import opened Options
  import opened FiniteSets
  import opened RawJsons

  datatype Check = Check(status: bool, message: string, generation: int)

  const ZERO_CHECK: Check := Check(false, "", 0)

  /** `checks` is a Go map that may be nil. */
  datatype Status = Status(isReady: bool, message: map<string, string>, checks: Option<map<string, Check>>)

  datatype Obj = Obj(
    labels: map<string, string>, annotations: map<string, string>, finalizers: set<string>,
    generation: int, status: Status)

  const CLEAR_STATUS_KEY := "kloudlite.io/clear-status"
  const RESTART_KEY := "kloudlite.io/do-restart"
  const FINALIZERS: set<string> := {"foregroundDeletion", "finalizers.kloudlite.io"}

  /**
   * A controller: the checks it ensures, the ones that gate it in order, those of them after whose
   * recording the round goes on all the same (in the Account controller), its labels and annotations.
   */
  datatype Pipeline = Pipeline(
    names: seq<string>, gates: seq<string>, passOn: set<string>,
    labels: map<string, string>, annotations: map<string, string>)

  /**
   * What the body behind one gating check does: it holds; it fails, which is recorded under its own
   * name or another's; the round stops without touching a check, as `Done` does; or an operation
   * fails.
   */
  datatype Outcome = Pass | Fail(under: string, msg: string) | Stop | OpError

  // ----- Specification, one function per request method

  /** A missing key reads as the empty string. */
  predicate MapContains(target: map<string, string>, m: map<string, string>) {
    forall k :: k in m ==> (if k in target then target[k] else "") == m[k]
  }

  predicate Annotated(o: Obj, key: string) {
    key in o.annotations && o.annotations[key] == "true"
  }

  function ChecksOf(st: Status): map<string, Check> {
    if st.checks.Some? then st.checks.value else map[]
  }

  predicate HasAll(checks: map<string, Check>, names: seq<string>) {
    forall i :: 0 <= i < |names| ==> names[i] in checks
  }

  function AddMissing(checks: map<string, Check>, names: seq<string>): map<string, Check> {
    checks + map n | n in names && n !in checks :: ZERO_CHECK
  }

  function Cleared(st: Status): Status {
    Status(false, map[], None)
  }

  function Failed(st: Status, name: string, check: Check, msg: string): Status {
    Status(false, st.message[name := msg], Some(ChecksOf(st)[name := check.(status := false, message := msg)]))
  }

  /** The messages left when all checks but those in `todo` were visited. */
  function Remaining(
      start: map<string, string>, checks: map<string, Check>, todo: set<string>): map<string, string> {
    map k | k in start && !(k in checks && k !in todo && checks[k].status) :: start[k]
  }

  /** `UpdateStatus`: messages of the checks that hold are dropped. */
  function Pruned(st: Status): Status {
    st.(message := Remaining(st.message, ChecksOf(st), {}))
  }

  lemma {:induction false} RemainingNext(
      start: map<string, string>, checks: map<string, Check>, todo: set<string>, name: string)
    requires name in todo && name in checks
    ensures Remaining(start, checks, todo - {name}) ==
      if checks[name].status then Remaining(start, checks, todo) - {name} else Remaining(start, checks, todo)
  {
    assert forall k :: k != name ==> (k in todo - {name} <==> k in todo);
  }

  function Passing(o: Obj): Check {
    Check(true, "", o.generation)
  }

  function FindCheck(st: Status, name: string): Check {
    if name in ChecksOf(st) then ChecksOf(st)[name] else ZERO_CHECK
  }

  function Recorded(st: Status, name: string, check: Check): Status {
    Pruned(st.(checks := Some(ChecksOf(st)[name := check])))
  }

  /** The object once this gate's check is recorded as holding. */
  function Record(p: Pipeline, o: Obj, i: nat): Obj
    requires i < |p.gates|
  {
    o.(status := Recorded(o.status, p.gates[i], Passing(o)))
  }

  function RunGates(p: Pipeline, o: Obj, outcomes: seq<Outcome>, i: nat): Status
    requires |outcomes| == |p.gates|
    decreases |p.gates| - i
  {
    if i >= |p.gates| then o.status.(isReady := true)
    else
      match outcomes[i]
      case Fail(under, msg) => Failed(o.status, under, Check(false, "", o.generation), msg)
      case OpError => o.status.(isReady := false)
      case Stop => o.status
      case Pass =>
        if FindCheck(o.status, p.gates[i]) == Passing(o) then RunGates(p, o, outcomes, i + 1)
        else if p.gates[i] in p.passOn then RunGates(p, Record(p, o, i), outcomes, i + 1)
        else Record(p, o, i).status
  }

  function LabelsOk(p: Pipeline, o: Obj): bool {
    MapContains(o.labels, p.labels) && MapContains(o.annotations, p.annotations)
  }

  function NotReady(o: Obj): Obj {
    o.(status := o.status.(isReady := false))
  }

  /**
   * The object after one round. `metaOk` says whether the API accepts the round's metadata write;
   * a refusal is recorded by FailWithOpError except where labels are written.
   */
  function Round(p: Pipeline, o: Obj, outcomes: seq<Outcome>, metaOk: bool): Obj
    requires |outcomes| == |p.gates|
  {
    if !HasAll(ChecksOf(o.status), p.names) then
      o.(status := o.status.(checks := Some(AddMissing(ChecksOf(o.status), p.names))))
    else if Annotated(o, CLEAR_STATUS_KEY) then
      if metaOk then o.(annotations := o.annotations - {CLEAR_STATUS_KEY}, status := Cleared(o.status))
      else NotReady(o)
    else if Annotated(o, RESTART_KEY) then
      if metaOk then o.(annotations := o.annotations - {RESTART_KEY}) else NotReady(o)
    else if !LabelsOk(p, o) then
      if metaOk then o.(labels := o.labels + p.labels, annotations := o.annotations + p.annotations) else o
    else if !(FINALIZERS <= o.finalizers) then
      if metaOk then o.(finalizers := o.finalizers + FINALIZERS) else NotReady(o)
    else o.(status := RunGates(p, o, outcomes, 0))
  }

  method WithMissing(start: map<string, Check>, names: seq<string>) returns (checks: map<string, Check>)
    ensures checks == AddMissing(start, names)
  {
    checks := start;
    for i := 0 to |names|
      invariant forall k :: k in checks <==> k in start || k in names[..i]
      invariant forall k :: k in checks ==> checks[k] == if k in start then start[k] else ZERO_CHECK
    {
      assert names[..i + 1] == names[..i] + [names[i]];
      if names[i] !in checks {
        checks := checks[names[i] := ZERO_CHECK];
      }
    }
    assert names[..|names|] == names;
  }

  /** Comparing sizes, as EnsureChecks does, tells whether a name was missing. */
  lemma AddMissingGrows(start: map<string, Check>, names: seq<string>)
    ensures |AddMissing(start, names)| == |start| <==> HasAll(start, names)
    ensures HasAll(start, names) ==> AddMissing(start, names) == start
  {
    var grown := AddMissing(start, names);
    assert start.Keys <= grown.Keys;
    if |grown| == |start| {
      SubsetSize(start.Keys, grown.Keys);
      forall i | 0 <= i < |names| ensures names[i] in start {
        assert names[i] in grown.Keys;
      }
    }
  }

  /** Delete one message; an emptied message loses its bytes too. */
  method DropMessage<B(!new)>(message: RawJson<string, B>, name: string)
    requires message.Valid()
    modifies message, message.Owned()
    ensures message.Valid() && message.Value() == old(message.Value()) - {name}
    ensures message.items == null || fresh(message.items)
      || (old(message.raw).None? && message.items == old(message.items))
  {
    message.Delete(name);
    var n := message.Len();
    if n == 0 {
      message.Reset();
    }
  }

  /** The checks are visited in whatever order the map iterates. */
  method DropMessages<B(!new)>(message: RawJson<string, B>, checks: map<string, Check>)
    requires message.Valid()
    modifies message, message.Owned()
    ensures message.Valid() && message.Value() == Remaining(old(message.Value()), checks, {})
    ensures message.items == null || fresh(message.items) || message.items == old(message.items)
  {
    ghost var start := message.Value();
    var todo := checks.Keys;
    while todo != {}
      invariant todo <= checks.Keys && message.Valid()
      invariant message.items == null || fresh(message.items)
        || (message.items == old(message.items) && (message.raw.None? ==> old(message.raw).None?))
      invariant message.Value() == Remaining(start, checks, todo)
      decreases |todo|
    {
      var name :| name in todo;
      RemainingNext(start, checks, todo, name);
      todo := todo - {name};
      if checks[name].status {
        DropMessage(message, name);
      }
    }
  }

  // ----- The request, holding one object that it updates in place

  class Request<B(!new)> {
    var labels: map<string, string>
    var annotations: map<string, string>
    var finalizers: set<string>
    var generation: int
    var isReady: bool
    var message: RawJson<string, B>
    var checks: Option<map<string, Check>>

    ghost predicate Valid()
      reads this, message
    {
      message.Valid()
    }

    function StatusOf(): Status
      requires Valid()
      reads this, message, message.items
    {
      Status(isReady, message.Value(), checks)
    }

    function State(): Obj
      requires Valid()
      reads this, message, message.items
    {
      Obj(labels, annotations, finalizers, generation, StatusOf())
    }

    /** Freshly read from the API: the message is bytes only. */
    constructor (o: Obj, codec: Codec<string, B>)
      requires RoundTrips(codec)
      ensures Valid() && State() == o && message.items == null
    {
      labels, annotations, finalizers, generation := o.labels, o.annotations, o.finalizers, o.generation;
      isReady, checks := o.status.isReady, o.status.checks;
      message := new RawJson(codec, Some(codec.marshal(o.status.message)));
    }

    method EnsureChecks(names: seq<string>) returns (proceed: bool)
      requires Valid()
      modifies this`checks
      ensures Valid() && proceed == HasAll(ChecksOf(old(StatusOf())), names)
      ensures StatusOf() == if proceed then old(StatusOf()) else
        old(StatusOf()).(checks := Some(AddMissing(ChecksOf(old(StatusOf())), names)))
      ensures proceed && names != [] ==> checks.Some?
    {
      var start := if checks.Some? then checks.value else map[];
      var current := WithMissing(start, names);
      AddMissingGrows(start, names);
      if |start| != |current| {
        checks := Some(current);
        return false;
      }
      assert names != [] ==> names[0] in start;
      return true;
    }

    method ClearStatusIfAnnotated(metaOk: bool) returns (proceed: bool)
      requires Valid() && message.items == null
      modifies this, message
      ensures Valid() && message == old(message) && message.items == null
      ensures proceed == !Annotated(old(State()), CLEAR_STATUS_KEY)
      ensures State() ==
        if proceed then old(State())
        else if metaOk then
          old(State()).(annotations := old(annotations) - {CLEAR_STATUS_KEY}, status := Cleared(old(StatusOf())))
        else NotReady(old(State()))
    {
      if CLEAR_STATUS_KEY !in annotations || annotations[CLEAR_STATUS_KEY] != "true" {
        return true;
      }
      if !metaOk {
        isReady := false;
        return false;
      }
      annotations := annotations - {CLEAR_STATUS_KEY};
      isReady := false;
      checks := None;
      message.Reset();
      return false;
    }

    method RestartIfAnnotated(metaOk: bool) returns (proceed: bool)
      requires Valid()
      modifies this`annotations, this`isReady
      ensures Valid() && proceed == !Annotated(old(State()), RESTART_KEY)
      ensures State() ==
        if proceed then old(State())
        else if metaOk then old(State()).(annotations := old(annotations) - {RESTART_KEY})
        else NotReady(old(State()))
    {
      if RESTART_KEY !in annotations || annotations[RESTART_KEY] != "true" {
        return true;
      }
      if metaOk {
        annotations := annotations - {RESTART_KEY};
      } else {
        isReady := false;
      }
      return false;
    }

    method EnsureLabelsAndAnnotations(p: Pipeline, metaOk: bool) returns (proceed: bool)
      requires Valid()
      modifies this`labels, this`annotations
      ensures Valid() && proceed == LabelsOk(p, old(State()))
      ensures State() ==
        if proceed || !metaOk then old(State())
        else old(State()).(labels := old(labels) + p.labels, annotations := old(annotations) + p.annotations)
    {
      proceed := MapContains(labels, p.labels) && MapContains(annotations, p.annotations);
      if !proceed && metaOk {
        labels := labels + p.labels;
        annotations := annotations + p.annotations;
      }
    }

    method EnsureFinalizers(metaOk: bool) returns (proceed: bool)
      requires Valid()
      modifies this`finalizers, this`isReady
      ensures Valid() && proceed == (FINALIZERS <= old(finalizers))
      ensures State() ==
        if proceed then old(State())
        else if metaOk then old(State()).(finalizers := old(finalizers) + FINALIZERS)
        else NotReady(old(State()))
    {
      if FINALIZERS <= finalizers {
        return true;
      }
      if metaOk {
        finalizers := finalizers + FINALIZERS;
      } else {
        isReady := false;
      }
      return false;
    }

    /** Writing into a nil Checks map panics, so the map has to be there. */
    method CheckFailed(name: string, check: Check, msg: string)
      requires Valid() && checks.Some?
      modifies this`checks, this`isReady, message, message.Owned()
      ensures Valid() && message == old(message)
      ensures StatusOf() == Failed(old(StatusOf()), name, check, msg)
      ensures State() == old(State()).(status := StatusOf())
    {
      var failing := check.(status := false, message := msg);
      checks := Some(checks.value[name := failing]);
      message.Set(name, failing.message);
      isReady := false;
    }

    method UpdateStatus()
      requires Valid()
      modifies message, message.Owned()
      ensures Valid() && StatusOf() == Pruned(old(StatusOf()))
      ensures message.items == null || fresh(message.items) || message.items == old(message.items)
    {
      DropMessages(message, if checks.Some? then checks.value else map[]);
    }

    /** The loop over the gating checks and the final IsReady. */
    method Gates(p: Pipeline, outcomes: seq<Outcome>)
      requires Valid() && message.items == null && checks.Some? && |outcomes| == |p.gates|
      modifies this`checks, this`isReady, message
      ensures Valid() && message == old(message)
      ensures StatusOf() == RunGates(p, old(State()), outcomes, 0)
    {
      for i := 0 to |p.gates|
        invariant Valid() && checks.Some? && (message.items == null || fresh(message.items))
        invariant RunGates(p, old(State()), outcomes, 0) == RunGates(p, State(), outcomes, i)
      {
        var name, check := p.gates[i], Check(false, "", generation);
        match outcomes[i] {
          case Fail(under, msg) =>
            CheckFailed(under, check, msg);
            return;
          case OpError =>
            isReady := false;
            return;
          case Stop =>
            return;
          case Pass =>
            check := check.(status := true);
            if name !in checks.value || check != checks.value[name] {
              checks := Some(checks.value[name := check]);
              UpdateStatus();
              if name !in p.passOn {
                return;
              }
            }
        }
      }
      isReady := true;
    }

    method Reconcile(p: Pipeline, outcomes: seq<Outcome>, metaOk: bool)
      requires Valid() && message.items == null && |outcomes| == |p.gates| && p.names != []
      modifies this, message
      ensures Valid() && State() == Round(p, old(State()), outcomes, metaOk)
    {
      var proceed := EnsureChecks(p.names);
      if !proceed {
        return;
      }
      proceed := ClearStatusIfAnnotated(metaOk);
      if !proceed {
        return;
      }
      proceed := RestartIfAnnotated(metaOk);
      if !proceed {
        return;
      }
      proceed := EnsureLabelsAndAnnotations(p, metaOk);
      if !proceed {
        return;
      }
      proceed := EnsureFinalizers(metaOk);
      if !proceed {
        return;
      }
      Gates(p, outcomes);
    }
  }
}
