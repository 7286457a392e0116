/** Status over whole runs, and the exact number of rounds to Ready. */
module Readiness {
  import opened Arithmetic
  import opened Options
  import opened RawJsons
  import opened Requests

  // ----- Runs of the stored object

  /**
   * One reconcile, with what its check bodies report and whether the API accepts its metadata and
   * status writes; or an edit of anything but the status by someone else.
   */
  datatype Event =
    | Reconciled(outcomes: seq<Outcome>, metaOk: bool, statusOk: bool)
    | Edited(labels: map<string, string>, annotations: map<string, string>,
             finalizers: set<string>, generation: int)

  ghost predicate Fits(p: Pipeline, ev: Event) {
    ev.Reconciled? ==> |ev.outcomes| == |p.gates|
  }

  function Stored(p: Pipeline, o: Obj, ev: Event): Obj
    requires Fits(p, ev)
  {
    match ev
    case Reconciled(outcomes, metaOk, statusOk) =>
      var after := Round(p, o, outcomes, metaOk);
      if statusOk then after else after.(status := o.status)
    case Edited(labels, annotations, finalizers, generation) =>
      Obj(labels, annotations, finalizers, generation, o.status)
  }

  ghost predicate Run(p: Pipeline, objs: seq<Obj>, events: seq<Event>) {
    && |objs| == |events| + 1
    && (forall i :: 0 <= i < |events| ==> Fits(p, events[i]))
    && (forall i {:trigger events[i]} :: 0 <= i < |events| ==> objs[i + 1] == Stored(p, objs[i], events[i]))
  }

  const NEW_STATUS: Status := Status(false, map[], None)

  // ----- Soundness of IsReady and Message

  /**
   * A message names a check that does not hold and is that check's own message; and a check that
   * does not hold has its message there unless it was never reported on.
   */
  ghost predicate MessagesSound(st: Status) {
    && (forall k :: k in st.message ==> k in ChecksOf(st) && !ChecksOf(st)[k].status
                                        && st.message[k] == ChecksOf(st)[k].message)
    && (forall k :: k in ChecksOf(st) && !ChecksOf(st)[k].status && ChecksOf(st)[k] != ZERO_CHECK
          ==> k in st.message)
  }

  ghost predicate ReadySound(p: Pipeline, st: Status) {
    st.isReady ==> forall i :: 0 <= i < |p.gates| ==>
      p.gates[i] in ChecksOf(st) && ChecksOf(st)[p.gates[i]].status
  }

  ghost predicate Sound(p: Pipeline, st: Status) {
    MessagesSound(st) && ReadySound(p, st)
  }

  lemma {:induction false} RecordedSound(p: Pipeline, o: Obj, name: string)
    requires Sound(p, o.status)
    ensures Sound(p, Recorded(o.status, name, Passing(o)))
  {
  }

  lemma {:induction false} GatesSound(p: Pipeline, o: Obj, outcomes: seq<Outcome>, i: nat)
    requires |outcomes| == |p.gates| && i <= |p.gates| && Sound(p, o.status)
    requires forall j :: 0 <= j < i ==> FindCheck(o.status, p.gates[j]) == Passing(o)
    ensures Sound(p, RunGates(p, o, outcomes, i))
    decreases |p.gates| - i
  {
    if i < |p.gates| && outcomes[i].Pass? {
      if FindCheck(o.status, p.gates[i]) == Passing(o) {
        GatesSound(p, o, outcomes, i + 1);
      } else {
        RecordedSound(p, o, p.gates[i]);
        if p.gates[i] in p.passOn {
          GatesSound(p, Record(p, o, i), outcomes, i + 1);
        }
      }
    }
  }

  lemma {:induction false} RoundSound(p: Pipeline, o: Obj, outcomes: seq<Outcome>, metaOk: bool)
    requires |outcomes| == |p.gates| && Sound(p, o.status)
    ensures Sound(p, Round(p, o, outcomes, metaOk).status)
  {
    GatesSound(p, o, outcomes, 0);
    AddMissingSound(p, o);
    var st := Round(p, o, outcomes, metaOk).status;
    assert || st == o.status.(checks := Some(AddMissing(ChecksOf(o.status), p.names)))
           || st == Cleared(o.status) || st == o.status.(isReady := false) || st == o.status
           || st == RunGates(p, o, outcomes, 0);
  }

  lemma {:induction false} AddMissingSound(p: Pipeline, o: Obj)
    requires Sound(p, o.status)
    ensures Sound(p, o.status.(checks := Some(AddMissing(ChecksOf(o.status), p.names))))
  {
  }

  /**
   * In every stored state of every run from a new object: IsReady means every gating check is
   * there and true, and Message tells exactly the reported failures.
   */
  lemma {:induction false} StatusAlwaysSound(p: Pipeline, objs: seq<Obj>, events: seq<Event>, i: nat)
    requires Run(p, objs, events) && objs[0].status == NEW_STATUS && i < |objs|
    ensures Sound(p, objs[i].status)
  {
    if i > 0 {
      StatusAlwaysSound(p, objs, events, i - 1);
      var ev := events[i - 1];
      assert Fits(p, ev);
      assert objs[i - 1 + 1] == Stored(p, objs[i - 1], ev);
      if ev.Reconciled? {
        RoundSound(p, objs[i - 1], ev.outcomes, ev.metaOk);
      }
    }
  }

  /** Whatever the run before, gates that reach a failing one report that failure. */
  lemma {:induction false} FailureIsReported(
      p: Pipeline, o: Obj, outcomes: seq<Outcome>, h: nat, i: nat, under: string, msg: string)
    requires |outcomes| == |p.gates| && h <= i < |p.gates| && outcomes[i] == Fail(under, msg)
    requires forall j :: h <= j < i ==> Continues(p, o, outcomes, j)
    ensures var st := RunGates(p, o, outcomes, h);
      && !st.isReady && under in st.message && st.message[under] == msg
      && under in ChecksOf(st) && ChecksOf(st)[under] == Check(false, msg, o.generation)
    decreases i - h
  {
    if h < i {
      var next := if FindCheck(o.status, p.gates[h]) == Passing(o) then o else Record(p, o, h);
      assert Continues(p, o, outcomes, h);
      forall j | h + 1 <= j < i ensures Continues(p, next, outcomes, j) {
        assert Continues(p, o, outcomes, j);
      }
      FailureIsReported(p, next, outcomes, h + 1, i, under, msg);
    }
  }

  /** The round goes on past this gate. */
  predicate Continues(p: Pipeline, o: Obj, outcomes: seq<Outcome>, j: nat)
    requires j < |outcomes| == |p.gates|
  {
    outcomes[j] == Pass && (FindCheck(o.status, p.gates[j]) == Passing(o) || p.gates[j] in p.passOn)
  }

  // ----- Rounds to Ready

  /** What every controller of these satisfies. */
  ghost predicate WellFormed(p: Pipeline) {
    && p.names != []
    && (forall i, j :: 0 <= i < j < |p.gates| ==> p.gates[i] != p.gates[j])
    && CLEAR_STATUS_KEY !in p.annotations && RESTART_KEY !in p.annotations
  }

  function AllPass(p: Pipeline): (outcomes: seq<Outcome>)
    ensures |outcomes| == |p.gates|
    ensures forall i :: 0 <= i < |outcomes| ==> outcomes[i] == Pass
  {
    seq(|p.gates|, i => Pass)
  }

  /** A round in which everything works. */
  function Tick(p: Pipeline, o: Obj): Obj {
    Round(p, o, AllPass(p), true)
  }

  function Ticks(p: Pipeline, o: Obj, n: nat): Obj
    decreases n
  {
    if n == 0 then o else Ticks(p, Tick(p, o), n - 1)
  }

  predicate Current(p: Pipeline, o: Obj, i: nat)
    requires i < |p.gates|
  {
    FindCheck(o.status, p.gates[i]) == Passing(o)
  }

  function One(b: bool): nat {
    if b then 1 else 0
  }

  /**
   * Rounds spent on the gates from this one on: one for every check to record that ends its round,
   * and one if anything else is left to do.
   */
  function GateRounds(p: Pipeline, o: Obj, i: nat): nat
    decreases |p.gates| - i
  {
    if i >= |p.gates| then One(!o.status.isReady)
    else
      var rest := GateRounds(p, o, i + 1);
      if Current(p, o, i) then rest
      else if p.gates[i] in p.passOn then Max(1, rest)
      else 1 + rest
  }

  /** The same when no check is there and the object is not ready. */
  function AllGateRounds(p: Pipeline, i: nat): (n: nat)
    ensures n >= 1
    decreases |p.gates| - i
  {
    if i >= |p.gates| then 1
    else One(p.gates[i] !in p.passOn) + AllGateRounds(p, i + 1)
  }

  /** Rounds spent on metadata once the status need not be cleared. */
  function MetaRounds(p: Pipeline, o: Obj): nat {
    One(Annotated(o, RESTART_KEY)) + One(!LabelsOk(p, o)) + One(!(FINALIZERS <= o.finalizers))
  }

  /** How many rounds it takes. */
  function RoundsToReady(p: Pipeline, o: Obj): nat {
    One(!HasAll(ChecksOf(o.status), p.names)) + MetaRounds(p, o)
    + if Annotated(o, CLEAR_STATUS_KEY) then 2 + AllGateRounds(p, 0) else GateRounds(p, o, 0)
  }

  lemma {:induction false} RoundsOfNone(p: Pipeline, o: Obj, i: nat)
    requires o.status.checks.None? && !o.status.isReady
    ensures GateRounds(p, o, i) == AllGateRounds(p, i)
    decreases |p.gates| - i
  {
    if i < |p.gates| {
      RoundsOfNone(p, o, i + 1);
    }
  }

  lemma {:induction false} RoundsSame(p: Pipeline, a: Obj, b: Obj, i: nat)
    requires a.status.isReady == b.status.isReady
    requires forall j :: i <= j < |p.gates| ==> (Current(p, a, j) <==> Current(p, b, j))
    ensures GateRounds(p, a, i) == GateRounds(p, b, i)
    decreases |p.gates| - i
  {
    if i < |p.gates| {
      RoundsSame(p, a, b, i + 1);
    }
  }

  /** Recording one check leaves the later ones and IsReady alone. */
  lemma {:induction false} RecordKeepsLater(p: Pipeline, o: Obj, i: nat)
    requires WellFormed(p) && i < |p.gates|
    ensures GateRounds(p, Record(p, o, i), i + 1) == GateRounds(p, o, i + 1)
    ensures forall j :: 0 <= j < |p.gates| && j != i ==>
      FindCheck(Record(p, o, i).status, p.gates[j]) == FindCheck(o.status, p.gates[j])
    ensures Current(p, Record(p, o, i), i)
  {
    RoundsSame(p, Record(p, o, i), o, i + 1);
  }

  /** The object after the gates from this one on, all bodies passing. */
  function Gated(p: Pipeline, o: Obj, i: nat): Obj {
    o.(status := RunGates(p, o, AllPass(p), i))
  }

  ghost predicate EarlierKept(p: Pipeline, o: Obj, t: Obj, i: nat) {
    && (forall k :: k in ChecksOf(o.status) ==> k in ChecksOf(t.status))
    && (forall j :: 0 <= j < |p.gates| && j < i ==>
      FindCheck(t.status, p.gates[j]) == FindCheck(o.status, p.gates[j]))
  }

  /** Running the gates from this one on takes off exactly one round, if there is one to take off. */
  ghost predicate OneLess(p: Pipeline, o: Obj, i: nat) {
    var t := Gated(p, o, i);
    && EarlierKept(p, o, t, i)
    && (if GateRounds(p, o, i) == 0 then t == o else GateRounds(p, t, i) == GateRounds(p, o, i) - 1)
  }

  lemma {:induction false} OneLessPast(p: Pipeline, o: Obj, i: nat)
    requires WellFormed(p) && i < |p.gates| && Current(p, o, i) && OneLess(p, o, i + 1)
    ensures OneLess(p, o, i)
  {
    assert Gated(p, o, i) == Gated(p, o, i + 1);
    assert Current(p, Gated(p, o, i), i);
  }

  lemma {:induction false} OneLessPassedOn(p: Pipeline, o: Obj, i: nat)
    requires WellFormed(p) && i < |p.gates| && !Current(p, o, i) && p.gates[i] in p.passOn
    requires OneLess(p, Record(p, o, i), i + 1)
    ensures OneLess(p, o, i)
  {
    RecordKeepsLater(p, o, i);
    assert Gated(p, o, i) == Gated(p, Record(p, o, i), i + 1);
    assert Current(p, Gated(p, o, i), i);
  }

  lemma {:induction false} OneLessRecorded(p: Pipeline, o: Obj, i: nat)
    requires WellFormed(p) && i < |p.gates| && !Current(p, o, i) && p.gates[i] !in p.passOn
    ensures OneLess(p, o, i)
  {
    RecordKeepsLater(p, o, i);
    assert Gated(p, o, i) == Record(p, o, i);
  }

  lemma {:induction false} GatesTick(p: Pipeline, o: Obj, i: nat)
    requires WellFormed(p) && i <= |p.gates|
    ensures OneLess(p, o, i)
    decreases |p.gates| - i
  {
    if i < |p.gates| {
      if Current(p, o, i) {
        GatesTick(p, o, i + 1);
        OneLessPast(p, o, i);
      } else if p.gates[i] in p.passOn {
        GatesTick(p, Record(p, o, i), i + 1);
        OneLessPassedOn(p, o, i);
      } else {
        OneLessRecorded(p, o, i);
      }
    }
  }

  lemma {:induction false} TickEnsuresChecks(p: Pipeline, o: Obj)
    requires WellFormed(p) && !HasAll(ChecksOf(o.status), p.names)
    ensures RoundsToReady(p, Tick(p, o)) == RoundsToReady(p, o) - 1
  {
    var next := Tick(p, o);
    assert HasAll(ChecksOf(next.status), p.names);
    RoundsSame(p, o, next, 0);
  }

  lemma {:induction false} TickClears(p: Pipeline, o: Obj)
    requires WellFormed(p) && HasAll(ChecksOf(o.status), p.names) && Annotated(o, CLEAR_STATUS_KEY)
    ensures RoundsToReady(p, Tick(p, o)) == RoundsToReady(p, o) - 1
  {
    var next := Tick(p, o);
    assert p.names[0] !in ChecksOf(next.status);
    RoundsOfNone(p, next, 0);
  }

  /** Everything up to the labels is in order. */
  predicate ChecksThere(p: Pipeline, o: Obj) {
    HasAll(ChecksOf(o.status), p.names) && !Annotated(o, CLEAR_STATUS_KEY)
  }

  lemma {:induction false} SameStatus(p: Pipeline, o: Obj, next: Obj)
    requires next.status == o.status && next.generation == o.generation
    requires ChecksThere(p, o) && !Annotated(next, CLEAR_STATUS_KEY)
    ensures RoundsToReady(p, next) - MetaRounds(p, next) == RoundsToReady(p, o) - MetaRounds(p, o)
  {
    RoundsSame(p, o, next, 0);
  }

  lemma {:induction false} TickMeta(p: Pipeline, o: Obj)
    requires WellFormed(p) && ChecksThere(p, o) && MetaRounds(p, o) > 0
    ensures RoundsToReady(p, Tick(p, o)) == RoundsToReady(p, o) - 1
  {
    MetaTick(p, o);
    SameStatus(p, o, Tick(p, o));
  }

  lemma {:induction false} MetaTick(p: Pipeline, o: Obj)
    requires WellFormed(p) && ChecksThere(p, o) && MetaRounds(p, o) > 0
    ensures MetaRounds(p, Tick(p, o)) == MetaRounds(p, o) - 1
    ensures Tick(p, o).status == o.status && Tick(p, o).generation == o.generation
    ensures !Annotated(Tick(p, o), CLEAR_STATUS_KEY)
  {
    if Annotated(o, RESTART_KEY) {
      RestartTick(p, o);
    }
  }

  /** Removing the restart annotation leaves the ensured ones alone. */
  lemma {:induction false} RestartTick(p: Pipeline, o: Obj)
    requires WellFormed(p) && ChecksThere(p, o) && Annotated(o, RESTART_KEY)
    ensures var next := Tick(p, o);
      next == o.(annotations := o.annotations - {RESTART_KEY}) && (LabelsOk(p, next) <==> LabelsOk(p, o))
  {
    var next := Tick(p, o);
    assert next == o.(annotations := o.annotations - {RESTART_KEY});
    assert forall k :: k in p.annotations ==>
      (k in next.annotations <==> k in o.annotations)
      && (k in o.annotations ==> next.annotations[k] == o.annotations[k]);
  }

  lemma {:induction false} TickGates(p: Pipeline, o: Obj)
    requires WellFormed(p) && ChecksThere(p, o) && MetaRounds(p, o) == 0
    ensures RoundsToReady(p, o) > 0 ==> RoundsToReady(p, Tick(p, o)) == RoundsToReady(p, o) - 1
    ensures RoundsToReady(p, o) == 0 ==> Tick(p, o) == o
  {
    GatesTick(p, o, 0);
    assert Tick(p, o) == Gated(p, o, 0);
  }

  /** Every round of a well-behaved object brings it exactly one round closer. */
  lemma {:induction false} TickLowers(p: Pipeline, o: Obj)
    requires WellFormed(p) && RoundsToReady(p, o) > 0
    ensures RoundsToReady(p, Tick(p, o)) == RoundsToReady(p, o) - 1
  {
    if !HasAll(ChecksOf(o.status), p.names) {
      TickEnsuresChecks(p, o);
    } else if Annotated(o, CLEAR_STATUS_KEY) {
      TickClears(p, o);
    } else if MetaRounds(p, o) > 0 {
      TickMeta(p, o);
    } else {
      TickGates(p, o);
    }
  }

  lemma {:induction false} NothingStale(p: Pipeline, o: Obj, i: nat, j: nat)
    requires GateRounds(p, o, i) == 0 && i <= |p.gates|
    ensures o.status.isReady
    ensures i <= j < |p.gates| ==> Current(p, o, j)
    decreases |p.gates| - i
  {
    if i < |p.gates| {
      NothingStale(p, o, i + 1, j);
    }
  }

  /** With no rounds to go the object is Ready, current, and no longer changes; and conversely. */
  lemma {:induction false} ReadyIsFixpoint(p: Pipeline, o: Obj)
    requires WellFormed(p)
    ensures RoundsToReady(p, o) == 0 <==> Tick(p, o) == o
    ensures RoundsToReady(p, o) == 0 ==>
      && o.status.isReady
      && forall i :: 0 <= i < |p.gates| ==> FindCheck(o.status, p.gates[i]) == Passing(o)
  {
    if RoundsToReady(p, o) == 0 {
      TickGates(p, o);
      NothingStale(p, o, 0, 0);
      forall i | 0 <= i < |p.gates| ensures FindCheck(o.status, p.gates[i]) == Passing(o) {
        NothingStale(p, o, 0, i);
      }
    } else {
      TickLowers(p, o);
    }
  }

  lemma {:induction false} GateBound(p: Pipeline, o: Obj, i: nat)
    requires i <= |p.gates|
    ensures GateRounds(p, o, i) <= AllGateRounds(p, i) <= |p.gates| - i + 1
    decreases |p.gates| - i
  {
    if i < |p.gates| {
      GateBound(p, o, i + 1);
    }
  }

  /** At most one round for each gate that ends its round, and seven more. */
  lemma {:induction false} RoundsBounded(p: Pipeline, o: Obj)
    ensures RoundsToReady(p, o) <= 6 + AllGateRounds(p, 0) <= |p.gates| + 7
  {
    GateBound(p, o, 0);
  }

  /**
   * From any stored status, if bodies and writes succeed and nothing else changes, the object is
   * Ready after exactly RoundsToReady rounds, and at a fixpoint no earlier.
   */
  lemma {:induction false} ReadyInExactly(p: Pipeline, o: Obj, n: nat)
    requires WellFormed(p)
    ensures n >= RoundsToReady(p, o) ==>
      Ticks(p, o, n).status.isReady && Tick(p, Ticks(p, o, n)) == Ticks(p, o, n)
    ensures n < RoundsToReady(p, o) ==> Tick(p, Ticks(p, o, n)) != Ticks(p, o, n)
    decreases n
  {
    ReadyIsFixpoint(p, o);
    if n > 0 {
      if RoundsToReady(p, o) > 0 {
        TickLowers(p, o);
      }
      ReadyInExactly(p, Tick(p, o), n - 1);
    }
  }

  // ----- The Device and Account controllers

  function DevicePipeline(name: string, account: string, ip: string): Pipeline {
    var checks := ["wireguard-keys-ready", "services-syncd", "dns-rewrite-rules-syncd", "device-config-syncd"];
    Pipeline(
      checks, checks, {},
      map["kloudlite.io/device.name" := name, "kloudlite.io/account.name" := account],
      map["kloudlite.io/group-version-kind" := "management.kloudlite.io/v1, Kind=Device", "ip" := ip])
  }

  lemma {:induction false} DeviceWellFormed(name: string, account: string, ip: string)
    ensures WellFormed(DevicePipeline(name, account, ip))
  {
    var p := DevicePipeline(name, account, ip);
    assert p.gates[0][0] != p.gates[1][0] && p.gates[0][0] != p.gates[2][0] && p.gates[0][0] != p.gates[3][0];
    assert p.gates[1][0] != p.gates[2][0] && p.gates[1][0] != p.gates[3][0];
    assert p.gates[2][1] != p.gates[3][1];
    assert CLEAR_STATUS_KEY[13] != "kloudlite.io/group-version-kind"[13] && |CLEAR_STATUS_KEY| != |"ip"|;
    assert RESTART_KEY[13] != "kloudlite.io/group-version-kind"[13] && |RESTART_KEY| != |"ip"|;
  }

  /** A Device whose dependencies are in place is Ready, for good, after at most eleven rounds. */
  lemma {:induction false} DeviceReadyInEleven(o: Obj, name: string, account: string, ip: string)
    ensures var p := DevicePipeline(name, account, ip);
      Ticks(p, o, 11).status.isReady && Tick(p, Ticks(p, o, 11)) == Ticks(p, o, 11)
  {
    var p := DevicePipeline(name, account, ip);
    DeviceWellFormed(name, account, ip);
    RoundsBounded(p, o);
    ReadyInExactly(p, o, 11);
  }

  /** Recording that the namespace or the server's configuration is ready does not end the round. */
  function AccountPipeline(name: string): Pipeline {
    var checks := ["namespace-ready", "wg-server-keys-ready", "wg-server-config-ready", "device-proxy-ready",
                   "wg-deployments-ready", "coredns-deployment-ready"];
    Pipeline(checks, checks, {checks[0], checks[2]}, map["kloudlite.io/account-name" := name], map[])
  }

  lemma {:induction false} AccountWellFormed(name: string)
    ensures WellFormed(AccountPipeline(name))
  {
    var gates := AccountPipeline(name).gates;
    assert |gates[0]| == 15 && |gates[1]| == 20 && |gates[2]| == 22 && |gates[3]| == 18;
    assert |gates[4]| == 20 && |gates[5]| == 24 && gates[1][3] != gates[4][3];
  }

  lemma {:induction false} AccountGateRounds(name: string)
    ensures AllGateRounds(AccountPipeline(name), 0) <= 5
  {
    var p := AccountPipeline(name);
    assert p.gates[0] in p.passOn && p.gates[2] in p.passOn;
    assert AllGateRounds(p, 6) == 1;
    assert AllGateRounds(p, 5) <= 2;
    assert AllGateRounds(p, 4) <= 3;
    assert AllGateRounds(p, 3) <= 4;
    assert AllGateRounds(p, 2) <= 4;
    assert AllGateRounds(p, 1) <= 5;
  }

  /** Likewise an Account: two of its six gates never cost a round of their own. */
  lemma {:induction false} AccountReadyInEleven(o: Obj, name: string)
    ensures var p := AccountPipeline(name);
      Ticks(p, o, 11).status.isReady && Tick(p, Ticks(p, o, 11)) == Ticks(p, o, 11)
  {
    var p := AccountPipeline(name);
    AccountWellFormed(name);
    RoundsBounded(p, o);
    AccountGateRounds(name);
    ReadyInExactly(p, o, 11);
  }
}
