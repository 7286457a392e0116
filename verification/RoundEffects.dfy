/**
 * What one round leaves of an object, field by field: how each gate ends it, when IsReady falls and
 * rises, and what becomes of metadata and missing checks.
 */
module RoundEffects {
  import opened Options
  import opened RawJsons
  import opened Requests

  // ----- The round up to its gates

  /** A check by this name is stored, holds and is of this generation. */
  predicate HoldsNow(o: Obj, name: string) {
    o.status.checks.Some? && name in o.status.checks.value
    && o.status.checks.value[name] == Check(true, "", o.generation)
  }

  predicate IsStored(o: Obj, name: string) {
    o.status.checks.Some? && name in o.status.checks.value
  }

  predicate ChecksThere(p: Pipeline, o: Obj) {
    forall i :: 0 <= i < |p.names| ==> IsStored(o, p.names[i])
  }

  predicate Asks(o: Obj, key: string) {
    key in o.annotations && o.annotations[key] == "true"
  }

  /** Every wanted pair is there; an empty value need not be. */
  predicate Carries(have: map<string, string>, want: map<string, string>) {
    forall k :: k in want ==> if k in have then have[k] == want[k] else want[k] == ""
  }

  predicate Labelled(p: Pipeline, o: Obj) {
    Carries(o.labels, p.labels) && Carries(o.annotations, p.annotations)
  }

  predicate Held(o: Obj) {
    "foregroundDeletion" in o.finalizers && "finalizers.kloudlite.io" in o.finalizers
  }

  /** The round gets to its gates. */
  predicate InOrder(p: Pipeline, o: Obj) {
    ChecksThere(p, o) && !Asks(o, "kloudlite.io/clear-status") && !Asks(o, "kloudlite.io/do-restart")
    && Labelled(p, o) && Held(o)
  }

  lemma {:induction false} ChecksTest(p: Pipeline, o: Obj)
    ensures HasAll(ChecksOf(o.status), p.names) <==> ChecksThere(p, o)
  {
    assert forall name :: name in ChecksOf(o.status) <==> IsStored(o, name);
    if HasAll(ChecksOf(o.status), p.names) {
      forall i | 0 <= i < |p.names| ensures IsStored(o, p.names[i]) {
        assert p.names[i] in ChecksOf(o.status);
      }
    }
    if ChecksThere(p, o) {
      forall i | 0 <= i < |p.names| ensures p.names[i] in ChecksOf(o.status) {
        assert IsStored(o, p.names[i]);
      }
    }
  }

  lemma {:induction false} CarriesTest(have: map<string, string>, want: map<string, string>)
    ensures MapContains(have, want) <==> Carries(have, want)
  {
  }

  /** The round's own tests say the same. */
  lemma {:induction false} Tests(p: Pipeline, o: Obj)
    ensures HasAll(ChecksOf(o.status), p.names) <==> ChecksThere(p, o)
    ensures Annotated(o, CLEAR_STATUS_KEY) <==> Asks(o, "kloudlite.io/clear-status")
    ensures Annotated(o, RESTART_KEY) <==> Asks(o, "kloudlite.io/do-restart")
    ensures LabelsOk(p, o) <==> Labelled(p, o)
    ensures FINALIZERS <= o.finalizers <==> Held(o)
  {
    ChecksTest(p, o);
    CarriesTest(o.labels, p.labels);
    CarriesTest(o.annotations, p.annotations);
  }

  /**
   * Generation never changes; labels only by the ensured ones, annotations by those and by the loss
   * of the one acted upon, finalizers by the two, each when its turn comes and the write is accepted.
   */
  lemma {:induction false} MetadataAfter(p: Pipeline, o: Obj, outcomes: seq<Outcome>, metaOk: bool)
    requires |outcomes| == |p.gates|
    ensures var t := Round(p, o, outcomes, metaOk);
            var clears := ChecksThere(p, o) && Asks(o, "kloudlite.io/clear-status");
            var restarts := ChecksThere(p, o) && !clears && Asks(o, "kloudlite.io/do-restart");
            var labels := ChecksThere(p, o) && !clears && !restarts && !Labelled(p, o);
            var holds := ChecksThere(p, o) && !clears && !restarts && !labels && !Held(o);
      && t.generation == o.generation
      && t.labels == (if labels && metaOk then o.labels + p.labels else o.labels)
      && t.annotations == (
           if clears && metaOk then o.annotations - {"kloudlite.io/clear-status"}
           else if restarts && metaOk then o.annotations - {"kloudlite.io/do-restart"}
           else if labels && metaOk then o.annotations + p.annotations
           else o.annotations)
      && t.finalizers == (if holds && metaOk then o.finalizers + {"foregroundDeletion", "finalizers.kloudlite.io"}
                          else o.finalizers)
  {
    Tests(p, o);
  }

  /** A round that finds checks missing adds them, unset, and does nothing else. */
  lemma {:induction false} MissingChecksAdded(p: Pipeline, o: Obj, outcomes: seq<Outcome>, metaOk: bool, name: string)
    requires |outcomes| == |p.gates| && !ChecksThere(p, o)
    ensures var t := Round(p, o, outcomes, metaOk);
            var was: map<string, Check> := if o.status.checks.Some? then o.status.checks.value else map[];
      && t == o.(status := o.status.(checks := t.status.checks)) && t.status.checks.Some?
      && (name in t.status.checks.value <==> name in was || name in p.names)
      && (name in t.status.checks.value ==>
          t.status.checks.value[name] == if name in was then was[name] else Check(false, "", 0))
  {
    Tests(p, o);
  }

  /** An accepted clear leaves a status that says nothing. */
  lemma {:induction false} StatusCleared(p: Pipeline, o: Obj, outcomes: seq<Outcome>)
    requires |outcomes| == |p.gates| && ChecksThere(p, o) && Asks(o, "kloudlite.io/clear-status")
    ensures var st := Round(p, o, outcomes, true).status;
      !st.isReady && st.message == map[] && st.checks.None?
  {
    Tests(p, o);
  }

  /** While metadata is dealt with, the status keeps its checks and messages. */
  lemma {:induction false} StatusWhileMeta(p: Pipeline, o: Obj, outcomes: seq<Outcome>, metaOk: bool)
    requires |outcomes| == |p.gates| && ChecksThere(p, o) && !InOrder(p, o)
    requires !metaOk || !Asks(o, "kloudlite.io/clear-status")
    ensures var st := Round(p, o, outcomes, metaOk).status;
      && st.checks == o.status.checks && st.message == o.status.message
      && (st.isReady ==> o.status.isReady)
  {
    Tests(p, o);
  }

  // ----- The gates

  /** The round goes on past this gate. */
  predicate GoesOn(p: Pipeline, o: Obj, outcomes: seq<Outcome>, j: nat)
    requires j < |outcomes| == |p.gates|
  {
    outcomes[j] == Pass && (HoldsNow(o, p.gates[j]) || p.gates[j] in p.passOn)
  }

  predicate Reaches(p: Pipeline, o: Obj, outcomes: seq<Outcome>, i: nat)
    requires i <= |outcomes| == |p.gates|
  {
    forall j :: 0 <= j < i ==> GoesOn(p, o, outcomes, j)
  }

  ghost predicate DistinctGates(p: Pipeline) {
    forall i, j :: 0 <= i < j < |p.gates| ==> p.gates[i] != p.gates[j]
  }

  predicate IsGate(p: Pipeline, i: nat, name: string)
    requires i <= |p.gates|
  {
    exists j :: 0 <= j < i && p.gates[j] == name
  }

  /**
   * The status in which gate i is reached: the gates before it hold now and all other checks are as
   * they were. If they all did before, nothing changed; else the messages of checks that hold are gone.
   */
  ghost predicate BeforeGate(p: Pipeline, o: Obj, i: nat, st: Status)
    requires i <= |p.gates|
  {
    && st.isReady == o.status.isReady
    && (if forall j :: 0 <= j < i ==> HoldsNow(o, p.gates[j]) then st == o.status
        else
          && st.checks.Some?
          && (forall name :: name in st.checks.value <==>
               IsGate(p, i, name) || (o.status.checks.Some? && name in o.status.checks.value))
          && (forall name :: name in st.checks.value ==>
               st.checks.value[name] ==
               if IsGate(p, i, name) then Check(true, "", o.generation) else o.status.checks.value[name])
          && (forall name :: name in st.message <==>
               name in o.status.message && !(name in st.checks.value && st.checks.value[name].status))
          && (forall name :: name in st.message ==> st.message[name] == o.status.message[name]))
  }

  /** The object in which gate i is reached. */
  function At(p: Pipeline, o: Obj, i: nat): Obj
    requires i <= |p.gates|
  {
    if i == 0 then o
    else
      var before := At(p, o, i - 1);
      if FindCheck(before.status, p.gates[i - 1]) == Passing(before) then before else Record(p, before, i - 1)
  }

  lemma {:induction false} AtBefore(p: Pipeline, o: Obj, i: nat)
    requires i <= |p.gates|
    ensures At(p, o, i) == o.(status := At(p, o, i).status) && BeforeGate(p, o, i, At(p, o, i).status)
  {
    if i > 0 {
      var before, name := At(p, o, i - 1), p.gates[i - 1];
      AtBefore(p, o, i - 1);
      assert HoldsNow(before, name) <==> FindCheck(before.status, name) == Passing(before);
      assert forall n :: IsGate(p, i, n) <==> IsGate(p, i - 1, n) || n == name;
      if forall j :: 0 <= j < i - 1 ==> HoldsNow(o, p.gates[j]) {
        assert before == o;
      }
      if HoldsNow(before, name) {
        StillBefore(p, o, i, before.status);
      } else {
        RecordedBefore(p, o, i, before);
      }
    }
  }

  /** A gate that already held adds nothing. */
  lemma {:induction false} StillBefore(p: Pipeline, o: Obj, i: nat, st: Status)
    requires 0 < i <= |p.gates| && BeforeGate(p, o, i - 1, st) && HoldsNow(o.(status := st), p.gates[i - 1])
    ensures BeforeGate(p, o, i, st)
  {
    var name := p.gates[i - 1];
    assert forall n :: IsGate(p, i, n) <==> IsGate(p, i - 1, n) || n == name;
    if (forall j :: 0 <= j < i - 1 ==> HoldsNow(o, p.gates[j])) {
      assert st == o.status;
    } else {
      assert !(forall j :: 0 <= j < i ==> HoldsNow(o, p.gates[j]));
    }
  }

  /** A gate that did not is recorded, and with it the messages of all checks that hold go. */
  lemma {:induction false} RecordedBefore(p: Pipeline, o: Obj, i: nat, before: Obj)
    requires 0 < i <= |p.gates| && before == o.(status := before.status)
    requires BeforeGate(p, o, i - 1, before.status) && !HoldsNow(before, p.gates[i - 1])
    ensures BeforeGate(p, o, i, Record(p, before, i - 1).status)
  {
    var name, st := p.gates[i - 1], Record(p, before, i - 1).status;
    assert forall n :: IsGate(p, i, n) <==> IsGate(p, i - 1, n) || n == name;
    assert st.checks == Some(ChecksOf(before.status)[name := Check(true, "", o.generation)]);
    assert !HoldsNow(o, p.gates[i - 1]);
  }

  /** A gate not among the earlier ones is found as it was stored. */
  lemma {:induction false} AtLater(p: Pipeline, o: Obj, i: nat)
    requires DistinctGates(p) && i < |p.gates|
    ensures HoldsNow(At(p, o, i), p.gates[i]) <==> HoldsNow(o, p.gates[i])
    ensures FindCheck(At(p, o, i).status, p.gates[i]) == Passing(At(p, o, i)) <==> HoldsNow(o, p.gates[i])
  {
    AtBefore(p, o, i);
    assert !IsGate(p, i, p.gates[i]);
  }

  lemma {:induction false} ReachesBefore(p: Pipeline, o: Obj, outcomes: seq<Outcome>, i: nat)
    requires 0 < i <= |outcomes| == |p.gates| && Reaches(p, o, outcomes, i)
    ensures Reaches(p, o, outcomes, i - 1) && GoesOn(p, o, outcomes, i - 1)
  {
  }

  lemma {:induction false} GatesFrom(p: Pipeline, o: Obj, outcomes: seq<Outcome>, i: nat)
    requires DistinctGates(p) && i <= |outcomes| == |p.gates| && Reaches(p, o, outcomes, i)
    ensures RunGates(p, o, outcomes, 0) == RunGates(p, At(p, o, i), outcomes, i)
  {
    if i > 0 {
      ReachesBefore(p, o, outcomes, i);
      GatesFrom(p, o, outcomes, i - 1);
      GateNext(p, o, outcomes, i - 1, i);
    }
  }

  lemma {:induction false} GateNext(p: Pipeline, o: Obj, outcomes: seq<Outcome>, i: nat, j: nat)
    requires DistinctGates(p) && i < |outcomes| == |p.gates| && j == i + 1 && GoesOn(p, o, outcomes, i)
    ensures RunGates(p, At(p, o, i), outcomes, i) == RunGates(p, At(p, o, j), outcomes, j)
  {
    AtLater(p, o, i);
  }

  /**
   * How a gate ends the round that reaches it. Stopping leaves the status as it was reached; an
   * operation error changes IsReady alone; a failure its own check and message too; a check newly
   * found to hold is recorded.
   */
  ghost predicate Ends(p: Pipeline, o: Obj, outcome: Outcome, i: nat, st: Status, end: Status)
    requires i < |p.gates|
  {
    match outcome
    case Stop => end == st
    case OpError => !end.isReady && end.checks == st.checks && end.message == st.message
    case Fail(under, msg) =>
      && !end.isReady && end.message == st.message[under := msg]
      && end.checks == Some((if st.checks.Some? then st.checks.value else map[])
                              [under := Check(false, msg, o.generation)])
    case Pass => !HoldsNow(o, p.gates[i]) && p.gates[i] !in p.passOn && BeforeGate(p, o, i + 1, end)
  }

  lemma {:induction false} AtStatus(p: Pipeline, o: Obj, i: nat)
    requires i <= |p.gates|
    ensures At(p, o, i) == o.(status := At(p, o, i).status)
  {
    if i > 0 {
      AtStatus(p, o, i - 1);
    }
  }

  lemma {:induction false} PassEnds(p: Pipeline, o: Obj, outcomes: seq<Outcome>, i: nat)
    requires DistinctGates(p) && i < |outcomes| == |p.gates| && !GoesOn(p, o, outcomes, i) && outcomes[i] == Pass
    ensures RunGates(p, At(p, o, i), outcomes, i) == At(p, o, i + 1).status
  {
    AtLater(p, o, i);
  }

  lemma {:induction false} EndsThere(p: Pipeline, o: Obj, outcomes: seq<Outcome>, i: nat)
    requires DistinctGates(p) && i < |outcomes| == |p.gates| && !GoesOn(p, o, outcomes, i)
    ensures Ends(p, o, outcomes[i], i, At(p, o, i).status, RunGates(p, At(p, o, i), outcomes, i))
  {
    if outcomes[i] == Pass {
      PassEnds(p, o, outcomes, i);
      AtBefore(p, o, i + 1);
    } else {
      AtStatus(p, o, i);
    }
  }

  lemma {:induction false} RoundIsGates(p: Pipeline, o: Obj, outcomes: seq<Outcome>, metaOk: bool)
    requires |outcomes| == |p.gates| && InOrder(p, o)
    ensures Round(p, o, outcomes, metaOk) == o.(status := RunGates(p, o, outcomes, 0))
  {
    Tests(p, o);
  }

  lemma {:induction false} GateEnds(p: Pipeline, o: Obj, outcomes: seq<Outcome>, metaOk: bool, i: nat)
    requires DistinctGates(p) && i < |outcomes| == |p.gates| && InOrder(p, o)
    requires Reaches(p, o, outcomes, i) && !GoesOn(p, o, outcomes, i)
    ensures exists st ::
      BeforeGate(p, o, i, st) && Ends(p, o, outcomes[i], i, st, Round(p, o, outcomes, metaOk).status)
  {
    RoundIsGates(p, o, outcomes, metaOk);
    AtBefore(p, o, i);
    GatesFrom(p, o, outcomes, i);
    EndsThere(p, o, outcomes, i);
    assert BeforeGate(p, o, i, At(p, o, i).status);
  }

  /** A round that all gates let pass sets IsReady, and has them all hold. */
  lemma {:induction false} AllGatesPassed(p: Pipeline, o: Obj, outcomes: seq<Outcome>, metaOk: bool)
    requires DistinctGates(p) && |outcomes| == |p.gates| && InOrder(p, o)
    requires Reaches(p, o, outcomes, |p.gates|)
    ensures var st := Round(p, o, outcomes, metaOk).status;
      st.isReady && BeforeGate(p, o, |p.gates|, st.(isReady := o.status.isReady))
  {
    RoundIsGates(p, o, outcomes, metaOk);
    AtBefore(p, o, |p.gates|);
    GatesFrom(p, o, outcomes, |p.gates|);
  }

  /** A stopping gate reached while the earlier ones hold leaves the stored status untouched. */
  lemma {:induction false} StopChangesNothing(p: Pipeline, o: Obj, outcomes: seq<Outcome>, metaOk: bool, i: nat)
    requires DistinctGates(p) && i < |outcomes| == |p.gates| && InOrder(p, o) && outcomes[i] == Stop
    requires forall j :: 0 <= j < i ==> outcomes[j] == Pass && HoldsNow(o, p.gates[j])
    ensures Round(p, o, outcomes, metaOk) == o
  {
    GateEnds(p, o, outcomes, metaOk, i);
    RoundIsGates(p, o, outcomes, metaOk);
  }

  /** An operation error so reached takes IsReady away and changes nothing else. */
  lemma {:induction false} OpErrorOnlyUnreadies(p: Pipeline, o: Obj, outcomes: seq<Outcome>, metaOk: bool, i: nat)
    requires DistinctGates(p) && i < |outcomes| == |p.gates| && InOrder(p, o) && outcomes[i] == OpError
    requires forall j :: 0 <= j < i ==> outcomes[j] == Pass && HoldsNow(o, p.gates[j])
    ensures Round(p, o, outcomes, metaOk) == o.(status := o.status.(isReady := false))
  {
    GateEnds(p, o, outcomes, metaOk, i);
    RoundIsGates(p, o, outcomes, metaOk);
  }

  // ----- IsReady

  /** The first gate that the round does not go on past. */
  lemma {:induction false} FirstBlock(p: Pipeline, o: Obj, outcomes: seq<Outcome>, n: nat) returns (i: nat)
    requires n <= |outcomes| == |p.gates| && !Reaches(p, o, outcomes, n)
    ensures i < n && Reaches(p, o, outcomes, i) && !GoesOn(p, o, outcomes, i)
  {
    if Reaches(p, o, outcomes, n - 1) {
      i := n - 1;
    } else {
      i := FirstBlock(p, o, outcomes, n - 1);
    }
  }

  /** A failing body, or a failing operation, is reached. */
  ghost predicate Fails(p: Pipeline, o: Obj, outcomes: seq<Outcome>)
    requires |outcomes| == |p.gates|
  {
    exists i :: 0 <= i < |p.gates| && Reaches(p, o, outcomes, i) && (outcomes[i].Fail? || outcomes[i] == OpError)
  }

  lemma {:induction false} GatesReadiness(p: Pipeline, o: Obj, outcomes: seq<Outcome>, metaOk: bool)
    requires DistinctGates(p) && |outcomes| == |p.gates| && InOrder(p, o)
    ensures Round(p, o, outcomes, metaOk).status.isReady <==>
      Reaches(p, o, outcomes, |p.gates|) || (o.status.isReady && !Fails(p, o, outcomes))
    ensures !(Reaches(p, o, outcomes, |p.gates|) && Fails(p, o, outcomes))
  {
    if Fails(p, o, outcomes) {
      var i :| 0 <= i < |p.gates| && Reaches(p, o, outcomes, i) && (outcomes[i].Fail? || outcomes[i] == OpError);
      assert !GoesOn(p, o, outcomes, i);
      GateEnds(p, o, outcomes, metaOk, i);
    } else if Reaches(p, o, outcomes, |p.gates|) {
      AllGatesPassed(p, o, outcomes, metaOk);
    } else {
      var i := FirstBlock(p, o, outcomes, |p.gates|);
      GateEnds(p, o, outcomes, metaOk, i);
    }
  }

  /**
   * A round takes IsReady away exactly when it finds the checks there and either clears the status,
   * or is refused the write that removes the restart annotation or adds the finalizers, or reaches a
   * gate that fails.
   */
  lemma {:induction false} ReadyLostExactly(p: Pipeline, o: Obj, outcomes: seq<Outcome>, metaOk: bool)
    requires DistinctGates(p) && |outcomes| == |p.gates| && o.status.isReady
    ensures !Round(p, o, outcomes, metaOk).status.isReady <==>
      && ChecksThere(p, o)
      && (|| Asks(o, "kloudlite.io/clear-status")
          || (Asks(o, "kloudlite.io/do-restart") && !metaOk)
          || (!Asks(o, "kloudlite.io/do-restart") && Labelled(p, o) && !Held(o) && !metaOk)
          || (InOrder(p, o) && Fails(p, o, outcomes)))
  {
    Tests(p, o);
    if InOrder(p, o) {
      GatesReadiness(p, o, outcomes, metaOk);
    }
  }

  /** And gives it exactly when it gets past every gate. */
  lemma {:induction false} ReadyGainedExactly(p: Pipeline, o: Obj, outcomes: seq<Outcome>, metaOk: bool)
    requires DistinctGates(p) && |outcomes| == |p.gates| && !o.status.isReady
    ensures Round(p, o, outcomes, metaOk).status.isReady <==>
      InOrder(p, o) && Reaches(p, o, outcomes, |p.gates|)
  {
    Tests(p, o);
    if InOrder(p, o) {
      GatesReadiness(p, o, outcomes, metaOk);
    }
  }
}
