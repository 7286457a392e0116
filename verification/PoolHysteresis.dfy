/** Nodes of unequal size: exactly when deleting and adding can follow each other at one load. */
module PoolHysteresis {
  import opened Arithmetic
  import opened Rcalculate
  import opened NodePool
  import opened PoolSafety
  import opened PoolCapacity

  /** At some load `over` is filled below the delete mark while `under` is filled to the add mark. */
  ghost predicate GapAt(u: nat, over: nat, under: nat) {
    var load := Load(0, 0, 0, u, THRESHOLD, 0);
    Slack(load, over) && Short(load, under)
  }

  /**
   * The 80/75 band separates two capacities exactly when 16 * under < 15 * over. Capacities are
   * whole thousands because every node's memory is.
   */
  lemma GapExactly(over: nat, under: nat)
    requires over % 1000 == 0 && under % 1000 == 0
    ensures (exists u :: GapAt(u, over, under)) <==> 16 * under < 15 * over
  {
    if u: nat :| GapAt(u, over, under) {
      GapImplies(u, over, under);
    }
    if 16 * under < 15 * over {
      var u := if under == 0 then 1 else under / 1000 * 800;
      GapWitness(u, over, under);
    }
  }

  lemma GapImplies(u: nat, over: nat, under: nat)
    requires GapAt(u, over, under)
    ensures 16 * under < 15 * over && u > 0
  {
    if over > 0 {
      QuotientReaches(u * 100, over, 75);
    }
    if under > 0 {
      QuotientReaches(u * 100, under, 80);
    }
  }

  lemma GapWitness(u: nat, over: nat, under: nat)
    requires over % 1000 == 0 && under % 1000 == 0 && 16 * under < 15 * over
    requires u == if under == 0 then 1 else under / 1000 * 800
    ensures GapAt(u, over, under) && u > 0
  {
    QuotientReaches(u * 100, over, 75);
    if under > 0 {
      QuotientReaches(u * 100, under, 80);
    }
  }

  function WithLoad(ev: Event, totalUsed: nat, statefulUsed: nat): Event {
    ev.(totalUsed := totalUsed, statefulUsed := statefulUsed)
  }

  lemma GapIgnoresBounds(ev: Event, over: nat, under: nat)
    ensures GapAt(ev.totalUsed, over, under) <==> Slack(LoadOf(ev), over) && Short(LoadOf(ev), under)
  {
  }

  // ----- DEL_NODE followed by ADD_NODE

  ghost predicate DeleteThenAdd(ws: seq<Worker>, ev: Event, u: nat, s: nat) {
    var e := WithLoad(ev, u, s);
    Decision(ws, e) == DelNode && Decision(Step(ws, e), e) == AddNode
  }

  lemma {:induction false} DeleteThenAddAt(ws: seq<Worker>, ev: Event)
    requires Inv(ws) && ws != []
    requires Decision(ws, ev) == DelNode && Decision(Step(ws, ev), ev) == AddNode
    ensures var whole := TotalMemory(ws, ev.catalogue);
      && ev.pool.minNode < |ws| <= ev.pool.maxNode && 0 < K(ws) < |ws| && Victim(ws) < |ws|
      && 16 * (whole - Memory(ws[Victim(ws)], ev.catalogue))
           < 15 * (whole - FirstMemory(ws, ev.catalogue))
  {
    var before, after := Seen(ws, ev), Seen(Step(ws, ev), ev);
    AfterDelete(ws, ev);
    SeenSensible(ws, ev);
    SeenSensible(Step(ws, ev), ev);
    GapIgnoresBounds(ev, before.less, after.whole);
    GapImplies(ev.totalUsed, before.less, after.whole);
  }

  lemma {:induction false} AfterDelete(ws: seq<Worker>, ev: Event)
    requires Inv(ws) && Decision(ws, ev) == DelNode
    ensures Victim(ws) < |ws|
    ensures var before, after := Seen(ws, ev), Seen(Step(ws, ev), ev);
      after.n == before.n - 1 && after.whole == before.whole - Memory(ws[Victim(ws)], ev.catalogue)
  {
    VictimIsDeleted(ws, ev);
    MemoryRemove(ws, Victim(ws), ev.catalogue);
  }

  lemma {:induction false} DeleteThenAddWitness(ws: seq<Worker>, ev: Event) returns (u: nat)
    requires Inv(ws) && ws != [] && Victim(ws) < |ws|
    requires ev.pool.minNode < |ws| <= ev.pool.maxNode && 0 < K(ws) < |ws|
    requires var whole := TotalMemory(ws, ev.catalogue);
      16 * (whole - Memory(ws[Victim(ws)], ev.catalogue)) < 15 * (whole - FirstMemory(ws, ev.catalogue))
    ensures DeleteThenAdd(ws, ev, u, 0)
  {
    var over, under, cat := Seen(ws, ev).less, Seen(RemoveAt(ws, Victim(ws)), ev).whole, ev.catalogue;
    MemoryRemove(ws, Victim(ws), cat);
    WholeThousands(ws, cat);
    WholeThousands(RemoveAt(ws, Victim(ws)), cat);
    GapExactly(over, under);
    u :| GapAt(u, over, under);
    DeleteThenAddBetween(ws, WithLoad(ev, u, 0), over, under);
  }

  lemma {:induction false} WholeThousands(ws: seq<Worker>, catalogue: Catalogue)
    ensures var whole := TotalMemory(ws, catalogue);
      whole % 1000 == 0 && (whole - FirstMemory(ws, catalogue)) % 1000 == 0
  {
    MemoryBounds(ws, catalogue);
  }

  lemma {:induction false} DeleteThenAddBetween(ws: seq<Worker>, ev: Event, over: nat, under: nat)
    requires Inv(ws) && Victim(ws) < |ws| && ev.statefulUsed == 0 && GapAt(ev.totalUsed, over, under)
    requires ev.pool.minNode < |ws| <= ev.pool.maxNode && 0 < K(ws) < |ws|
    requires over == Seen(ws, ev).less && under == Seen(RemoveAt(ws, Victim(ws)), ev).whole
    ensures Decision(ws, ev) == DelNode && Decision(Step(ws, ev), ev) == AddNode
  {
    GapIgnoresBounds(ev, over, under);
    MarksMonotone(LoadOf(ev), over, Seen(ws, ev).whole);
    SeenSensible(ws, ev);
    VictimIsDeleted(ws, ev);
    SeenSensible(Step(ws, ev), ev);
  }

  /**
   * A DEL_NODE can be followed at the same load by an ADD_NODE if and only if the pool's bounds
   * allow both and 16*(M-d) < 15*(M-s): M the edge's memory, d that of the highest-index worker
   * and s that of the first one listed (whose size the deletion estimate uses instead).
   */
  lemma {:induction false} DeleteThenAddExactly(ws: seq<Worker>, ev: Event)
    requires Inv(ws) && ws != []
    ensures Victim(ws) < |ws|
    ensures (exists u, s :: DeleteThenAdd(ws, ev, u, s)) <==>
      var whole := TotalMemory(ws, ev.catalogue);
      && ev.pool.minNode < |ws| <= ev.pool.maxNode && 0 < K(ws) < |ws|
      && 16 * (whole - Memory(ws[Victim(ws)], ev.catalogue))
           < 15 * (whole - FirstMemory(ws, ev.catalogue))
  {
    Surjective(ws, |ws| - 1);
    if u: nat, s: nat :| DeleteThenAdd(ws, ev, u, s) {
      DeleteThenAddAt(ws, WithLoad(ev, u, s));
    }
    var whole := TotalMemory(ws, ev.catalogue);
    if && ev.pool.minNode < |ws| <= ev.pool.maxNode && 0 < K(ws) < |ws|
       && 16 * (whole - Memory(ws[Victim(ws)], ev.catalogue))
            < 15 * (whole - FirstMemory(ws, ev.catalogue)) {
      var u := DeleteThenAddWitness(ws, ev);
    }
  }

  // ----- ADD_NODE followed by DEL_NODE

  ghost predicate AddThenDelete(ws: seq<Worker>, ev: Event, u: nat, s: nat) {
    var e := WithLoad(ev, u, s);
    Decision(ws, e) == AddNode && Decision(Step(ws, e), e) == DelNode
  }

  lemma {:induction false} AddThenDeleteAt(ws: seq<Worker>, ev: Event)
    requires Inv(ws) && !NameUsed(ws, ev.name)
    requires Decision(ws, ev) == AddNode && Decision(Step(ws, ev), ev) == DelNode
    ensures Step(ws, ev) == Enlarged(ws, ev)
    ensures ev.pool.minNode <= |ws| < ev.pool.maxNode && 0 < K(ws)
    ensures 16 * TotalMemory(ws, ev.catalogue)
              < 15 * (TotalMemory(Enlarged(ws, ev), ev.catalogue) - FirstMemory(Enlarged(ws, ev), ev.catalogue))
  {
    var before, after := Seen(ws, ev), Seen(Step(ws, ev), ev);
    AddEffect(ws, ev);
    SeenSensible(ws, ev);
    SeenSensible(Step(ws, ev), ev);
    GapIgnoresBounds(ev, after.less, before.whole);
    GapImplies(ev.totalUsed, after.less, before.whole);
  }

  lemma {:induction false} AddThenDeleteWitness(ws: seq<Worker>, ev: Event) returns (u: nat)
    requires Inv(ws) && !NameUsed(ws, ev.name)
    requires ev.pool.minNode <= |ws| < ev.pool.maxNode && 0 < K(ws)
    requires 16 * TotalMemory(ws, ev.catalogue)
               < 15 * (TotalMemory(Enlarged(ws, ev), ev.catalogue) - FirstMemory(Enlarged(ws, ev), ev.catalogue))
    ensures AddThenDelete(ws, ev, u, 0)
  {
    var over, under := Seen(Enlarged(ws, ev), ev).less, Seen(ws, ev).whole;
    WholeThousands(ws, ev.catalogue);
    WholeThousands(Enlarged(ws, ev), ev.catalogue);
    GapExactly(over, under);
    u :| GapAt(u, over, under);
    AddThenDeleteBetween(ws, WithLoad(ev, u, 0), over, under);
  }

  lemma {:induction false} AddThenDeleteBetween(ws: seq<Worker>, ev: Event, over: nat, under: nat)
    requires Inv(ws) && !NameUsed(ws, ev.name) && ev.statefulUsed == 0 && GapAt(ev.totalUsed, over, under)
    requires ev.pool.minNode <= |ws| < ev.pool.maxNode && 0 < K(ws)
    requires over == Seen(Enlarged(ws, ev), ev).less && under == Seen(ws, ev).whole
    ensures Decision(ws, ev) == AddNode && Decision(Step(ws, ev), ev) == DelNode
  {
    GapIgnoresBounds(ev, over, under);
    SeenSensible(ws, ev);
    AddEffect(ws, ev);
    MarksMonotone(LoadOf(ev), over, Seen(Enlarged(ws, ev), ev).whole);
    SeenSensible(Enlarged(ws, ev), ev);
  }

  /**
   * An ADD_NODE can be followed at the same load by a DEL_NODE if and only if the bounds allow both
   * and 16*M < 15*(M+a-s'): a the new worker's memory, s' that of the first one listed afterwards.
   */
  lemma {:induction false} AddThenDeleteExactly(ws: seq<Worker>, ev: Event)
    requires Inv(ws) && !NameUsed(ws, ev.name)
    ensures (exists u, s :: AddThenDelete(ws, ev, u, s)) <==>
      && ev.pool.minNode <= |ws| < ev.pool.maxNode && 0 < K(ws)
      && 16 * TotalMemory(ws, ev.catalogue)
           < 15 * (TotalMemory(ws, ev.catalogue) + PoolMemory(ev) - FirstMemory(Enlarged(ws, ev), ev.catalogue))
  {
    MemoryInsert(ws, Min(ev.slot, |ws|),
      Worker(ev.name, |ws|, false, ev.pool.provider, ev.pool.instanceType), ev.catalogue);
    if u: nat, s: nat :| AddThenDelete(ws, ev, u, s) {
      AddThenDeleteAt(ws, WithLoad(ev, u, s));
    }
    if && ev.pool.minNode <= |ws| < ev.pool.maxNode && 0 < K(ws)
       && 16 * TotalMemory(ws, ev.catalogue)
            < 15 * (TotalMemory(Enlarged(ws, ev), ev.catalogue) - FirstMemory(Enlarged(ws, ev), ev.catalogue)) {
      var u := AddThenDeleteWitness(ws, ev);
    }
  }

  /**
   * In particular neither happens at any load when the first listed worker is at least as large as
   * the one removed, or added.
   */
  lemma {:induction false} NoThrashWhenFirstIsLargest(ws: seq<Worker>, ev: Event, u: nat, s: nat)
    requires Inv(ws) && ws != [] && !NameUsed(ws, ev.name)
    ensures Victim(ws) < |ws|
    ensures FirstMemory(ws, ev.catalogue) >= Memory(ws[Victim(ws)], ev.catalogue) ==>
      !DeleteThenAdd(ws, ev, u, s)
    ensures FirstMemory(Enlarged(ws, ev), ev.catalogue) >= PoolMemory(ev) ==>
      !AddThenDelete(ws, ev, u, s)
  {
    DeleteThenAddExactly(ws, ev);
    AddThenDeleteExactly(ws, ev);
    MemoryBounds(ws, ev.catalogue);
  }
}
