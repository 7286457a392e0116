/** `lib/conditions/main.go` and the condition comparison of `lib/functions/conditions.go`. */
module Conditions {
  import opened FiniteSets

  /** `changedAt` is LastTransitionTime; 0 is the zero time. */
  datatype Condition = Condition(
    kind: string, status: string, reason: string, message: string, changedAt: nat)

  const NOT_SPECIFIED := "NotSpecified"

  function Reason(r: string): string {
    if r == "" then NOT_SPECIFIED else r
  }

  predicate Differs(s: Condition, c: Condition) {
    s.status != c.status || Reason(s.reason) != Reason(c.reason) || s.message != c.message
  }

  /** FindStatusCondition: the first condition of this type, or the length of the list. */
  function Find(cs: seq<Condition>, kind: string): (p: nat)
    ensures p <= |cs|
    ensures p < |cs| ==> cs[p].kind == kind
    ensures forall i :: 0 <= i < p ==> cs[i].kind != kind
  {
    if cs == [] || cs[0].kind == kind then 0 else 1 + Find(cs[1..], kind)
  }

  predicate Has(cs: seq<Condition>, kind: string) {
    exists i :: 0 <= i < |cs| && cs[i].kind == kind
  }

  function Normalized(c: Condition, now: nat): Condition {
    c.(reason := Reason(c.reason), changedAt := if c.changedAt == 0 then now else c.changedAt)
  }

  // ----- What Patch returns

  function KeptOne(c: Condition, source: seq<Condition>, now: nat): seq<Condition> {
    var p := Find(source, c.kind);
    if p == |source| then []
    else if Differs(source[p], c) then [Normalized(source[p], now)]
    else [c]
  }

  function Kept(dest: seq<Condition>, source: seq<Condition>, now: nat): seq<Condition> {
    if dest == [] then []
    else Kept(dest[..|dest| - 1], source, now) + KeptOne(dest[|dest| - 1], source, now)
  }

  function Fresh(dest: seq<Condition>, source: seq<Condition>, now: nat): seq<Condition> {
    if source == [] then []
    else
      var c := source[|source| - 1];
      Fresh(dest, source[..|source| - 1], now) + if Has(dest, c.kind) then [] else [Normalized(c, now)]
  }

  function Patched(dest: seq<Condition>, source: seq<Condition>, now: nat): seq<Condition> {
    Kept(dest, source, now) + Fresh(dest, source, now)
  }

  predicate Touches(c: Condition, source: seq<Condition>) {
    var p := Find(source, c.kind);
    p == |source| || Differs(source[p], c)
  }

  predicate AnyTouched(dest: seq<Condition>, source: seq<Condition>) {
    dest != [] && (AnyTouched(dest[..|dest| - 1], source) || Touches(dest[|dest| - 1], source))
  }

  predicate AnyNew(dest: seq<Condition>, source: seq<Condition>) {
    source != [] && (AnyNew(dest, source[..|source| - 1]) || !Has(dest, source[|source| - 1].kind))
  }

  predicate Updated(dest: seq<Condition>, source: seq<Condition>) {
    AnyTouched(dest, source) || AnyNew(dest, source)
  }

  lemma {:induction false} KeptNext(dest: seq<Condition>, source: seq<Condition>, now: nat, i: nat)
    requires i < |dest|
    ensures Kept(dest[..i + 1], source, now) == Kept(dest[..i], source, now) + KeptOne(dest[i], source, now)
    ensures AnyTouched(dest[..i + 1], source) <==> AnyTouched(dest[..i], source) || Touches(dest[i], source)
  {
    var upto, before := dest[..i + 1], dest[..i];
    assert upto[..|upto| - 1] == before && upto[i] == dest[i];
  }

  lemma {:induction false} FreshNext(dest: seq<Condition>, source: seq<Condition>, now: nat, j: nat)
    requires j < |source|
    ensures Fresh(dest, source[..j + 1], now) ==
      Fresh(dest, source[..j], now) + if Has(dest, source[j].kind) then [] else [Normalized(source[j], now)]
    ensures AnyNew(dest, source[..j + 1]) <==> AnyNew(dest, source[..j]) || !Has(dest, source[j].kind)
  {
    var upto, before := source[..j + 1], source[..j];
    assert upto[..|upto| - 1] == before && upto[j] == source[j];
  }

  /** The first condition of its type, from which one of `dest` differs. */
  predicate WrittenTo(dest: seq<Condition>, source: seq<Condition>, i: nat)
    requires i < |source|
  {
    Find(source, source[i].kind) == i
    && exists h :: 0 <= h < |dest| && dest[h].kind == source[i].kind && Differs(source[i], dest[h])
  }

  /** Exactly those elements are normalised, and the others as they were. */
  ghost predicate SourceOf(now: nat, dest: seq<Condition>, original: seq<Condition>, current: seq<Condition>) {
    && |current| == |original|
    && forall i :: 0 <= i < |original| ==>
      current[i] == if WrittenTo(dest, original, i) then Normalized(original[i], now) else original[i]
  }

  lemma {:induction false} WrittenNext(dest: seq<Condition>, source: seq<Condition>, h: nat, i: nat)
    requires h < |dest| && i < |source|
    ensures WrittenTo(dest[..h + 1], source, i) <==>
      || WrittenTo(dest[..h], source, i)
      || (Find(source, source[i].kind) == i && dest[h].kind == source[i].kind && Differs(source[i], dest[h]))
  {
    var upto, before := dest[..h + 1], dest[..h];
    assert upto[h] == dest[h] && forall k :: 0 <= k < h ==> upto[k] == before[k];
  }

  lemma {:induction false} FindByKinds(a: seq<Condition>, b: seq<Condition>, kind: string)
    requires |a| == |b| && forall i :: 0 <= i < |a| ==> a[i].kind == b[i].kind
    ensures Find(a, kind) == Find(b, kind)
  {
    var p, q := Find(a, kind), Find(b, kind);
    assert p < |a| ==> b[p].kind == kind;
    assert q < |b| ==> a[q].kind == kind;
  }

  /** One condition of `dest`: kept, replaced by the source's, or dropped. */
  method PatchOne(c: Condition, source: array<Condition>, now: nat, ghost dest: seq<Condition>, ghost h: nat,
                  ghost original: seq<Condition>)
      returns (res: seq<Condition>, updated: bool)
    requires h < |dest| && c == dest[h] && SourceOf(now, dest[..h], original, source[..])
    modifies source
    ensures SourceOf(now, dest[..h + 1], original, source[..])
    ensures res == KeptOne(c, original, now) && updated == Touches(c, original)
  {
    FindByKinds(source[..], original, c.kind);
    forall i | 0 <= i < |original| {
      WrittenNext(dest, original, h, i);
    }
    var p := Find(source[..], c.kind);
    if p == source.Length {
      return [], true;
    }
    var s := source[p];
    assert Normalized(s, now) == Normalized(original[p], now);
    if s.status != c.status || Reason(s.reason) != Reason(c.reason) || s.message != c.message {
      source[p] := Normalized(s, now);
      return [source[p]], true;
    }
    return [c], false;
  }

  /** `source` is written to through the pointer FindStatusCondition returns. */
  method Patch(dest: seq<Condition>, source: array<Condition>, now: nat)
      returns (res: seq<Condition>, updated: bool)
    modifies source
    ensures res == Patched(dest, old(source[..]), now)
    ensures updated == Updated(dest, old(source[..]))
    ensures SourceOf(now, dest, old(source[..]), source[..])
  {
    ghost var original := source[..];
    res, updated := [], false;
    for i := 0 to |dest|
      invariant SourceOf(now, dest[..i], original, source[..])
      invariant res == Kept(dest[..i], original, now)
      invariant updated == AnyTouched(dest[..i], original)
    {
      KeptNext(dest, original, now, i);
      var one, touched := PatchOne(dest[i], source, now, dest, i, original);
      res := res + one;
      updated := updated || touched;
    }
    assert dest[..|dest|] == dest;
    var added, new' := PatchFresh(dest, source, now, original);
    res := res + added;
    updated := updated || new';
  }

  /** The conditions of `source` whose type `dest` lacks; the loop above never wrote to those. */
  method PatchFresh(dest: seq<Condition>, source: array<Condition>, now: nat,
                    ghost original: seq<Condition>)
      returns (res: seq<Condition>, updated: bool)
    requires SourceOf(now, dest, original, source[..])
    ensures res == Fresh(dest, original, now)
    ensures updated == AnyNew(dest, original)
  {
    res, updated := [], false;
    for j := 0 to source.Length
      invariant res == Fresh(dest, original[..j], now)
      invariant updated == AnyNew(dest, original[..j])
    {
      FreshNext(dest, original, now, j);
      assert source[..][j] == source[j];
      if !Has(dest, source[j].kind) {
        assert !WrittenTo(dest, original, j) && source[j] == original[j];
        updated := true;
        res := res + [Normalized(source[j], now)];
      }
    }
    assert original[..source.Length] == original;
  }

  lemma HasMember(cs: seq<Condition>, i: nat)
    requires i < |cs|
    ensures Has(cs, cs[i].kind)
  {
  }

  // ----- Patch is a merge

  ghost predicate Distinct(cs: seq<Condition>) {
    forall i, j :: 0 <= i < j < |cs| ==> cs[i].kind != cs[j].kind
  }

  lemma {:induction false} HasConcat(a: seq<Condition>, b: seq<Condition>, kind: string)
    ensures Has(a + b, kind) <==> Has(a, kind) || Has(b, kind)
  {
    if Has(a, kind) {
      var i :| 0 <= i < |a| && a[i].kind == kind;
      assert (a + b)[i].kind == kind;
    }
    if Has(b, kind) {
      var i :| 0 <= i < |b| && b[i].kind == kind;
      assert (a + b)[|a| + i].kind == kind;
    }
  }

  lemma {:induction false} HasNext(cs: seq<Condition>, kind: string)
    requires cs != []
    ensures Has(cs, kind) <==> Has(cs[..|cs| - 1], kind) || cs[|cs| - 1].kind == kind
  {
    var init, c := cs[..|cs| - 1], cs[|cs| - 1];
    assert cs == init + [c];
    HasConcat(init, [c], kind);
    assert Has([c], kind) <==> [c][0].kind == kind;
  }

  lemma {:induction false} KeptOneKinds(c: Condition, source: seq<Condition>, now: nat, kind: string)
    ensures Has(KeptOne(c, source, now), kind) <==> c.kind == kind && Has(source, kind)
    ensures Distinct(KeptOne(c, source, now))
  {
    var one := KeptOne(c, source, now);
    assert Has(source, c.kind) <==> one != [];
    assert one != [] ==> |one| == 1 && one[0].kind == c.kind;
  }

  lemma {:induction false} KeptKinds(dest: seq<Condition>, source: seq<Condition>, now: nat, kind: string)
    ensures Has(Kept(dest, source, now), kind) <==> Has(dest, kind) && Has(source, kind)
  {
    if dest != [] {
      var init, c := dest[..|dest| - 1], dest[|dest| - 1];
      KeptKinds(init, source, now, kind);
      HasNext(dest, kind);
      KeptOneKinds(c, source, now, kind);
      HasConcat(Kept(init, source, now), KeptOne(c, source, now), kind);
    }
  }

  lemma {:induction false} KeptDistinct(dest: seq<Condition>, source: seq<Condition>, now: nat)
    requires Distinct(dest)
    ensures Distinct(Kept(dest, source, now))
  {
    if dest != [] {
      var init, c := dest[..|dest| - 1], dest[|dest| - 1];
      KeptDistinct(init, source, now);
      KeptKinds(init, source, now, c.kind);
      KeptOneKinds(c, source, now, c.kind);
      assert !Has(init, c.kind);
      AppendDistinct(Kept(init, source, now), KeptOne(c, source, now));
    }
  }

  lemma {:induction false} AppendDistinct(a: seq<Condition>, b: seq<Condition>)
    requires Distinct(a) && Distinct(b)
    requires forall j :: 0 <= j < |b| ==> !Has(a, b[j].kind)
    ensures Distinct(a + b)
  {
    forall i, j | 0 <= i < j < |a + b| ensures (a + b)[i].kind != (a + b)[j].kind {
      if i < |a| <= j {
        assert !Has(a, b[j - |a|].kind);
        HasMember(a, i);
      }
    }
  }

  lemma {:induction false} FreshKinds(dest: seq<Condition>, source: seq<Condition>, now: nat, kind: string)
    ensures Has(Fresh(dest, source, now), kind) <==> Has(source, kind) && !Has(dest, kind)
  {
    if source != [] {
      var init, c := source[..|source| - 1], source[|source| - 1];
      FreshKinds(dest, init, now, kind);
      HasNext(source, kind);
      if !Has(dest, c.kind) {
        var last := [Normalized(c, now)];
        assert Has(last, kind) <==> last[0].kind == kind;
        HasConcat(Fresh(dest, init, now), last, kind);
      } else {
        assert Fresh(dest, source, now) == Fresh(dest, init, now);
      }
    }
  }

  lemma {:induction false} FreshDistinct(dest: seq<Condition>, source: seq<Condition>, now: nat)
    requires Distinct(source)
    ensures Distinct(Fresh(dest, source, now))
  {
    if source != [] {
      var init, c := source[..|source| - 1], source[|source| - 1];
      FreshDistinct(dest, init, now);
      FreshKinds(dest, init, now, c.kind);
      assert !Has(init, c.kind);
      if !Has(dest, c.kind) {
        AppendDistinct(Fresh(dest, init, now), [Normalized(c, now)]);
      }
    }
  }

  /** The result has exactly the source's types, each once when the inputs have theirs once. */
  lemma {:induction false} PatchedKinds(dest: seq<Condition>, source: seq<Condition>, now: nat, kind: string)
    ensures Has(Patched(dest, source, now), kind) <==> Has(source, kind)
    ensures Distinct(dest) && Distinct(source) ==> Distinct(Patched(dest, source, now))
  {
    KeptKinds(dest, source, now, kind);
    FreshKinds(dest, source, now, kind);
    HasConcat(Kept(dest, source, now), Fresh(dest, source, now), kind);
    if Distinct(dest) && Distinct(source) {
      KeptDistinct(dest, source, now);
      FreshDistinct(dest, source, now);
      var added := Fresh(dest, source, now);
      forall j | 0 <= j < |added| ensures !Has(Kept(dest, source, now), added[j].kind) {
        HasMember(added, j);
        KeptKinds(dest, source, now, added[j].kind);
        FreshKinds(dest, source, now, added[j].kind);
      }
      AppendDistinct(Kept(dest, source, now), added);
    }
  }

  /** `r` says what the source says about its type, up to the spelling of an empty reason. */
  predicate Agrees(r: Condition, source: seq<Condition>) {
    !Touches(r, source)
  }

  lemma {:induction false} KeptAgrees(dest: seq<Condition>, source: seq<Condition>, now: nat, i: nat)
    requires i < |Kept(dest, source, now)|
    ensures Agrees(Kept(dest, source, now)[i], source)
  {
    var init := dest[..|dest| - 1];
    if i < |Kept(init, source, now)| {
      KeptAgrees(init, source, now, i);
    }
  }

  lemma {:induction false} FreshFromSource(
      dest: seq<Condition>, source: seq<Condition>, now: nat, i: nat) returns (j: nat)
    requires i < |Fresh(dest, source, now)|
    ensures j < |source| && Fresh(dest, source, now)[i] == Normalized(source[j], now)
  {
    var init := source[..|source| - 1];
    if i < |Fresh(dest, init, now)| {
      j := FreshFromSource(dest, init, now, i);
    } else {
      j := |source| - 1;
    }
  }

  lemma {:induction false} FreshTarget(
      dest: seq<Condition>, source: seq<Condition>, now: nat, j: nat) returns (i: nat)
    requires j < |source| && !Has(dest, source[j].kind)
    ensures i < |Fresh(dest, source, now)| && Fresh(dest, source, now)[i] == Normalized(source[j], now)
  {
    var init := source[..|source| - 1];
    if j < |init| {
      i := FreshTarget(dest, init, now, j);
    } else {
      i := |Fresh(dest, init, now)|;
    }
  }

  /** Of a type that `dest` lacks the source does not say different things. */
  ghost predicate OneSaying(dest: seq<Condition>, source: seq<Condition>) {
    forall i, j :: 0 <= i < |source| && 0 <= j < |source| ==>
      source[i].kind == source[j].kind && !Has(dest, source[i].kind) ==> !Differs(source[i], source[j])
  }

  ghost predicate AllAgree(cs: seq<Condition>, source: seq<Condition>) {
    forall i :: 0 <= i < |cs| ==> Agrees(cs[i], source)
  }

  lemma {:induction false} NormalizedAgrees(source: seq<Condition>, now: nat, j: nat)
    requires j < |source|
    ensures var p := Find(source, source[j].kind); p < |source| && source[p].kind == source[j].kind
    ensures Agrees(Normalized(source[j], now), source) <==>
            !Differs(source[Find(source, source[j].kind)], source[j])
  {
  }

  lemma {:induction false} FreshAgrees(dest: seq<Condition>, source: seq<Condition>, now: nat, i: nat)
    requires OneSaying(dest, source) && i < |Fresh(dest, source, now)|
    ensures Agrees(Fresh(dest, source, now)[i], source)
  {
    var j := FreshFromSource(dest, source, now, i);
    NormalizedAgrees(source, now, j);
    FreshKinds(dest, source, now, source[j].kind);
    HasMember(Fresh(dest, source, now), i);
  }

  lemma {:induction false} FreshDisagrees(dest: seq<Condition>, source: seq<Condition>, now: nat)
    requires !OneSaying(dest, source)
    ensures !AllAgree(Fresh(dest, source, now), source)
  {
    var i, j :| 0 <= i < |source| && 0 <= j < |source| && source[i].kind == source[j].kind
      && !Has(dest, source[i].kind) && Differs(source[i], source[j]);
    var p := Find(source, source[i].kind);
    NormalizedAgrees(source, now, i);
    NormalizedAgrees(source, now, j);
    var k := FreshTarget(dest, source, now, if Differs(source[p], source[i]) then i else j);
    assert !Agrees(Fresh(dest, source, now)[k], source);
  }

  lemma {:induction false} ConcatAgrees(a: seq<Condition>, b: seq<Condition>, source: seq<Condition>)
    ensures AllAgree(a + b, source) <==> AllAgree(a, source) && AllAgree(b, source)
  {
    if AllAgree(a + b, source) {
      forall i | 0 <= i < |a| ensures Agrees(a[i], source) {
        assert (a + b)[i] == a[i];
      }
      forall i | 0 <= i < |b| ensures Agrees(b[i], source) {
        assert (a + b)[|a| + i] == b[i];
      }
    }
  }

  /**
   * Every condition of the result agrees with the source on status, reason and message, if and only
   * if the source does not say different things of a type that `dest` lacks.
   */
  lemma {:induction false} PatchedAgrees(dest: seq<Condition>, source: seq<Condition>, now: nat)
    ensures AllAgree(Patched(dest, source, now), source) <==> OneSaying(dest, source)
  {
    ConcatAgrees(Kept(dest, source, now), Fresh(dest, source, now), source);
    forall i | 0 <= i < |Kept(dest, source, now)| ensures Agrees(Kept(dest, source, now)[i], source) {
      KeptAgrees(dest, source, now, i);
    }
    if OneSaying(dest, source) {
      forall i | 0 <= i < |Fresh(dest, source, now)| ensures Agrees(Fresh(dest, source, now)[i], source) {
        FreshAgrees(dest, source, now, i);
      }
    } else {
      FreshDisagrees(dest, source, now);
    }
  }

  lemma {:induction false} NoneTouched(dest: seq<Condition>, source: seq<Condition>)
    ensures AllAgree(dest, source) <==> !AnyTouched(dest, source)
  {
    if dest != [] {
      var init, last := dest[..|dest| - 1], dest[|dest| - 1];
      NoneTouched(init, source);
      assert forall i :: 0 <= i < |init| ==> dest[i] == init[i];
      assert AllAgree(dest, source) <==> AllAgree(init, source) && Agrees(last, source) by {
        if AllAgree(dest, source) {
          assert Agrees(dest[|dest| - 1], source);
        }
      }
    }
  }

  lemma {:induction false} NoneNew(dest: seq<Condition>, source: seq<Condition>)
    requires forall j :: 0 <= j < |source| ==> Has(dest, source[j].kind)
    ensures !AnyNew(dest, source)
  {
    if source != [] {
      NoneNew(dest, source[..|source| - 1]);
    }
  }

  lemma {:induction false} KeepAll(dest: seq<Condition>, source: seq<Condition>, now: nat)
    requires !AnyTouched(dest, source)
    ensures Kept(dest, source, now) == dest
  {
    if dest != [] {
      KeepAll(dest[..|dest| - 1], source, now);
      assert dest == dest[..|dest| - 1] + [dest[|dest| - 1]];
    }
  }

  lemma {:induction false} NoneFresh(dest: seq<Condition>, source: seq<Condition>, now: nat)
    requires !AnyNew(dest, source)
    ensures Fresh(dest, source, now) == []
  {
    if source != [] {
      NoneFresh(dest, source[..|source| - 1], now);
    }
  }

  lemma {:induction false} KeptAtMost(dest: seq<Condition>, source: seq<Condition>, now: nat)
    ensures |Kept(dest, source, now)| <= |dest|
  {
    if dest != [] {
      KeptAtMost(dest[..|dest| - 1], source, now);
    }
  }

  /** What keeps every condition as it is touches none. */
  lemma {:induction false} KeptWhole(dest: seq<Condition>, source: seq<Condition>, now: nat)
    requires Kept(dest, source, now) == dest
    ensures !AnyTouched(dest, source)
  {
    if dest != [] {
      var init, last := dest[..|dest| - 1], dest[|dest| - 1];
      var before, one := Kept(init, source, now), KeptOne(last, source, now);
      KeptAtMost(init, source, now);
      assert dest == before + one && |one| <= 1;
      assert before == dest[..|before|] && one == dest[|before|..];
      KeptWhole(init, source, now);
    }
  }

  /** The flag is exact: `updated` is false precisely when the result is `dest` itself. */
  lemma {:induction false} UpdatedExactly(dest: seq<Condition>, source: seq<Condition>, now: nat)
    ensures Updated(dest, source) <==> Patched(dest, source, now) != dest
  {
    if !Updated(dest, source) {
      KeepAll(dest, source, now);
      NoneFresh(dest, source, now);
    } else if Patched(dest, source, now) == dest {
      UnchangedHasAll(dest, source, now);
      NoneFresh(dest, source, now);
      KeptWhole(dest, source, now);
      assert false;
    }
  }

  lemma {:induction false} UnchangedHasAll(dest: seq<Condition>, source: seq<Condition>, now: nat)
    requires Patched(dest, source, now) == dest
    ensures !AnyNew(dest, source)
  {
    forall j | 0 <= j < |source| ensures Has(dest, source[j].kind) {
      HasMember(source, j);
      PatchedKinds(dest, source, now, source[j].kind);
    }
    NoneNew(dest, source);
  }

  /**
   * Patching the result again with the same source changes nothing and says so, under the same
   * condition; otherwise it changes something and says so.
   */
  lemma {:induction false} PatchIdempotent(
      dest: seq<Condition>, source: seq<Condition>, now: nat, later: nat)
    ensures var res := Patched(dest, source, now);
      && (Patched(res, source, later) == res <==> OneSaying(dest, source))
      && (Updated(res, source) <==> !OneSaying(dest, source))
  {
    var res := Patched(dest, source, now);
    PatchedAgrees(dest, source, now);
    forall j | 0 <= j < |source| ensures Has(res, source[j].kind) {
      HasMember(source, j);
      PatchedKinds(dest, source, now, source[j].kind);
    }
    NoneTouched(res, source);
    NoneNew(res, source);
    UpdatedExactly(res, source, later);
  }

  /** A source that repeats no type never says different things. */
  lemma {:induction false} DistinctSaysOne(dest: seq<Condition>, source: seq<Condition>)
    requires Distinct(source)
    ensures OneSaying(dest, source)
  {
    forall i, j | 0 <= i < |source| && 0 <= j < |source| && source[i].kind == source[j].kind ensures i == j {
      assert !(i < j) && !(j < i);
    }
  }

  // ----- The result, condition by condition

  /** The first condition of this type. */
  ghost predicate FirstOf(cs: seq<Condition>, kind: string, p: int) {
    0 <= p < |cs| && cs[p].kind == kind && forall i :: 0 <= i < p ==> cs[i].kind != kind
  }

  lemma {:induction false} FirstIsFound(cs: seq<Condition>, kind: string, p: int)
    requires FirstOf(cs, kind, p)
    ensures Find(cs, kind) == p
  {
  }

  /** Same status and message, and same reason, an empty one being NotSpecified. */
  predicate SaysSame(a: Condition, b: Condition) {
    && a.status == b.status && a.message == b.message
    && (if a.reason == "" then "NotSpecified" else a.reason) == (if b.reason == "" then "NotSpecified" else b.reason)
  }

  /** The source's condition, with its own time unless that is zero, and its reason spelled out. */
  predicate Taken(r: Condition, c: Condition, now: nat) {
    && r.kind == c.kind && r.status == c.status && r.message == c.message
    && r.reason == (if c.reason == "" then "NotSpecified" else c.reason)
    && r.changedAt == (if c.changedAt == 0 then now else c.changedAt)
  }

  /** What becomes of one condition of `dest`: dropped, kept verbatim, or replaced by the source's. */
  lemma {:induction false} OneKept(c: Condition, source: seq<Condition>, now: nat)
    ensures (forall i :: 0 <= i < |source| ==> source[i].kind != c.kind) ==> KeptOne(c, source, now) == []
    ensures forall p :: FirstOf(source, c.kind, p) ==>
      |KeptOne(c, source, now)| == 1
      && if SaysSame(source[p], c) then KeptOne(c, source, now)[0] == c
         else Taken(KeptOne(c, source, now)[0], source[p], now)
  {
    forall p | FirstOf(source, c.kind, p) ensures Find(source, c.kind) == p {
      FirstIsFound(source, c.kind, p);
    }
  }

  /**
   * The result in order: for each condition of `dest` nothing, itself or the source's first of its
   * type; then those of the source of types that `dest` lacks.
   */
  lemma {:induction false} PatchedInOrder(dest: seq<Condition>, source: seq<Condition>, now: nat)
    ensures dest == [] && source == [] ==> Patched(dest, source, now) == []
    ensures dest != [] && source == [] ==> Patched(dest, source, now) == []
    ensures dest != [] ==> var init, last := dest[..|dest| - 1], dest[|dest| - 1];
      Kept(dest, source, now) == Kept(init, source, now) + KeptOne(last, source, now)
    ensures source != [] ==> var init, last := source[..|source| - 1], source[|source| - 1];
      if exists h :: 0 <= h < |dest| && dest[h].kind == last.kind then
        Fresh(dest, source, now) == Fresh(dest, init, now)
      else
        && |Fresh(dest, source, now)| == |Fresh(dest, init, now)| + 1
        && Fresh(dest, source, now)[..|Fresh(dest, init, now)|] == Fresh(dest, init, now)
        && Taken(Fresh(dest, source, now)[|Fresh(dest, init, now)|], last, now)
    ensures Patched(dest, source, now) == Kept(dest, source, now) + Fresh(dest, source, now)
  {
    if source == [] {
      NoSourceKeepsNone(dest, now);
    }
  }

  lemma {:induction false} NoSourceKeepsNone(dest: seq<Condition>, now: nat)
    ensures Kept(dest, [], now) == []
  {
    if dest != [] {
      NoSourceKeepsNone(dest[..|dest| - 1], now);
    }
  }

  /**
   * What Patch leaves of the source: the first condition of its type that one of `dest` does not
   * echo is spelled out in place, and every other is as it was.
   */
  lemma {:induction false} SourceWritten(
      now: nat, dest: seq<Condition>, original: seq<Condition>, current: seq<Condition>, i: nat)
    requires SourceOf(now, dest, original, current) && i < |original|
    ensures |current| == |original|
    ensures
      if FirstOf(original, original[i].kind, i)
         && exists h :: 0 <= h < |dest| && dest[h].kind == original[i].kind && !SaysSame(original[i], dest[h])
      then Taken(current[i], original[i], now)
      else current[i] == original[i]
  {
    var p := Find(original, original[i].kind);
    assert p < |original|;
  }

  // ----- Recording failures

  const FAILED_WITH_ERR := "FailedWithErr"

  function Failure(reason: string, msg: string): Condition {
    Condition(FAILED_WITH_ERR, "False", reason, msg, 0)
  }

  /** A status whose one list of conditions the two failure methods patch. */
  class FailureLog {
    var conditions: seq<Condition>
    var isReady: bool

    /**
     * FailWithStatusError on `Conditions` (reason StatusFailedWithErr) and FailWithOpError on
     * `OpsConditions` (reason OpsFailedWithErr), with the caller's extra conditions.
     */
    method FailWith(reason: string, extra: seq<Condition>, msg: string, now: nat)
      modifies this
      ensures !isReady
      ensures conditions == Patched(old(conditions), old(conditions) + extra + [Failure(reason, msg)], now)
    {
      var all := conditions + extra + [Failure(reason, msg)];
      var source := new Condition[|all|](i requires 0 <= i < |all| => all[i]);
      assert source[..] == all;
      var res, _ := Patch(conditions, source, now);
      isReady := false;
      conditions := res;
    }
  }

  /** The conditions after a series of failures without extra ones, each with the time it was recorded. */
  function AfterFailures(cs: seq<Condition>, reason: string, failures: seq<(string, nat)>): seq<Condition> {
    if failures == [] then cs
    else
      var before := AfterFailures(cs, reason, failures[..|failures| - 1]);
      var (msg, now) := failures[|failures| - 1];
      Patched(before, before + [Failure(reason, msg)], now)
  }

  lemma {:induction false} OldAgrees(cs: seq<Condition>, f: Condition)
    requires Distinct(cs)
    ensures !AnyTouched(cs, cs + [f])
  {
    var source := cs + [f];
    forall i | 0 <= i < |cs| ensures Agrees(cs[i], source) {
      assert source[i] == cs[i];
      assert Find(source, cs[i].kind) == i;
    }
    NoneTouched(cs, source);
  }

  lemma {:induction false} OnlyNewIsFresh(cs: seq<Condition>, f: Condition, now: nat)
    ensures Fresh(cs, cs + [f], now) == if Has(cs, f.kind) then [] else [Normalized(f, now)]
  {
    forall j | 0 <= j < |cs| ensures Has(cs, cs[j].kind) {
      HasMember(cs, j);
    }
    NoneNew(cs, cs);
    NoneFresh(cs, cs, now);
    assert (cs + [f])[..|cs|] == cs;
  }

  /** The conditions once a first failure is recorded, unless there was one. */
  function WithFailure(cs: seq<Condition>, reason: string, msg: string, now: nat): seq<Condition> {
    if Has(cs, FAILED_WITH_ERR) then cs else cs + [Normalized(Failure(reason, msg), now)]
  }

  lemma {:induction false} FailOnce(cs: seq<Condition>, reason: string, msg: string, now: nat)
    requires Distinct(cs) && reason != ""
    ensures Patched(cs, cs + [Failure(reason, msg)], now) == WithFailure(cs, reason, msg, now)
  {
    var f := Failure(reason, msg);
    OldAgrees(cs, f);
    KeepAll(cs, cs + [f], now);
    OnlyNewIsFresh(cs, f, now);
  }

  lemma {:induction false} WithFailureHas(cs: seq<Condition>, reason: string, msg: string, now: nat)
    requires Distinct(cs)
    ensures var after := WithFailure(cs, reason, msg, now); Has(after, FAILED_WITH_ERR) && Distinct(after)
  {
    if !Has(cs, FAILED_WITH_ERR) {
      var f := Normalized(Failure(reason, msg), now);
      HasMember(cs + [f], |cs|);
      AppendDistinct(cs, [f]);
    }
  }

  /**
   * However many failures are recorded, the conditions that were there stay verbatim, and at most
   * one FailedWithErr joins them: that of the first failure, unless one was there already.
   */
  lemma {:induction false} FailuresBounded(cs: seq<Condition>, reason: string, failures: seq<(string, nat)>)
    requires Distinct(cs) && reason != "" && failures != []
    ensures AfterFailures(cs, reason, failures) == WithFailure(cs, reason, failures[0].0, failures[0].1)
    ensures Distinct(AfterFailures(cs, reason, failures))
  {
    var init := failures[..|failures| - 1];
    var (msg, now) := failures[|failures| - 1];
    WithFailureHas(cs, reason, failures[0].0, failures[0].1);
    if init == [] {
      FailOnce(cs, reason, msg, now);
    } else {
      FailuresBounded(cs, reason, init);
      FailOnce(AfterFailures(cs, reason, init), reason, msg, now);
    }
  }

  /** The failure that joins: its type, reason, message and time, and status "False". */
  lemma {:induction false} FailureSaid(cs: seq<Condition>, reason: string, failures: seq<(string, nat)>)
    requires Distinct(cs) && reason != "" && failures != []
    ensures AfterFailures(cs, reason, failures) ==
      if exists i :: 0 <= i < |cs| && cs[i].kind == "FailedWithErr" then cs
      else cs + [Condition("FailedWithErr", "False", reason, failures[0].0, failures[0].1)]
  {
    FailuresBounded(cs, reason, failures);
  }

  // ----- Comparing lists

  predicate SameAs(c: Condition, second: seq<Condition>) {
    var p := Find(second, c.kind);
    p < |second| && second[p].reason == c.reason && second[p].message == c.message
    && second[p].status == c.status
  }

  predicate IsEqual(first: seq<Condition>, second: seq<Condition>) {
    |first| == |second| && forall i :: 0 <= i < |first| ==> SameAs(first[i], second)
  }

  method Equal(first: seq<Condition>, second: seq<Condition>) returns (equal: bool)
    ensures equal == IsEqual(first, second)
  {
    if |first| != |second| {
      return false;
    }
    for i := 0 to |first|
      invariant forall h :: 0 <= h < i ==> SameAs(first[h], second)
    {
      var c := first[i];
      var p := Find(second, c.kind);
      if p == |second| {
        return false;
      }
      var st := second[p];
      if st.reason != c.reason || st.message != c.message || st.status != c.status {
        return false;
      }
    }
    return true;
  }

  /** Equal lists are as long, and the first of each type in the second says the same. */
  lemma {:induction false} EqualFieldwise(first: seq<Condition>, second: seq<Condition>)
    ensures IsEqual(first, second) <==>
      |first| == |second| && forall i :: 0 <= i < |first| ==> EchoedIn(first[i], second)
  {
    forall i | 0 <= i < |first| ensures SameAs(first[i], second) <==> EchoedIn(first[i], second) {
      EchoedExactly(first[i], second);
    }
  }

  ghost predicate EchoedIn(c: Condition, second: seq<Condition>) {
    exists p :: FirstOf(second, c.kind, p)
      && second[p].status == c.status && second[p].reason == c.reason && second[p].message == c.message
  }

  lemma {:induction false} EchoedExactly(c: Condition, second: seq<Condition>)
    ensures SameAs(c, second) <==> EchoedIn(c, second)
  {
    var q := Find(second, c.kind);
    if q < |second| {
      assert FirstOf(second, c.kind, q);
    }
  }

  /** A condition without its time. */
  function Face(c: Condition): Condition {
    c.(changedAt := 0)
  }

  function Faces(cs: seq<Condition>): set<Condition> {
    set i | 0 <= i < |cs| :: Face(cs[i])
  }

  lemma {:induction false} FacesNext(cs: seq<Condition>)
    requires cs != []
    ensures Faces(cs) == Faces(cs[..|cs| - 1]) + {Face(cs[|cs| - 1])}
  {
    var init := cs[..|cs| - 1];
    forall f | f in Faces(init) ensures f in Faces(cs) {
      var i :| 0 <= i < |init| && Face(init[i]) == f;
      assert Face(cs[i]) == f;
    }
    forall f | f in Faces(cs) && f != Face(cs[|cs| - 1]) ensures f in Faces(init) {
      var i :| 0 <= i < |cs| && Face(cs[i]) == f;
      assert Face(init[i]) == f;
    }
  }

  lemma {:induction false} FacesSize(cs: seq<Condition>)
    requires Distinct(cs)
    ensures |Faces(cs)| == |cs|
  {
    if cs != [] {
      var init, c := cs[..|cs| - 1], cs[|cs| - 1];
      FacesSize(init);
      FacesNext(cs);
      assert Face(c) !in Faces(init);
    }
  }

  /** On lists without repeated types, Equal compares the two as sets, times aside. */
  lemma {:induction false} EqualIsSetEquality(first: seq<Condition>, second: seq<Condition>)
    requires Distinct(first) && Distinct(second)
    ensures IsEqual(first, second) <==> Faces(first) == Faces(second)
  {
    FacesSize(first);
    FacesSize(second);
    if IsEqual(first, second) {
      forall f | f in Faces(first) ensures f in Faces(second) {
        var i :| 0 <= i < |first| && Face(first[i]) == f;
        assert SameAs(first[i], second);
        assert Face(second[Find(second, first[i].kind)]) == f;
      }
      SubsetSize(Faces(first), Faces(second));
    }
    if Faces(first) == Faces(second) {
      forall i | 0 <= i < |first| ensures SameAs(first[i], second) {
        assert Face(first[i]) in Faces(second);
        var j :| 0 <= j < |second| && Face(second[j]) == Face(first[i]);
        assert Find(second, first[i].kind) == j;
      }
    }
  }

  // ----- On all lists: reflexive and symmetric exactly when, transitive always

  /** Two conditions of one type say different things. */
  ghost predicate Contradicts(cs: seq<Condition>) {
    exists i, j :: 0 <= i < |cs| && 0 <= j < |cs| && cs[i].kind == cs[j].kind && Face(cs[i]) != Face(cs[j])
  }

  lemma {:induction false} SameFace(c: Condition, second: seq<Condition>)
    ensures SameAs(c, second) <==>
      Find(second, c.kind) < |second| && Face(second[Find(second, c.kind)]) == Face(c)
  {
  }

  /** A list that contradicts itself equals nothing, itself included; any other equals itself. */
  lemma {:induction false} EqualReflexiveExactly(first: seq<Condition>, second: seq<Condition>)
    ensures IsEqual(first, first) <==> !Contradicts(first)
    ensures Contradicts(first) ==> !IsEqual(first, second)
  {
    if Contradicts(first) {
      var i, j :| 0 <= i < |first| && 0 <= j < |first|
        && first[i].kind == first[j].kind && Face(first[i]) != Face(first[j]);
      forall other ensures !IsEqual(first, other) {
        assert !SameAs(first[i], other) || !SameAs(first[j], other);
      }
    } else {
      forall i | 0 <= i < |first| ensures SameAs(first[i], first) {
        SameFace(first[i], first);
        HasMember(first, i);
      }
    }
  }

  lemma {:induction false} EqualTransitive(a: seq<Condition>, b: seq<Condition>, c: seq<Condition>)
    requires IsEqual(a, b) && IsEqual(b, c)
    ensures IsEqual(a, c)
  {
    forall i | 0 <= i < |a| ensures SameAs(a[i], c) {
      assert SameAs(a[i], b);
      assert SameAs(b[Find(b, a[i].kind)], c);
    }
  }

  function Kinds(cs: seq<Condition>): set<string> {
    set i | 0 <= i < |cs| :: cs[i].kind
  }

  lemma {:induction false} KindsNext(cs: seq<Condition>)
    requires cs != []
    ensures Kinds(cs) == Kinds(cs[..|cs| - 1]) + {cs[|cs| - 1].kind}
  {
    var init := cs[..|cs| - 1];
    forall k | k in Kinds(init) ensures k in Kinds(cs) {
      var i :| 0 <= i < |init| && init[i].kind == k;
      assert cs[i].kind == k;
    }
    forall k | k in Kinds(cs) && k != cs[|cs| - 1].kind ensures k in Kinds(init) {
      var i :| 0 <= i < |cs| && cs[i].kind == k;
      assert init[i].kind == k;
    }
  }

  /** As many types as conditions, exactly when no type is repeated. */
  lemma {:induction false} KindsSize(cs: seq<Condition>)
    ensures |Kinds(cs)| <= |cs|
    ensures |Kinds(cs)| == |cs| <==> Distinct(cs)
  {
    if cs != [] {
      var init, last := cs[..|cs| - 1], cs[|cs| - 1];
      KindsSize(init);
      KindsNext(cs);
      assert last.kind in Kinds(init) <==> Has(init, last.kind);
      assert Distinct(cs) <==> Distinct(init) && !Has(init, last.kind) by {
        DistinctNext(cs);
      }
    }
  }

  lemma {:induction false} DistinctNext(cs: seq<Condition>)
    requires cs != []
    ensures Distinct(cs) <==> Distinct(cs[..|cs| - 1]) && !Has(cs[..|cs| - 1], cs[|cs| - 1].kind)
  {
    var init := cs[..|cs| - 1];
    if Has(init, cs[|cs| - 1].kind) {
      var i :| 0 <= i < |init| && init[i].kind == cs[|cs| - 1].kind;
      assert cs[i].kind == cs[|cs| - 1].kind;
    }
    if Distinct(init) && !Has(init, cs[|cs| - 1].kind) {
      forall i, j | 0 <= i < j < |cs| ensures cs[i].kind != cs[j].kind {
        assert init[i] == cs[i];
        assert j < |init| ==> init[j] == cs[j];
      }
    }
  }

  /** The other list has no room for a type of its own. */
  lemma {:induction false} EqualKeepsDistinct(first: seq<Condition>, second: seq<Condition>)
    requires Distinct(first) && IsEqual(first, second)
    ensures Distinct(second)
  {
    forall k | k in Kinds(first) ensures k in Kinds(second) {
      var i :| 0 <= i < |first| && first[i].kind == k;
      assert SameAs(first[i], second);
      assert second[Find(second, k)].kind == k;
    }
    SubsetSize(Kinds(first), Kinds(second));
    KindsSize(first);
    KindsSize(second);
  }

  /** A type longer than all of these. */
  function NewKind(cs: seq<Condition>): (kind: string)
    ensures forall i :: 0 <= i < |cs| ==> |cs[i].kind| < |kind|
  {
    if cs == [] then "x"
    else
      var rest := NewKind(cs[1..]);
      assert forall i :: 0 < i < |cs| ==> cs[i] == cs[1..][i - 1];
      if |cs[0].kind| < |rest| then rest else cs[0].kind + "x"
  }

  /** The second of two like conditions, given a type of its own, goes unnoticed one way only. */
  lemma {:induction false} Asymmetric(first: seq<Condition>, i: nat, j: nat) returns (second: seq<Condition>)
    requires !Contradicts(first) && i < j < |first| && first[i].kind == first[j].kind
    ensures IsEqual(first, second) && !IsEqual(second, first)
  {
    var other := first[j].(kind := NewKind(first));
    second := first[j := other];
    forall h | 0 <= h < |first| ensures SameAs(first[h], second) {
      var kind := first[h].kind;
      assert second[if h == j then i else h].kind == kind;
      var p := Find(second, kind);
      assert p < |second| && p != j;
      assert first[p].kind == kind;
      SameFace(first[h], second);
    }
    assert second[j] == other;
    assert !SameAs(second[j], first);
  }

  /** No second list tells the two directions apart. */
  ghost predicate Symmetric(first: seq<Condition>) {
    forall second :: IsEqual(first, second) ==> IsEqual(second, first)
  }

  /**
   * Equal is symmetric for a first argument if and only if that repeats no type, or contradicts
   * itself and so equals nothing.
   */
  lemma {:induction false} EqualSymmetricExactly(first: seq<Condition>)
    ensures Symmetric(first) <==> Distinct(first) || Contradicts(first)
  {
    if Distinct(first) {
      forall second | IsEqual(first, second) ensures IsEqual(second, first) {
        EqualKeepsDistinct(first, second);
        EqualIsSetEquality(first, second);
        EqualIsSetEquality(second, first);
      }
    } else if Contradicts(first) {
      forall second ensures !IsEqual(first, second) {
        EqualReflexiveExactly(first, second);
      }
    } else {
      var i, j :| 0 <= i < j < |first| && first[i].kind == first[j].kind;
      var second := Asymmetric(first, i, j);
    }
  }

  /** On lists without repeated types it is an equivalence. */
  lemma {:induction false} EqualIsEquivalence(a: seq<Condition>, b: seq<Condition>, c: seq<Condition>)
    requires Distinct(a) && Distinct(b)
    ensures IsEqual(a, a)
    ensures IsEqual(a, b) <==> IsEqual(b, a)
    ensures IsEqual(a, b) && IsEqual(b, c) ==> IsEqual(a, c)
  {
    EqualIsSetEquality(a, a);
    EqualIsSetEquality(a, b);
    EqualIsSetEquality(b, a);
    if IsEqual(a, b) && IsEqual(b, c) {
      EqualTransitive(a, b, c);
    }
  }

  /** The smallest input on which it is not symmetric: any condition listed twice. */
  lemma {:induction false} EqualNotSymmetric(a: Condition)
    ensures exists second :: IsEqual([a, a], second) && !IsEqual(second, [a, a])
  {
    EqualSymmetricExactly([a, a]);
    assert [a, a][0].kind == [a, a][1].kind;
    assert !Contradicts([a, a]);
  }
}
